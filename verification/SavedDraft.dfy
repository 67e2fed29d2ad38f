/** A draft saved with its quote folded under it, and what it holds when it reopens
    (app/src/compose.rs). `marked` tells the tag of a forwarded block, and `htmlToText`
    is the HTML reader used when a message has no text part. */
module SavedDraft {
  import opened Text
  import opened Folding
  import opened ForwardedBlock

  const QUOTE_MARK := "<!-- mailrs-quoted -->"
  const FORWARD_LINE := "---------- Forwarded message ----------"
  const CRLF := "\r\n"

  /** A text with every carriage return before a line feed taken out. */
  function LineFeeds(text: string): string {
    if text == "" then ""
    else if StartsWith(text, CRLF) then "\n" + LineFeeds(text[2..])
    else [text[0]] + LineFeeds(text[1..])
  }

  /** A message body as plain text. */
  function BodyText(text: Option<string>, html: Option<string>, htmlToText: string -> string): string {
    if text.Some? && !Blank(text.value) then LineFeeds(text.value)
    else if html.Some? then htmlToText(html.value)
    else ""
  }

  function SplitForwardedText(text: string): (string, Option<string>) {
    FindIs(text, FORWARD_LINE);
    match Find(text, FORWARD_LINE)
    case Some(at) => (TrimEnd(text[..at]), Some(text[at..]))
    case None => (text, None)
  }

  /** What a reopened draft holds: its words, its folded quote, the HTML its styled words
      are read from, and the message it forwards. */
  datatype Reopened = Reopened(markdown: string, quoted: Option<string>, rich: Option<string>,
                               forwarded: Option<(Option<string>, string)>)

  function TakeBody(text: Option<string>, html: Option<string>, tail: string, marked: string -> bool,
                    htmlToText: string -> string): Reopened
  {
    var (mine, theirs) :=
      if html.Some? then
        var (above, below) := SplitForwarded(html.value, marked);
        (Some(above), below)
      else (None, None);
    var (words, forwardedText) := SplitForwardedText(BodyText(text, html, htmlToText));
    var fold := if mine.Some? then Find(mine.value, QUOTE_MARK) else None;
    FindIs(if mine.Some? then mine.value else "", QUOTE_MARK);
    TrailingBound(words, tail);
    var quote := if fold.Some? then TrailingQuote(words, tail) else None;
    var rich := if quote.Some? then Some(mine.value[..fold.value]) else mine;
    Reopened(
      if quote.Some? then TrimLineFeeds(words[..quote.value]) else words,
      if quote.Some? then Some(TrimEnd(words[quote.value..])) else None,
      if rich.Some? && !Blank(rich.value) then rich else None,
      if theirs.None? && forwardedText.None? then None
      else Some((theirs, if forwardedText.Some? then forwardedText.value else "")))
  }

  lemma TrailingBound(text: string, tail: string)
    ensures var found := TrailingQuote(text, tail); found.Some? ==> found.value < |text|
  {
    hide Trim, QuoteLine, EndsWith;
    PiecesCut(text);
    NonEmptyPieces(text);
    BackBound(Pieces(text), false, tail);
  }

  /** How many carriage returns a text holds. */
  function Returns(text: string): nat {
    if text == "" then 0 else (if text[0] == '\r' then 1 else 0) + Returns(text[1..])
  }

  lemma {:induction false} ReturnsAppend(a: string, b: string)
    ensures Returns(a + b) == Returns(a) + Returns(b)
  {
    if a == "" {
      assert a + b == b;
    } else {
      assert (a + b)[1..] == a[1..] + b;
      ReturnsAppend(a[1..], b);
    }
  }

  /** Taking out carriage returns takes some out, or leaves the text as it is. */
  lemma {:induction false} LineFeedsExact(text: string)
    ensures Find(text, CRLF).None? ==> LineFeeds(text) == text
    ensures Find(text, CRLF).Some? ==> Returns(LineFeeds(text)) < Returns(text)
    ensures Returns(LineFeeds(text)) <= Returns(text)
  {
    if text != "" {
      if StartsWith(text, CRLF) {
        LineFeedsExact(text[2..]);
        assert text[0] == CRLF[0] && text[1] == CRLF[1];
        assert text[1..][1..] == text[2..];
        assert ("\n" + LineFeeds(text[2..]))[1..] == LineFeeds(text[2..]);
      } else {
        LineFeedsExact(text[1..]);
        assert text == [text[0]] + text[1..];
        assert ([text[0]] + LineFeeds(text[1..]))[1..] == LineFeeds(text[1..]);
      }
    }
  }

  /** A history with a quote under its attribution ends on visible text, one without does not. */
  lemma HistoryEnd(attribution: string, original: string)
    ensures TrimEnd(History(attribution, original)) == History(attribution, original) <==> !Blank(original)
  {
    hide Quote;
    var head := attribution + "\n";
    QuoteEnd(original);
    if Blank(original) {
      TrimEndIs(head);
      assert head + "" == head;
    } else {
      TrimEndUnique(head + Quote(original), head + Quote(original));
    }
  }

  lemma QuoteEnd(original: string)
    ensures Blank(original) ==> Quote(original) == ""
    ensures !Blank(original) ==> var q := Quote(original); q != "" && !White(q[|q| - 1])
  {
    var text := TrimEnd(original);
    NoLines(original);
    if !Blank(original) {
      TrimEndIs(original);
      assert original[0..] == original;
      var pieces := Pieces(text);
      PiecesCut(text);
      FlatEnd(pieces);
      QuotedEnd(pieces);
    }
  }

  lemma {:induction false} QuotedEnd(pieces: seq<string>)
    requires pieces != [] && pieces[|pieces| - 1] != ""
    requires var last := pieces[|pieces| - 1]; !White(last[|last| - 1])
    ensures var q := Join(QuotedAll(StripAll(pieces)), "\n"); q != "" && !White(q[|q| - 1])
  {
    if |pieces| > 1 {
      QuotedEnd(pieces[1..]);
      var all := QuotedAll(StripAll(pieces));
      assert all[1..] == QuotedAll(StripAll(pieces[1..]));
    } else {
      var last := pieces[0];
      assert StripLineEnd(last) == last;
    }
  }

  /** A draft of plain words saved with its quote folded. */
  function SavedText(typed: string, attribution: string, original: string): string {
    Unfolded(typed, History(attribution, original))
  }

  /** Whether the reopened draft holds the words without what trailed them, the quote as
      it was, and no forwarded message. */
  predicate ComesBack(draft: Reopened, typed: string, attribution: string, original: string) {
    && draft.markdown == TrimEnd(typed) && draft.quoted == Some(History(attribution, original))
    && draft.forwarded.None?
  }

  /** What a saved draft needs to come back: an original with visible text, a line over it
      that reads as an attribution, line feeds alone between its lines, and nowhere in it,
      not even inside a line, what opens a forwarded message. */
  predicate Keeps(typed: string, attribution: string, original: string, tail: string) {
    && !Blank(original) && IsAttribution(attribution, tail)
    && Find(SavedText(typed, attribution, original), CRLF).None?
    && Find(SavedText(typed, attribution, original), FORWARD_LINE).None?
  }

  lemma FoldMarked(words: string, history: string)
    ensures Find(words + QUOTE_MARK + history, QUOTE_MARK).Some?
  {
    var html := words + QUOTE_MARK + history;
    FindIs(html, QUOTE_MARK);
    assert html[|words|..|words| + |QUOTE_MARK|] == QUOTE_MARK;
    assert Occurs(html, QUOTE_MARK, |words|);
  }

  lemma VisibleText(typed: string, attribution: string, original: string)
    requires !Blank(original)
    ensures !Blank(SavedText(typed, attribution, original))
  {
    hide Quote, TrimEnd;
    var text := SavedText(typed, attribution, original);
    QuoteEnd(original);
    assert text[|text| - 1] == Quote(original)[|Quote(original)| - 1];
  }

  /** Cutting a text where the quote starts gives the words and the quote back only there. */
  lemma CutExact(typed: string, attribution: string, original: string, at: nat)
    requires !Blank(original) && at <= |SavedText(typed, attribution, original)|
    ensures var text := SavedText(typed, attribution, original);
            TrimLineFeeds(text[..at]) == TrimEnd(typed) && TrimEnd(text[at..]) == History(attribution, original)
            <==> at == |TrimEnd(typed)| + 2
  {
    hide TrimEnd, TrimLineFeeds, Quote;
    var words, history := TrimEnd(typed), History(attribution, original);
    var text := SavedText(typed, attribution, original);
    HistoryEnd(attribution, original);
    if at == |words| + 2 {
      assert text[..at] == words + "\n\n" && text[at..] == history;
      WordsEnd(typed);
      TrimLineFeedsAppend(words, "\n\n");
    }
    var above := words + "\n\n" + attribution + "\n";
    assert text == above + Quote(original) && text[|above|..] == Quote(original);
    SuffixKept(text, at, original);
  }

  /** No end of a saved text, but the empty one, is shortened by trimming. */
  lemma SuffixKept(text: string, at: nat, original: string)
    requires at <= |text| && !Blank(original) && EndsWith(text, Quote(original))
    ensures TrimEnd(text[at..]) == text[at..]
  {
    hide TrimEnd, Quote;
    QuoteEnd(original);
    TrimEndUnique(text[at..], text[at..]);
  }

  lemma WordsEnd(typed: string)
    ensures var words := TrimEnd(typed); words != "" ==> words[|words| - 1] != '\n'
  {
    TrimEndIs(typed);
  }

  /** What the text part gives a draft that reopens with its fold marked. */
  function Unsaved(text: string, tail: string): (string, Option<string>, Option<string>) {
    var (words, forwarded) := SplitForwardedText(text);
    TrailingBound(words, tail);
    var quote := TrailingQuote(words, tail);
    if quote.None? then (words, None, forwarded)
    else (TrimLineFeeds(words[..quote.value]), Some(TrimEnd(words[quote.value..])), forwarded)
  }

  lemma TakesUnsaved(text: string, html: string, tail: string, marked: string -> bool, htmlToText: string -> string)
    requires ForwardAt(html, marked).None? && Find(html, QUOTE_MARK).Some?
    ensures var draft := TakeBody(Some(text), Some(html), tail, marked, htmlToText);
            var (markdown, quoted, forwarded) := Unsaved(BodyText(Some(text), Some(html), htmlToText), tail);
            draft.markdown == markdown && draft.quoted == quoted && (draft.forwarded.None? <==> forwarded.None?)
  {
    hide Find, TrailingQuote, TrimEnd, TrimLineFeeds, BodyText, SplitForwardedText, Blank;
  }

  lemma TrimTwice(s: string)
    ensures TrimEnd(TrimEnd(s)) == TrimEnd(s)
  {
    TrimEndIs(s);
    TrimEndUnique(TrimEnd(s), TrimEnd(s));
  }

  /** What a quote and the words above it are cut from holds every carriage return of both. */
  lemma PartsReturns(words: string, at: nat)
    requires at <= |words|
    ensures Returns(TrimLineFeeds(words[..at])) + Returns(TrimEnd(words[at..])) <= Returns(words)
  {
    hide TrimEnd, TrimLineFeeds, Returns;
    var above, below := words[..at], words[at..];
    assert words == above + below;
    ReturnsAppend(above, below);
    TrimLineFeedsPrefix(above);
    TrimEndIs(below);
    PrefixReturns(TrimLineFeeds(above), above);
    PrefixReturns(TrimEnd(below), below);
  }

  lemma PrefixReturns(p: string, s: string)
    requires p <= s
    ensures Returns(p) <= Returns(s)
  {
    hide Returns;
    assert s == p + s[|p|..];
    ReturnsAppend(p, s[|p|..]);
  }

  lemma {:induction false} TrimLineFeedsPrefix(s: string)
    ensures TrimLineFeeds(s) <= s
  {
    if s != "" && s[|s| - 1] == '\n' {
      TrimLineFeedsPrefix(s[..|s| - 1]);
    }
  }

  lemma SavedReturns(typed: string, attribution: string, original: string)
    ensures Returns(SavedText(typed, attribution, original))
         == Returns(TrimEnd(typed)) + Returns(History(attribution, original))
  {
    hide TrimEnd, Quote, History;
    ReturnsAppend(TrimEnd(typed) + "\n\n", History(attribution, original));
    ReturnsAppend(TrimEnd(typed), "\n\n");
    assert Returns("\n\n") == Returns("\n") == 0 by {
      assert "\n\n"[1..] == "\n" && "\n"[1..] == "";
    }
  }

  /** The unsaved parts are the words and the quote exactly when the text keeps them. */
  lemma UnsavedExact(typed: string, attribution: string, original: string, tail: string)
    requires '\n' !in attribution && !Blank(original)
    ensures Unsaved(LineFeeds(SavedText(typed, attribution, original)), tail)
            == (TrimEnd(typed), Some(History(attribution, original)), None)
        <==> Keeps(typed, attribution, original, tail)
  {
    hide TrimEnd, TrimLineFeeds, Quote, History, LineFeeds, Find, TrailingQuote, IsAttribution, SavedText, Returns;
    var text := SavedText(typed, attribution, original);
    var fed := LineFeeds(text);
    LineFeedsExact(text);
    if Find(text, CRLF).Some? {
      SavedReturns(typed, attribution, original);
      TrailingBound(fed, tail);
      var quote := TrailingQuote(fed, tail);
      if Find(fed, FORWARD_LINE).None? && quote.Some? {
        PartsReturns(fed, quote.value);
      }
    } else if Find(text, FORWARD_LINE).None? {
      TrailingBound(text, tail);
      var quote := TrailingQuote(text, tail);
      TrailingSaved(typed, attribution, original, tail);
      if quote.Some? {
        CutExact(typed, attribution, original, quote.value);
      }
    }
  }

  lemma TrailingSaved(typed: string, attribution: string, original: string, tail: string)
    requires '\n' !in attribution
    ensures TrailingQuote(SavedText(typed, attribution, original), tail) == Some(|TrimEnd(typed)| + 2)
        <==> !Blank(original) && IsAttribution(attribution, tail)
  {
    TrailingQuoteExact(typed, attribution, original, tail);
  }

  /** A draft saved with its quote folded, and nothing forwarded, reopens with the same
      words and the same quote exactly when its text keeps them. */
  lemma DraftComesBack(typed: string, attribution: string, original: string, wordsHtml: string, historyHtml: string,
                       tail: string, marked: string -> bool, htmlToText: string -> string)
    requires '\n' !in attribution
    requires ForwardAt(wordsHtml + "<!-- mailrs-quoted -->" + historyHtml, marked).None?
    ensures ComesBack(TakeBody(Some(SavedText(typed, attribution, original)),
                               Some(wordsHtml + "<!-- mailrs-quoted -->" + historyHtml), tail, marked, htmlToText),
                      typed, attribution, original)
        <==> Keeps(typed, attribution, original, tail)
  {
    hide TrimEnd, Quote, History, LineFeeds, Find, TrailingQuote, IsAttribution, SavedText, TakeBody, TrimLineFeeds,
      SplitForwardedText;
    var text, html := SavedText(typed, attribution, original), wordsHtml + QUOTE_MARK + historyHtml;
    FoldMarked(wordsHtml, historyHtml);
    TakesUnsaved(text, html, tail, marked, htmlToText);
    if Blank(original) {
      HistoryEnd(attribution, original);
      UnsavedTrimmed(BodyText(Some(text), Some(html), htmlToText), tail);
    } else {
      VisibleText(typed, attribution, original);
      UnsavedExact(typed, attribution, original, tail);
    }
  }

  lemma UnsavedTrimmed(text: string, tail: string)
    ensures var quoted := Unsaved(text, tail).1; quoted.Some? ==> TrimEnd(quoted.value) == quoted.value
  {
    hide Find, TrailingQuote, TrimEnd;
    var (words, forwarded) := SplitForwardedText(text);
    TrailingBound(words, tail);
    var quote := TrailingQuote(words, tail);
    if quote.Some? {
      TrimTwice(words[quote.value..]);
    }
  }

  lemma ForwardLine()
    ensures var line := FORWARD_LINE;
            && line != "" && '\n' !in line && '\r' !in line
            && line[0] == line[|line| - 1] == '-' && !White('-')
  {
  }

  /** A text that holds what opens a forwarded message, anywhere in it, is cut there. */
  lemma ForwardSeen(text: string, k: nat, html: Option<string>, tail: string, marked: string -> bool,
                    htmlToText: string -> string)
    requires Occurs(text, FORWARD_LINE, k) && '\r' !in text && !Blank(text)
    ensures TakeBody(Some(text), html, tail, marked, htmlToText).forwarded.Some?
  {
    hide LineFeeds, TrailingQuote, TrimEnd, TrimLineFeeds, Blank, SplitForwarded;
    LineFeedsExact(text);
    NoReturns(text);
    FindIs(text, FORWARD_LINE);
  }

  lemma NoReturns(text: string)
    requires '\r' !in text
    ensures Find(text, CRLF).None?
  {
    hide Find;
    FindIs(text, CRLF);
    var found := Find(text, CRLF);
    if found.Some? {
      ReturnIn(text, found.value);
    }
  }

  lemma ReturnIn(text: string, k: nat)
    requires Occurs(text, CRLF, k)
    ensures '\r' in text
  {
    assert text[k..k + 2][0] == text[k];
  }

  lemma SavedLine(typed: string, attribution: string, line: string)
    requires line != "" && '\n' !in line && !White(line[|line| - 1])
    ensures SavedText(typed, attribution, line) == TrimEnd(typed) + "\n\n" + (attribution + "\n> ") + line
    ensures !Blank(SavedText(typed, attribution, line))
  {
    hide TrimEnd, White;
    TrimEndUnique(line, line);
    LineEndUnique(line, |line|);
    assert Pieces(line) == [line];
    assert StripAll([line]) == [line] && QuotedAll([line]) == ["> " + line];
    var text := SavedText(typed, attribution, line);
    assert text == TrimEnd(typed) + "\n\n" + (attribution + "\n> ") + line;
    assert text[|text| - 1] == line[|line| - 1];
  }

  /** A draft whose original quotes the line of a forwarded message loses its quote to it. */
  lemma QuotedForwardLost(html: Option<string>, tail: string, marked: string -> bool, htmlToText: string -> string)
    ensures var text := SavedText("Hi", "Ann wrote:", FORWARD_LINE);
            && text == "Hi" + "\n\n" + "Ann wrote:\n> " + "---------- Forwarded message ----------"
            && TakeBody(Some(text), html, tail, marked, htmlToText).forwarded.Some?
  {
    hide TakeBody, SavedText, TrimEnd, Blank;
    var above := "Hi" + "\n\n" + "Ann wrote:\n> ";
    assert '\r' !in above;
    ForwardLine();
    assert TrimEnd("Hi") == "Hi" by {
      TrimEndUnique("Hi", "Hi");
    }
    SavedLine("Hi", "Ann wrote:", FORWARD_LINE);
    var text := above + FORWARD_LINE;
    assert "Ann wrote:" + "\n> " == "Ann wrote:\n> ";
    assert Occurs(text, FORWARD_LINE, |above|);
    ForwardSeen(text, |above|, html, tail, marked, htmlToText);
  }

  // ---- A draft that forwards a message

  lemma PairOpens(text: string)
    requires StartsWith(text, CRLF)
    ensures |text| >= 2 && text[0] == '\r' && text[1] == '\n'
  {
    assert text[..2] == CRLF;
  }

  lemma LineFeedsPair(rest: string)
    ensures LineFeeds(CRLF + rest) == "\n" + LineFeeds(rest)
  {
    assert (CRLF + rest)[2..] == rest;
  }

  lemma LineFeedsOne(c: char, rest: string)
    requires c != '\r' || rest == "" || rest[0] != '\n'
    ensures LineFeeds([c] + rest) == [c] + LineFeeds(rest)
  {
    var text := [c] + rest;
    assert text[1..] == rest;
    if StartsWith(text, CRLF) {
      PairOpens(text);
    }
  }

  lemma {:induction false} LineFeedsAppend(a: string, b: string)
    requires a == "" || b == "" || a[|a| - 1] != '\r' || b[0] != '\n'
    ensures LineFeeds(a + b) == LineFeeds(a) + LineFeeds(b)
    decreases |a|
  {
    assert LineFeeds("") == "";
    hide LineFeeds;
    if a == "" {
      assert a + b == b && LineFeeds("") + LineFeeds(b) == LineFeeds(b);
    } else if StartsWith(a, CRLF) {
      var rest := a[2..];
      assert a == CRLF + rest && a + b == CRLF + (rest + b);
      LineFeedsPair(rest);
      LineFeedsPair(rest + b);
      LineFeedsAppend(rest, b);
      assert "\n" + (LineFeeds(rest) + LineFeeds(b)) == ("\n" + LineFeeds(rest)) + LineFeeds(b);
    } else {
      var first, rest := a[0], a[1..];
      assert a == [first] + rest && a + b == [first] + (rest + b);
      assert first == '\r' && rest != "" && rest[0] == '\n' ==> CRLF <= a;
      LineFeedsOne(first, rest);
      LineFeedsOne(first, rest + b);
      LineFeedsAppend(rest, b);
      assert [first] + (LineFeeds(rest) + LineFeeds(b)) == ([first] + LineFeeds(rest)) + LineFeeds(b);
    }
  }

  /** Taking out carriage returns keeps blank text blank, and the line feed that ends it. */
  lemma {:induction false} LineFeedsBlank(w: string)
    requires Blank(w)
    ensures var fed := LineFeeds(w);
            Blank(fed) && (w != "" && w[|w| - 1] == '\n' ==> fed != "" && fed[|fed| - 1] == '\n')
    decreases |w|
  {
    assert White('\n');
    hide White;
    if StartsWith(w, CRLF) {
      assert forall i :: 0 <= i < |w[2..]| ==> w[2..][i] == w[i + 2];
      LineFeedsBlank(w[2..]);
    } else if w != "" {
      assert forall i :: 0 <= i < |w[1..]| ==> w[1..][i] == w[i + 1];
      LineFeedsBlank(w[1..]);
    }
  }

  /** It keeps the visible end of a text, and makes nothing longer. */
  lemma {:induction false} LineFeedsVisible(t: string)
    requires t != "" ==> !White(t[|t| - 1])
    ensures var fed := LineFeeds(t); |fed| <= |t| && (fed != "" ==> !White(fed[|fed| - 1]))
    decreases |t|
  {
    assert White('\n');
    hide White;
    if StartsWith(t, CRLF) {
      PairOpens(t);
      LineFeedsVisible(t[2..]);
      LineFeedsSome(t[2..]);
    } else if t != "" {
      LineFeedsVisible(t[1..]);
      LineFeedsSome(t[1..]);
    }
  }

  lemma LineFeedsSome(t: string)
    ensures t != "" ==> LineFeeds(t) != ""
  {
  }

  /** Where the line of a forwarded message is found: in the words, or where it was put. */
  lemma ForwardPlace(words: string, gap: string, plain: string)
    requires Blank(gap) && gap != "" && gap[|gap| - 1] == '\n' && StartsWith(plain, FORWARD_LINE)
    ensures var found := Find(words + gap + plain, FORWARD_LINE);
            && found.Some? && (found.value < |words| || found.value == |words + gap|)
            && (found.value < |words| <==> Find(words, FORWARD_LINE).Some?)
  {
    ForwardLine();
    hide Find, White;
    var text, line := words + gap + plain, FORWARD_LINE;
    FindIs(text, line);
    FindIs(words, line);
    assert text[|words + gap|..|words + gap| + |line|] == plain[..|line|];
    assert Occurs(text, line, |words + gap|);
    var at := Find(text, line).value;
    if at < |words + gap| {
      WithinWords(words, gap, plain, line, at);
    }
    if Find(words, line).Some? {
      var k := Find(words, line).value;
      assert text[k..k + |line|] == words[k..k + |line|];
      assert Occurs(text, line, k);
    }
  }

  lemma WithinWords(words: string, gap: string, plain: string, line: string, at: nat)
    requires Blank(gap) && gap != "" && gap[|gap| - 1] == '\n'
    requires line != "" && !White(line[0]) && !White(line[|line| - 1]) && '\n' !in line
    requires at < |words + gap| && Occurs(words + gap + plain, line, at)
    ensures at < |words| && Occurs(words, line, at)
  {
    hide White;
    var text, past := words + gap + plain, |words + gap| - 1;
    assert text[past] == '\n' && forall i :: |words| <= i <= past ==> text[i] == gap[i - |words|];
    assert text[at] == line[0];
    assert forall i :: at <= i < at + |line| ==> text[i] == line[i - at];
    assert text[at + |line| - 1] == line[|line| - 1];
    assert at + |line| <= |words|;
    assert words[at..at + |line|] == text[at..at + |line|];
  }

  /** What comes back of a draft of plain words that forwards a message: its words, without what
      trailed them, and the message, byte for byte. */
  predicate ForwardsBack(draft: Reopened, typed: string, block: string, plain: string) {
    draft.markdown == TrimEnd(typed) && draft.quoted.None? && draft.forwarded == Some((Some(block), plain))
  }

  lemma ForwardCut(words: string, gap: string, plain: string)
    requires Blank(gap) && gap != "" && gap[|gap| - 1] == '\n' && StartsWith(plain, FORWARD_LINE)
    requires words != "" ==> !White(words[|words| - 1])
    ensures SplitForwardedText(words + gap + plain) == (words, Some(plain)) <==> Find(words, FORWARD_LINE).None?
    ensures var (mine, theirs) := SplitForwardedText(words + gap + plain);
            theirs.Some? && ((mine, theirs) == (words, Some(plain)) || |mine| < |words|)
  {
    hide Find, TrimEnd, White;
    var text := words + gap + plain;
    ForwardPlace(words, gap, plain);
    FindIs(text, FORWARD_LINE);
    var at := Find(text, FORWARD_LINE).value;
    TrimEndIs(text[..at]);
    if at == |words + gap| {
      assert text[..at] == words + gap && text[at..] == plain;
      assert (words + gap)[|words|..] == gap;
      TrimEndUnique(words + gap, words);
    }
  }

  /** A draft of plain words saved with a message it forwards reopens with the same words and the
      same message exactly when neither holds a carriage return before a line feed and the words
      do not hold what opens a forwarded message. */
  lemma ForwardComesBack(typed: string, plain: string, wordsHtml: string, block: string, tail: string,
                         marked: string -> bool, htmlToText: string -> string)
    requires StartsWith(plain, FORWARD_LINE)
    requires Complete(wordsHtml) && ForwardAt(wordsHtml, marked).None? && MarkedTag(block, marked)
    requires Find(wordsHtml, QUOTE_MARK).None?
    ensures ForwardsBack(TakeBody(Some(typed + "\n\n" + plain), Some(wordsHtml + block), tail, marked, htmlToText),
                         typed, block, plain)
            <==> && Find(TrimEnd(typed), CRLF).None? && Find(plain, CRLF).None?
                 && Find(TrimEnd(typed), FORWARD_LINE).None?
  {
    hide Find, TrimEnd, White, Complete, MarkedTag, LineFeeds, SplitForwardedText, TrailingQuote, SplitForwarded, Blank;
    var text := typed + "\n\n" + plain;
    var words := TrimEnd(typed);
    ForwardFirst(plain);
    var gap := FedText(typed, plain);
    VisibleUnder(typed + "\n\n", plain);
    FedForward(plain);
    SplitExact(wordsHtml, block, marked);
    LineFeedsExact(words);
    LineFeedsExact(plain);
    ForwardCut(LineFeeds(words), gap, LineFeeds(plain));
  }

  /** What such a text is without its carriage returns. */
  lemma FedText(typed: string, plain: string) returns (gap: string)
    requires plain != "" && plain[0] != '\n'
    ensures LineFeeds(typed + "\n\n" + plain) == LineFeeds(TrimEnd(typed)) + gap + LineFeeds(plain)
    ensures Blank(gap) && gap != "" && gap[|gap| - 1] == '\n'
    ensures var fed := LineFeeds(TrimEnd(typed));
            |fed| <= |TrimEnd(typed)| && (fed != "" ==> !White(fed[|fed| - 1]))
  {
    var words := TrimEnd(typed);
    hide LineFeeds, TrimEnd, White;
    TrimEndIs(typed);
    var trail := typed[|words|..];
    assert typed == words + trail;
    gap := FedParts(words, trail, plain);
    assert typed + "\n\n" + plain == words + (trail + "\n\n") + plain;
  }

  lemma FedParts(words: string, trail: string, plain: string) returns (gap: string)
    requires plain != "" && plain[0] != '\n' && Blank(trail)
    requires words != "" ==> !White(words[|words| - 1])
    ensures LineFeeds(words + (trail + "\n\n") + plain) == LineFeeds(words) + gap + LineFeeds(plain)
    ensures Blank(gap) && gap != "" && gap[|gap| - 1] == '\n'
    ensures var fed := LineFeeds(words); |fed| <= |words| && (fed != "" ==> !White(fed[|fed| - 1]))
  {
    assert White('\n') && White('\r');
    hide LineFeeds, White;
    var low := trail + "\n\n";
    gap := LineFeeds(low);
    LineFeedsBlank(low);
    LineFeedsVisible(words);
    LineFeedsAppend(words, low);
    LineFeedsAppend(words + low, plain);
  }

  lemma VisibleUnder(above: string, plain: string)
    requires plain != "" && !White(plain[0])
    ensures !Blank(above + plain)
  {
    hide White;
    assert (above + plain)[|above|] == plain[0];
  }

  lemma ForwardFirst(plain: string)
    requires StartsWith(plain, FORWARD_LINE)
    ensures plain != "" && plain[0] == '-' && !White('-')
  {
    ForwardLine();
    assert plain[0] == FORWARD_LINE[0];
  }

  lemma FedForward(plain: string)
    requires StartsWith(plain, FORWARD_LINE)
    ensures StartsWith(LineFeeds(plain), FORWARD_LINE)
  {
    ForwardLine();
    hide LineFeeds, Find;
    var more := plain[|FORWARD_LINE|..];
    assert plain == FORWARD_LINE + more;
    NoReturns(FORWARD_LINE);
    LineFeedsExact(FORWARD_LINE);
    LineFeedsAppend(FORWARD_LINE, more);
  }
}
