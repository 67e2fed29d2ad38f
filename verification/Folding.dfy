/** A reply's quote put under the writer's words and found again (app/src/compose.rs).
    `tail` is the end of the attribution line in the writer's language. */
module Folding {
  import opened Text

  function QuotedAll(lines: seq<string>): (quoted: seq<string>)
    ensures |quoted| == |lines|
  {
    if lines == [] then []
    else [if lines[0] == "" then ">" else "> " + lines[0]] + QuotedAll(lines[1..])
  }

  /** A text as a reply quotes it. */
  function Quote(text: string): string {
    Join(QuotedAll(Lines(TrimEnd(text))), "\n")
  }

  /** The writer's words with the history under them after a blank line. */
  function Unfolded(typed: string, history: string): string {
    TrimEnd(typed) + "\n\n" + history
  }

  predicate QuoteLine(line: string) {
    OpensQuote(Trim(line))
  }

  predicate IsAttribution(line: string, tail: string) {
    var text := Trim(line);
    text != "" && text[0] != '>' && EndsWith(text, tail)
  }

  /** Reading `lines` from the last one back: where the attribution line over the quote
      that ends them starts. */
  function Back(lines: seq<string>, quoted: bool, tail: string): Option<nat>
    decreases |lines|
  {
    if lines == [] then None
    else
      var line, above := lines[|lines| - 1], lines[..|lines| - 1];
      if Trim(line) == "" then Back(above, quoted, tail)
      else if QuoteLine(line) then Back(above, true, tail)
      else if quoted && EndsWith(Trim(line), tail) then Some(|Flat(above)|)
      else None
  }

  /** Where the quote that ends `text` starts, its attribution line counted. */
  function TrailingQuote(text: string, tail: string): Option<nat> {
    Back(Pieces(text), false, tail)
  }

  method TrailingQuoteAt(text: string, tail: string) returns (found: Option<nat>)
    ensures found == TrailingQuote(text, tail)
  {
    found := ScanBack(Pieces(text), tail);
  }

  method ScanBack(pieces: seq<string>, tail: string) returns (found: Option<nat>)
    ensures found == Back(pieces, false, tail)
  {
    hide Trim, EndsWith;
    var starts: seq<nat> := [];
    var at: nat := 0;
    assert pieces[..0] == [];
    for i := 0 to |pieces|
      invariant |starts| == i && at == |Flat(pieces[..i])|
      invariant forall k :: 0 <= k < i ==> starts[k] == |Flat(pieces[..k])|
    {
      assert pieces[..i + 1] == pieces[..i] + [pieces[i]];
      FlatLast(pieces[..i], pieces[i]);
      starts := starts + [at];
      at := at + |pieces[i]|;
    }
    var quoted := false;
    assert pieces[..|pieces|] == pieces;
    for i := |pieces| downto 0
      invariant Back(pieces, false, tail) == Back(pieces[..i], quoted, tail)
    {
      var line := Trim(pieces[i]);
      assert pieces[..i + 1][..i] == pieces[..i];
      if line == "" {
        continue;
      }
      if line[0] == '>' {
        quoted := true;
        continue;
      }
      return if quoted && EndsWith(line, tail) then Some(starts[i]) else None;
    }
    return None;
  }

  // ---- The lines of an unfolded draft

  lemma QuotedLine(line: string)
    requires line != "" && line[0] == '>'
    ensures QuoteLine(line)
  {
    var text := TrimEnd(line);
    TrimEndIs(line);
    assert line[0..] == line;
  }

  lemma {:induction false} BackQuotes(above: seq<string>, quotes: seq<string>, quoted: bool, tail: string)
    requires forall i :: 0 <= i < |quotes| ==> QuoteLine(quotes[i])
    ensures Back(above + quotes, quoted, tail) == Back(above, quoted || quotes != [], tail)
    decreases |quotes|
  {
    hide QuoteLine, EndsWith;
    if quotes == [] {
      assert above + quotes == above;
    } else {
      var last, rest := quotes[|quotes| - 1], quotes[..|quotes| - 1];
      assert (above + quotes)[..|above + quotes| - 1] == above + rest;
      assert Trim(last) != "" by { QuoteSeen(last); }
      BackQuotes(above, rest, true, tail);
    }
  }

  lemma QuoteSeen(line: string)
    requires QuoteLine(line)
    ensures Trim(line) != ""
  {
  }

  /** What is found starts a line above the end. */
  lemma {:induction false} BackBound(lines: seq<string>, quoted: bool, tail: string)
    requires forall i :: 0 <= i < |lines| ==> lines[i] != ""
    ensures var found := Back(lines, quoted, tail); found.Some? ==> found.value < |Flat(lines)|
    decreases |lines|
  {
    hide Trim, QuoteLine, EndsWith;
    if lines != [] {
      var line, above := lines[|lines| - 1], lines[..|lines| - 1];
      assert lines == above + [line];
      FlatLast(above, line);
      BackBound(above, true, tail);
      BackBound(above, quoted, tail);
    }
  }

  /** The lines of lines put together. */
  lemma {:induction false} PiecesJoined(lines: seq<string>)
    requires forall i :: 0 <= i < |lines| ==> lines[i] != "" && '\n' !in lines[i] && lines[i][0] == '>'
    ensures var pieces := Pieces(Join(lines, "\n"));
            |pieces| == |lines| && forall i :: 0 <= i < |lines| ==> pieces[i] != "" && pieces[i][0] == '>'
  {
    if |lines| == 1 {
      LineEndUnique(lines[0], |lines[0]|);
    } else if lines != [] {
      var first, rest := lines[0], lines[1..];
      PiecesJoined(rest);
      assert Join(lines, "\n") == (first + "\n") + Join(rest, "\n");
      assert (first + "\n")[..|first|] == first;
      FirstPiece(first + "\n", Join(rest, "\n"), |first|);
    }
  }

  lemma {:induction false} StrippedFeedless(pieces: seq<string>)
    requires forall i :: 0 <= i < |pieces| ==> OneLine(pieces[i])
    ensures forall i :: 0 <= i < |pieces| ==> '\n' !in StripAll(pieces)[i]
  {
    if pieces != [] {
      StrippedFeedless(pieces[1..]);
      var piece, line := pieces[0], StripLineEnd(pieces[0]);
      assert forall i :: 0 <= i < |line| ==> line[i] == piece[i];
      assert forall i :: 0 <= i < |piece| - 1 ==> piece[i] in piece[..|piece| - 1];
    }
  }

  lemma {:induction false} QuotedAllStart(lines: seq<string>)
    requires forall i :: 0 <= i < |lines| ==> '\n' !in lines[i]
    ensures forall i :: 0 <= i < |lines| ==>
              var q := QuotedAll(lines)[i]; q != "" && '\n' !in q && q[0] == '>'
  {
    if lines != [] {
      QuotedAllStart(lines[1..]);
    }
  }

  /** Every line of a quoted text is a quote line, and there is one unless it is blank. */
  lemma QuoteLines(text: string)
    ensures var pieces := Pieces(Quote(text));
            && (forall i :: 0 <= i < |pieces| ==> QuoteLine(pieces[i]))
            && (pieces == [] <==> Blank(text))
  {
    hide QuoteLine, Pieces;
    var lines := Lines(TrimEnd(text));
    PiecesCut(TrimEnd(text));
    StrippedFeedless(Pieces(TrimEnd(text)));
    QuotedAllStart(lines);
    PiecesJoined(QuotedAll(lines));
    var pieces := Pieces(Quote(text));
    forall i | 0 <= i < |pieces|
      ensures QuoteLine(pieces[i])
    {
      QuotedLine(pieces[i]);
    }
    NoLines(text);
  }

  lemma NoLines(text: string)
    ensures Lines(TrimEnd(text)) == [] <==> Blank(text)
  {
    TrimEndIs(text);
    assert text[0..] == text;
    if Blank(text) {
      TrimEndUnique(text, "");
    }
  }

  /** The history a reply folds: its attribution line and the quoted original. */
  function History(attribution: string, original: string): string {
    attribution + "\n" + Quote(original)
  }

  lemma UnfoldedPieces(typed: string, attribution: string, original: string)
    requires '\n' !in attribution
    ensures Pieces(Unfolded(typed, History(attribution, original)))
         == Pieces(TrimEnd(typed) + "\n\n") + [attribution + "\n"] + Pieces(Quote(original))
  {
    hide TrimEnd, Pieces, Quote;
    var top, line, quote := TrimEnd(typed) + "\n\n", attribution + "\n", Quote(original);
    assert Unfolded(typed, History(attribution, original)) == top + (line + quote);
    PiecesAppend(top, line + quote);
    assert line[..|attribution|] == attribution;
    FirstPiece(line, quote, |attribution|);
  }

  /** The quote of an unfolded draft is found where its attribution starts, whatever the
      writer's words hold, exactly when the original has visible text and the line over
      it reads as an attribution. */
  lemma TrailingQuoteExact(typed: string, attribution: string, original: string, tail: string)
    requires '\n' !in attribution
    ensures TrailingQuote(Unfolded(typed, History(attribution, original)), tail) == Some(|TrimEnd(typed)| + 2)
        <==> !Blank(original) && IsAttribution(attribution, tail)
  {
    hide TrimEnd, Pieces, Quote, QuoteLine, Flat, IsCut;
    var top, line := TrimEnd(typed) + "\n\n", attribution + "\n";
    var above, quotes := Pieces(top), Pieces(Quote(original));
    UnfoldedPieces(typed, attribution, original);
    QuoteLines(original);
    BackQuotes(above + [line], quotes, false, tail);
    assert (above + [line])[..|above|] == above;
    PiecesCut(top);
    TrimFeed(attribution);
    NonEmptyPieces(top);
    BackBound(above, true, tail);
    BackBound(above, quotes != [], tail);
    QuoteSeenExact(line);
  }

  lemma QuoteSeenExact(line: string)
    ensures QuoteLine(line) <==> Trim(line) != "" && Trim(line)[0] == '>'
  {
  }

  lemma NonEmptyPieces(text: string)
    ensures forall i :: 0 <= i < |Pieces(text)| ==> Pieces(text)[i] != ""
  {
    PiecesCut(text);
    assert forall i :: 0 <= i < |Pieces(text)| ==> OneLine(Pieces(text)[i]);
  }

  lemma TrimFeed(line: string)
    ensures Trim(line + "\n") == Trim(line)
  {
    TrimEndAppend(line, "\n");
  }
}
