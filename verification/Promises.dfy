/** Whether a message promises a file: what the writer typed, its sentences, and phrases
    matched word by word with articles let in between. */
module Promises {
  import opened Text

  const PROMISES: seq<seq<string>> := [
    ["see", "attached"], ["find", "attached"], ["attached", "is"], ["attached", "are"], ["attached", "you"],
    ["attached", "please"], ["attached", "to", "this"], ["have", "attached"], ["ve", "attached"], ["i", "attach"],
    ["attaching"], ["enclosed"], ["anexo"], ["anexos"], ["anexei"], ["anexado"], ["anexada"], ["anexados"],
    ["anexadas"], ["anexando"]]

  const ARTICLES: seq<string> := ["a", "an", "the", "o", "os", "as", "um", "uma", "este", "esta"]

  predicate Article(word: string) {
    word in ARTICLES
  }

  // Matching a phrase.

  /** The first place from `at` that holds no article. */
  function PastArticles(words: seq<string>, at: nat): (next: nat)
    requires at <= |words|
    ensures at <= next <= |words|
    ensures forall k :: at <= k < next ==> Article(words[k])
    ensures next < |words| ==> !Article(words[next])
    decreases |words| - at
  {
    if at < |words| && Article(words[at]) then PastArticles(words, at + 1) else at
  }

  /** Matching from word `at` on, with `index` words of the phrase found. */
  predicate Matches(words: seq<string>, at: nat, phrase: seq<string>, index: nat)
    requires at <= |words| && index <= |phrase|
    decreases |phrase| - index
  {
    if index == |phrase| then true
    else
      var next := if index > 0 then PastArticles(words, at) else at;
      next < |words| && words[next] == phrase[index] && Matches(words, next + 1, phrase, index + 1)
  }

  predicate OpensWith(words: seq<string>, start: nat, phrase: seq<string>)
    requires start <= |words|
  {
    Matches(words, start, phrase, 0)
  }

  predicate Says(words: seq<string>, phrase: seq<string>) {
    exists start :: 0 <= start < |words| && OpensWith(words, start, phrase)
  }

  /** The greedy loop. */
  method OpensWithLoop(words: seq<string>, start: nat, phrase: seq<string>) returns (opens: bool)
    requires start <= |words|
    ensures opens == OpensWith(words, start, phrase)
  {
    var at, index := start, 0;
    while index < |phrase|
      invariant start <= at <= |words| && 0 <= index <= |phrase|
      invariant Matches(words, at, phrase, index) == OpensWith(words, start, phrase)
    {
      if index > 0 {
        var first := at;
        while at < |words| && Article(words[at])
          invariant first <= at <= |words|
          invariant PastArticles(words, first) == PastArticles(words, at)
        {
          at := at + 1;
        }
      }
      if at == |words| || words[at] != phrase[index] {
        return false;
      }
      at := at + 1;
      index := index + 1;
    }
    opens := true;
  }

  // What saying a phrase means.

  /** The words from `at` up to `end` become the phrase from `index` on by deleting
      articles strictly between its words. */
  ghost predicate Becomes(words: seq<string>, at: nat, end: nat, phrase: seq<string>, index: nat)
    requires end <= |words| && index < |phrase|
    decreases |phrase| - index, 1
  {
    && at < end && words[at] == phrase[index]
    && if index + 1 == |phrase| then end == at + 1
       else exists next: nat :: Continues(words, at, next, end, phrase, index)
  }

  /** The phrase's next word is at `next`, past articles. */
  ghost predicate Continues(words: seq<string>, at: nat, next: nat, end: nat, phrase: seq<string>, index: nat)
    requires end <= |words| && index + 1 < |phrase|
    decreases |phrase| - index, 0
  {
    at < next <= end && AllArticles(words, at + 1, next) && Becomes(words, next, end, phrase, index + 1)
  }

  predicate AllArticles(words: seq<string>, from: nat, to: nat)
    requires from <= to <= |words|
  {
    forall k :: from <= k < to ==> Article(words[k])
  }

  ghost predicate HasWindow(words: seq<string>, phrase: seq<string>)
    requires phrase != []
  {
    exists start: nat, end: nat :: end <= |words| && Becomes(words, start, end, phrase, 0)
  }

  /** A phrase with no article after its first word. */
  predicate Plain(phrase: seq<string>) {
    forall k :: 1 <= k < |phrase| ==> !Article(phrase[k])
  }

  /** What the greedy loop matches is a window of the phrase. */
  lemma {:induction false} MatchesSound(words: seq<string>, at: nat, phrase: seq<string>, index: nat) returns (end: nat)
    requires at < |words| && index < |phrase| && words[at] == phrase[index]
    requires Matches(words, at + 1, phrase, index + 1)
    ensures end <= |words| && Becomes(words, at, end, phrase, index)
    decreases |phrase| - index
  {
    hide Article, PastArticles;
    if index + 1 == |phrase| {
      end := at + 1;
    } else {
      var next := PastArticles(words, at + 1);
      end := MatchesSound(words, next, phrase, index + 1);
      assert Continues(words, at, next, end, phrase, index);
    }
  }

  /** Every window of a plain phrase is matched from its start. */
  lemma {:induction false} MatchesComplete(words: seq<string>, at: nat, end: nat, phrase: seq<string>, index: nat)
    requires end <= |words| && index < |phrase| && Plain(phrase)
    requires Becomes(words, at, end, phrase, index)
    ensures at < |words| && words[at] == phrase[index] && Matches(words, at + 1, phrase, index + 1)
    decreases |phrase| - index
  {
    hide Article, PastArticles;
    if index + 1 < |phrase| {
      var next: nat :| Continues(words, at, next, end, phrase, index);
      MatchesComplete(words, next, end, phrase, index + 1);
      PastArticlesUnique(words, at + 1, next);
    }
  }

  lemma {:induction false} PastArticlesUnique(words: seq<string>, at: nat, next: nat)
    requires at <= next <= |words| && (forall k :: at <= k < next ==> Article(words[k]))
    requires next < |words| ==> !Article(words[next])
    ensures PastArticles(words, at) == next
    decreases next - at
  {
    if at < next {
      PastArticlesUnique(words, at + 1, next);
    }
  }

  /** A plain phrase is said exactly when some window of the words becomes it. */
  lemma SaysExact(words: seq<string>, phrase: seq<string>)
    requires phrase != [] && Plain(phrase)
    ensures Says(words, phrase) <==> HasWindow(words, phrase)
  {
    if Says(words, phrase) {
      SaysSound(words, phrase);
    }
    if HasWindow(words, phrase) {
      var start: nat, end: nat :| end <= |words| && Becomes(words, start, end, phrase, 0);
      MatchesComplete(words, start, end, phrase, 0);
      assert OpensWith(words, start, phrase);
    }
  }

  /** What is said is always there, whatever the phrase. */
  lemma SaysSound(words: seq<string>, phrase: seq<string>)
    requires phrase != [] && Says(words, phrase)
    ensures HasWindow(words, phrase)
  {
    var start :| 0 <= start < |words| && OpensWith(words, start, phrase);
    var end := MatchesSound(words, start, phrase, 0);
  }

  /** A match takes a word for each word of the phrase. */
  lemma {:induction false} MatchesLong(words: seq<string>, at: nat, phrase: seq<string>, index: nat)
    requires at <= |words| && index <= |phrase| && Matches(words, at, phrase, index)
    ensures |words| - at >= |phrase| - index
    decreases |phrase| - index
  {
    if index < |phrase| {
      var next := if index > 0 then PastArticles(words, at) else at;
      MatchesLong(words, next + 1, phrase, index + 1);
    }
  }

  lemma {:induction false} BecomesItself(phrase: seq<string>, index: nat)
    requires index < |phrase|
    ensures Becomes(phrase, index, |phrase|, phrase, index)
    decreases |phrase| - index
  {
    if index + 1 < |phrase| {
      BecomesItself(phrase, index + 1);
      assert Continues(phrase, index, index + 1, |phrase|, phrase, index);
    }
  }

  /** The loop skips an article of the phrase itself. */
  lemma {:induction false} ArticleSkipped(phrase: seq<string>, index: nat, article: nat)
    requires 0 < index <= article < |phrase| && Article(phrase[article])
    ensures !Matches(phrase, index, phrase, index)
    decreases |phrase| - index
  {
    if !Article(phrase[index]) {
      PastArticlesUnique(phrase, index, index);
      ArticleSkipped(phrase, index + 1, article);
    }
  }

  /** The greedy loop finds every window of a phrase exactly when the phrase is plain: one
      with an article after its first word is not even found in its own words. */
  lemma GreedyExact(phrase: seq<string>)
    requires phrase != []
    ensures Plain(phrase) <==> forall words :: HasWindow(words, phrase) ==> Says(words, phrase)
  {
    if Plain(phrase) {
      forall words | HasWindow(words, phrase) ensures Says(words, phrase) {
        SaysExact(words, phrase);
      }
    } else {
      var article :| 1 <= article < |phrase| && Article(phrase[article]);
      BecomesItself(phrase, 0);
      assert HasWindow(phrase, phrase);
      forall start | 0 <= start < |phrase| ensures !OpensWith(phrase, start, phrase) {
        if start == 0 {
          ArticleSkipped(phrase, 1, article);
        } else if OpensWith(phrase, start, phrase) {
          MatchesLong(phrase, start, phrase, 0);
        }
      }
      assert !Says(phrase, phrase);
    }
  }

  lemma LaterWords()
    ensures !Article("attached") && !Article("is") && !Article("are") && !Article("you") && !Article("please")
    ensures !Article("to") && !Article("this") && !Article("attach")
  {
  }

  /** Every phrase that promises a file is plain, so each is found wherever it is said. */
  lemma PromisesFound(words: seq<string>, phrase: seq<string>)
    requires phrase in PROMISES
    ensures phrase != []
    ensures Says(words, phrase) <==> HasWindow(words, phrase)
  {
    hide Article, Says, HasWindow;
    LaterWords();
    SaysExact(words, phrase);
  }

  /** Between the words of a phrase one more word may stand exactly when it is one of the ten
      articles, or the phrase's own next word over again. */
  lemma ArticlesSkipped(word: string)
    requires word != "find"
    ensures Says(["find", word, "attached"], ["find", "attached"])
            <==> word in {"a", "an", "the", "o", "os", "as", "um", "uma", "este", "esta"} || word == "attached"
  {
    var words, phrase := ["find", word, "attached"], ["find", "attached"];
    ArticleExact(word);
    ArticleExact("attached");
    hide Article;
    assert PastArticles(words, 2) == 2;
    assert PastArticles(words, 1) == if Article(word) then 2 else 1;
    assert "attached" != "find";
    assert Matches(words, 1, phrase, 1) <==> Article(word) || word == "attached";
    assert OpensWith(words, 0, phrase) <==> Matches(words, 1, phrase, 1);
  }

  lemma ArticleExact(word: string)
    ensures Article(word) <==> word in {"a", "an", "the", "o", "os", "as", "um", "uma", "este", "esta"}
  {
    var all := ARTICLES;
    assert all[0] == "a" && all[1] == "an" && all[2] == "the" && all[3] == "o" && all[4] == "os";
    assert all[5] == "as" && all[6] == "um" && all[7] == "uma" && all[8] == "este" && all[9] == "esta";
  }

  // The sentences of a text.

  /** Whether the character at `at` ends a sentence. */
  predicate Ends(text: string, at: nat)
    requires at < |text|
  {
    || text[at] == '\n'
    || (text[at] in ".!?" && (at + 1 == |text| || White(text[at + 1])))
  }

  function Sentence(piece: string): seq<string> {
    var sentence := Trim(piece);
    if sentence == "" then [] else [sentence]
  }

  /** The sentences of the text from `start` on, its characters up to `at` looked at. */
  function SentencesFrom(text: string, start: nat, at: nat): seq<string>
    requires start <= at <= |text|
    decreases |text| - at
  {
    if at == |text| then Sentence(text[start..])
    else if Ends(text, at) then Sentence(text[start..at + 1]) + SentencesFrom(text, at + 1, at + 1)
    else SentencesFrom(text, start, at + 1)
  }

  function Sentences(text: string): seq<string> {
    SentencesFrom(text, 0, 0)
  }

  method SentencesLoop(text: string) returns (out: seq<string>)
    ensures out == Sentences(text)
  {
    hide Ends, Trim;
    out := [];
    var start, at := 0, 0;
    while at < |text|
      invariant 0 <= start <= at <= |text|
      invariant out + SentencesFrom(text, start, at) == Sentences(text)
    {
      if Ends(text, at) {
        var sentence := Trim(text[start..at + 1]);
        if sentence != "" {
          out := out + [sentence];
        }
        start := at + 1;
      }
      at := at + 1;
    }
    var last := Trim(text[start..]);
    if last != "" {
      out := out + [last];
    }
  }

  lemma SentenceKeeps(piece: string)
    ensures Visible(Flat(Sentence(piece))) == Visible(piece)
  {
    VisibleBlank("");
    hide Visible, Trim, White, Blank;
    var from, to := TrimIs(piece);
    var trimmed := piece[from..to];
    assert piece == piece[..from] + trimmed + piece[to..];
    VisibleAppend(piece[..from] + trimmed, piece[to..]);
    VisibleAppend(piece[..from], trimmed);
    VisibleBlank(piece[..from]);
    VisibleBlank(piece[to..]);
    assert Visible(piece) == Visible(trimmed);
    assert Flat([]) == "" && [trimmed][1..] == [];
    assert Flat([trimmed]) == trimmed;
  }

  lemma {:induction false} SentencesKeep(text: string, start: nat, at: nat)
    requires start <= at <= |text|
    ensures Visible(Flat(SentencesFrom(text, start, at))) == Visible(text[start..])
    decreases |text| - at
  {
    hide Visible, Sentence, Ends;
    if at == |text| {
      SentenceKeeps(text[start..]);
    } else if Ends(text, at) {
      SentenceKeeps(text[start..at + 1]);
      SentencesKeep(text, at + 1, at + 1);
      FlatAppend(Sentence(text[start..at + 1]), SentencesFrom(text, at + 1, at + 1));
      VisibleAppend(Flat(Sentence(text[start..at + 1])), Flat(SentencesFrom(text, at + 1, at + 1)));
      assert text[start..] == text[start..at + 1] + text[at + 1..];
      VisibleAppend(text[start..at + 1], text[at + 1..]);
    } else {
      SentencesKeep(text, start, at + 1);
    }
  }

  /** No end of a sentence is inside one, and none is blank at an end. */
  predicate OneSentence(s: string) {
    && s != "" && !White(s[0]) && !White(s[|s| - 1])
    && forall i :: 0 <= i < |s| - 1 ==> !Ends(s, i)
  }

  lemma SliceWithin(s: string, a: nat, b: nat, from: nat, to: nat)
    requires a <= b <= |s| && from <= to <= b - a
    ensures s[a..b][from..to] == s[a + from..a + to]
  {
    forall j | 0 <= j < to - from ensures s[a..b][from..to][j] == s[a + from..a + to][j] {
      assert s[a..b][from + j] == s[a + from + j];
    }
  }

  lemma PieceOneSentence(text: string, start: nat, end: nat)
    requires start <= end <= |text| && forall i :: start <= i < end - 1 ==> !Ends(text, i)
    requires Trim(text[start..end]) != ""
    ensures OneSentence(Trim(text[start..end]))
  {
    hide Trim, White, Blank;
    var piece := text[start..end];
    var from, to := TrimIs(piece);
    var s := piece[from..to];
    SliceWithin(text, start, end, from, to);
    forall i | 0 <= i < |s| - 1 ensures !Ends(s, i) {
      EndsWithin(text, start + from, start + to, i);
    }
  }

  /** Whether a character ends a sentence does not depend on what is cut off around it. */
  lemma EndsWithin(text: string, from: nat, to: nat, i: nat)
    requires from <= to <= |text| && i + 1 < to - from
    ensures Ends(text[from..to], i) <==> Ends(text, from + i)
  {
    hide White;
  }

  lemma {:induction false} SentencesOne(text: string, start: nat, at: nat)
    requires start <= at <= |text| && forall i :: start <= i < at ==> !Ends(text, i)
    ensures forall s :: s in SentencesFrom(text, start, at) ==> OneSentence(s)
    decreases |text| - at
  {
    hide Ends, Trim, OneSentence;
    if at == |text| {
      assert text[start..] == text[start..|text|];
      if Trim(text[start..]) != "" {
        PieceOneSentence(text, start, |text|);
      }
    } else if Ends(text, at) {
      if Trim(text[start..at + 1]) != "" {
        PieceOneSentence(text, start, at + 1);
      }
      SentencesOne(text, at + 1, at + 1);
    } else {
      SentencesOne(text, start, at + 1);
    }
  }

  /** Cutting into sentences loses no visible character and repeats none, and leaves no end
      of a sentence inside one. */
  lemma SentencesExact(text: string)
    ensures Visible(Flat(Sentences(text))) == Visible(text)
    ensures forall s :: s in Sentences(text) ==> OneSentence(s)
  {
    hide Visible, OneSentence;
    SentencesKeep(text, 0, 0);
    SentencesOne(text, 0, 0);
    assert text[0..] == text;
  }

  /** A line feed, or a full stop, exclamation or question mark with blank text or nothing after it. */
  predicate EndsSentence(text: string, at: nat)
    requires at < |text|
  {
    || text[at] == '\n'
    || ((text[at] == '.' || text[at] == '!' || text[at] == '?') && (at + 1 == |text| || White(text[at + 1])))
  }

  lemma EndsExact(text: string, at: nat)
    requires at < |text|
    ensures Ends(text, at) <==> EndsSentence(text, at)
  {
    assert ".!?"[0] == '.' && ".!?"[1] == '!' && ".!?"[2] == '?';
  }

  /** The scan from `start` does not depend on what stands above it. */
  lemma {:induction false} SentencesBelow(above: string, text: string, start: nat, at: nat)
    requires start <= at <= |text|
    ensures SentencesFrom(above + text, |above| + start, |above| + at) == SentencesFrom(text, start, at)
    decreases |text| - at
  {
    hide Sentence, White;
    var all := above + text;
    if at == |text| {
      assert all[|above| + start..] == text[start..];
    } else {
      assert all[|above| + start..|above| + at + 1] == text[start..at + 1];
      SentencesBelow(above, text, if Ends(text, at) then at + 1 else start, at + 1);
    }
  }

  /** Up to an end it does not depend on what stands below. */
  lemma {:induction false} SentencesUpTo(text: string, end: nat, start: nat, at: nat)
    requires start <= at <= end < |text| && Ends(text, end)
    ensures SentencesFrom(text, start, at)
         == SentencesFrom(text[..end + 1], start, at) + SentencesFrom(text, end + 1, end + 1)
    decreases end - at
  {
    hide Sentence, White;
    var first := text[..end + 1];
    assert first[start..at + 1] == text[start..at + 1];
    if at == end {
      assert Ends(first, end);
      assert first[end + 1..] == "" && SentencesFrom(first, end + 1, end + 1) == [] by {
        NoSentence();
      }
      assert SentencesFrom(first, start, at) == Sentence(first[start..end + 1]) + [];
    } else {
      assert Ends(first, at) == Ends(text, at);
      SentencesUpTo(text, end, if Ends(text, at) then at + 1 else start, at + 1);
      if Ends(text, at) {
        assert Sentence(text[start..at + 1])
               + (SentencesFrom(first, at + 1, at + 1) + SentencesFrom(text, end + 1, end + 1))
            == Sentence(text[start..at + 1]) + SentencesFrom(first, at + 1, at + 1)
               + SentencesFrom(text, end + 1, end + 1);
      }
    }
  }

  lemma NoSentence()
    ensures Sentence("") == []
  {
  }

  lemma {:induction false} SentencesNone(text: string, start: nat, at: nat)
    requires start <= at <= |text| && forall i :: at <= i < |text| - 1 ==> !Ends(text, i)
    ensures SentencesFrom(text, start, at) == Sentence(text[start..])
    decreases |text| - at
  {
    hide Sentence;
    NoSentence();
    if at < |text| {
      if Ends(text, at) {
        assert at + 1 == |text| && text[start..at + 1] == text[start..] && text[at + 1..] == "";
        assert Sentence(text[start..]) + [] == Sentence(text[start..]);
      } else {
        SentencesNone(text, start, at + 1);
      }
    }
  }

  /** A text is cut right after each end of a sentence and nowhere else: its sentences are those
      up to any end and those after it, and a text without one before its last character is one
      sentence, trimmed, or none when it is blank. */
  lemma SentencesCut(text: string)
    ensures forall at :: 0 <= at < |text| && EndsSentence(text, at) ==>
              Sentences(text) == Sentences(text[..at + 1]) + Sentences(text[at + 1..])
    ensures (forall at :: 0 <= at < |text| - 1 ==> !EndsSentence(text, at)) ==>
              Sentences(text) == if Trim(text) == "" then [] else [Trim(text)]
  {
    hide Ends, EndsSentence, SentencesFrom, Trim;
    forall at | 0 <= at < |text|
      ensures Ends(text, at) <==> EndsSentence(text, at)
      ensures Ends(text, at) ==> Sentences(text) == Sentences(text[..at + 1]) + Sentences(text[at + 1..])
    {
      EndsExact(text, at);
      if Ends(text, at) {
        SentencesUpTo(text, at, 0, 0);
        assert text[..at + 1] + text[at + 1..] == text;
        SentencesBelow(text[..at + 1], text[at + 1..], 0, 0);
      }
    }
    if forall at :: 0 <= at < |text| - 1 ==> !EndsSentence(text, at) {
      SentencesNone(text, 0, 0);
      assert text[0..] == text;
    }
  }

  // What the writer typed.

  predicate QuoteLine(piece: string) {
    OpensQuote(Trim(piece))
  }

  /** The line that opens a forwarded message, dashes and all. */
  predicate ForwardHeader(line: string) {
    StartsWith(line, "---") && Find(Lower(line), "forwarded message").Some?
  }

  predicate Stops(piece: string) {
    QuoteLine(piece) || Trim(piece) == "--" || ForwardHeader(Trim(piece))
  }

  /** What ends the writer's own lines: a quote line, a separator line, or a line that opens with
      three hyphens and names a forwarded message in any case. */
  lemma StopsExact(piece: string)
    ensures var line := Trim(piece);
            Stops(piece) <==>
              || (line != "" && line[0] == '>') || line == "--"
              || (|line| >= 3 && line[0] == line[1] == line[2] == '-'
                  && exists k :: Occurs(Lower(line), "forwarded message", k))
  {
    hide Trim, Lower, Find;
    var line := Trim(piece);
    FindIs(Lower(line), "forwarded message");
    assert "---"[0] == '-' && "---"[1] == '-' && "---"[2] == '-';
    if |line| >= 3 && line[0] == line[1] == line[2] == '-' {
      assert line[..3] == "---";
    }
  }

  /** The first line from `k` that ends what the writer typed. */
  function FirstStop(pieces: seq<string>, k: nat): (stop: nat)
    requires k <= |pieces|
    ensures k <= stop <= |pieces|
    decreases |pieces| - k
  {
    if k < |pieces| && !Stops(pieces[k]) then FirstStop(pieces, k + 1) else k
  }

  /** The last line before `k` with text on it, when it introduces a quote. */
  function Attribution(pieces: seq<string>, k: nat): (line: Option<nat>)
    requires k <= |pieces|
    ensures line.Some? ==> line.value < k
  {
    if k == 0 then None
    else if Trim(pieces[k - 1]) == "" then Attribution(pieces, k - 1)
    else if EndsWith(Trim(pieces[k - 1]), "wrote:") then Some(k - 1)
    else None
  }

  /** How many of the lines the writer typed: those above the first quote, signature or
      forwarded message, and above the attribution over a quote. */
  function TypedLines(pieces: seq<string>): (n: nat)
    ensures n <= |pieces|
  {
    var stop := FirstStop(pieces, 0);
    if stop < |pieces| && QuoteLine(pieces[stop]) && Attribution(pieces, stop).Some?
    then Attribution(pieces, stop).value else stop
  }

  method Typed(body: string) returns (typed: string)
    ensures typed == Flat(Pieces(body)[..TypedLines(Pieces(body))])
  {
    hide Pieces, Flat, TypedLines;
    var pieces := Pieces(body);
    PiecesCut(body);
    var end := TypedEnd(pieces);
    TakenFrom(body, pieces, TypedLines(pieces));
    typed := body[..end];
  }

  /** Where the line `k` starts. */
  function Offset(pieces: seq<string>, k: nat): nat
    requires k <= |pieces|
  {
    |Flat(pieces[..k])|
  }

  function StartOf(pieces: seq<string>, line: Option<nat>): Option<nat>
    requires line.Some? ==> line.value <= |pieces|
  {
    if line.Some? then Some(Offset(pieces, line.value)) else None
  }

  /** Where the loop over the lines stands at the line `k`. */
  ghost predicate Reached(pieces: seq<string>, k: nat, at: nat, attribution: Option<nat>) {
    && k <= |pieces| && FirstStop(pieces, 0) == FirstStop(pieces, k)
    && at == Offset(pieces, k) && attribution == StartOf(pieces, Attribution(pieces, k))
  }

  /** How far the lines the writer typed reach. */
  method TypedEnd(pieces: seq<string>) returns (end: nat)
    ensures end == Offset(pieces, TypedLines(pieces))
  {
    AtTop(pieces);
    hide ForwardHeader, Trim, StartsWith, EndsWith, Offset, TypedLines, Reached;
    var at: nat, k: nat := 0, 0;
    var attribution: Option<nat> := None;
    while k < |pieces|
      invariant 0 <= k <= |pieces| && Reached(pieces, k, at, attribution)
    {
      AtLine(pieces, k, at, attribution);
      var trimmed := Trim(pieces[k]);
      if OpensQuote(trimmed) {
        return if attribution.Some? then attribution.value else at;
      }
      if trimmed == "--" || ForwardHeader(trimmed) {
        return at;
      }
      if trimmed != "" {
        attribution := if EndsWith(trimmed, "wrote:") then Some(at) else None;
      }
      at := at + |pieces[k]|;
      k := k + 1;
    }
    AtEnd(pieces, at, attribution);
    end := at;
  }

  lemma AtTop(pieces: seq<string>)
    ensures Reached(pieces, 0, 0, None)
  {
  }

  /** What the line `k`, reached from the top, says of the lines the writer typed. */
  lemma AtLine(pieces: seq<string>, k: nat, at: nat, attribution: Option<nat>)
    requires Reached(pieces, k, at, attribution) && k < |pieces|
    ensures var line, typed := Trim(pieces[k]), Offset(pieces, TypedLines(pieces));
            if OpensQuote(line) then typed == if attribution.Some? then attribution.value else at
            else if line == "--" || ForwardHeader(line) then typed == at
            else Reached(pieces, k + 1, at + |pieces[k]|,
                         if line == "" then attribution else if EndsWith(line, "wrote:") then Some(at) else None)
  {
    hide Trim, ForwardHeader, EndsWith, StartsWith, Offset;
    TakenNext(pieces, k);
  }

  lemma AtEnd(pieces: seq<string>, at: nat, attribution: Option<nat>)
    requires Reached(pieces, |pieces|, at, attribution)
    ensures at == Offset(pieces, TypedLines(pieces))
  {
    hide Offset;
  }

  lemma TakenNext(pieces: seq<string>, k: nat)
    requires k < |pieces|
    ensures Offset(pieces, k + 1) == Offset(pieces, k) + |pieces[k]|
  {
    assert pieces[..k + 1] == pieces[..k] + [pieces[k]];
    FlatAppend(pieces[..k], [pieces[k]]);
    assert [pieces[k]][1..] == [];
  }

  lemma TakenFrom(body: string, pieces: seq<string>, k: nat)
    requires Flat(pieces) == body && k <= |pieces|
    ensures |Flat(pieces[..k])| <= |body| && body[..|Flat(pieces[..k])|] == Flat(pieces[..k])
  {
    assert pieces == pieces[..k] + pieces[k..];
    FlatAppend(pieces[..k], pieces[k..]);
  }

  /** Nothing below the first quote, signature or forwarded message can promise a file. */
  lemma TypedBlind(typed: seq<string>, stop: string, below: seq<string>, other: seq<string>)
    requires Stops(stop) && forall k :: 0 <= k < |typed| ==> !Stops(typed[k])
    ensures var n := TypedLines(typed + [stop] + below);
            n == TypedLines(typed + [stop] + other) && n <= |typed|
  {
    hide Stops, QuoteLine;
    var a, b := typed + [stop] + below, typed + [stop] + other;
    StopFound(a, |typed|, 0);
    StopFound(b, |typed|, 0);
    AttributionAbove(a, b, |typed|);
  }

  lemma {:induction false} StopFound(pieces: seq<string>, stop: nat, k: nat)
    requires k <= stop < |pieces| && Stops(pieces[stop]) && forall j :: k <= j < stop ==> !Stops(pieces[j])
    ensures FirstStop(pieces, k) == stop
    decreases stop - k
  {
    hide Stops;
    if k < stop {
      StopFound(pieces, stop, k + 1);
    }
  }

  lemma {:induction false} AttributionAbove(a: seq<string>, b: seq<string>, k: nat)
    requires k <= |a| && k <= |b| && forall j :: 0 <= j < k ==> a[j] == b[j]
    ensures Attribution(a, k) == Attribution(b, k)
  {
    hide Trim, EndsWith;
    if k > 0 {
      AttributionAbove(a, b, k - 1);
    }
  }
}
