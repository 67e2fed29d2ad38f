/** The plain-text signature: put above the quoted original, found again while
    it is untouched, and swapped (app/src/compose.rs). `tail` is the end of the
    attribution line in the writer's language, as `attribution_tail` gives it. */
module Signature {
  import opened Text

  /** The lines of a text without what trails them. */
  function TrimmedLines(text: string): seq<string> {
    TrimAll(Lines(text))
  }

  /** What the lines under the separator must be for `signature` to stand there. */
  function Expected(signature: string): seq<string> {
    TrimmedLines(TrimEnd(signature))
  }

  function SignatureBlock(signature: string): string {
    "\n\n-- \n" + TrimEnd(signature)
  }

  predicate QuoteLine(line: string) {
    OpensQuote(TrimStart(line))
  }

  /** Where the scan for the quote stands: its offset, how far into an expected
      signature it is, the attribution line it may have passed, and the answer. */
  datatype Scan = Scan(at: nat, candidate: Option<nat>, attribution: Option<nat>, found: Option<nat>)

  const START := Scan(0, None, None, None)

  predicate InSignature(s: Scan, text: string, expected: seq<string>) {
    s.candidate.Some? && s.candidate.value < |expected| && expected[s.candidate.value] == text
  }

  function Step(s: Scan, line: string, expected: seq<string>, tail: string): Scan {
    var text := TrimEnd(line);
    var inSignature := InSignature(s, text, expected);
    var candidate :=
      if inSignature then Some(s.candidate.value + 1)
      else if text == "--" && expected != [] then Some(0)
      else None;
    if s.found.Some? then s
    else if QuoteLine(line) && !inSignature then
      s.(candidate := candidate, found := Some(if s.attribution.Some? then s.attribution.value else s.at))
    else
      var attribution :=
        if Blank(line) then s.attribution
        else if !inSignature && EndsWith(text, tail) then Some(s.at)
        else None;
      Scan(s.at + |line|, candidate, attribution, None)
  }

  function After(s: Scan, lines: seq<string>, expected: seq<string>, tail: string): Scan
    decreases |lines|
  {
    if lines == [] then s else After(Step(s, lines[0], expected, tail), lines[1..], expected, tail)
  }

  /** Where the quoted original starts, its attribution line included, stepping
      over quote lines that belong to `signature`. */
  function QuoteAt(markdown: string, signature: string, tail: string): (found: Option<nat>)
    ensures found.Some? ==> found.value < |markdown|
  {
    PiecesCut(markdown);
    ScanBounds(START, Pieces(markdown), Expected(signature), tail);
    After(START, Pieces(markdown), Expected(signature), tail).found
  }

  lemma {:induction false} ScanBounds(s: Scan, lines: seq<string>, expected: seq<string>, tail: string)
    requires s.found.None? && (s.attribution.Some? ==> s.attribution.value <= s.at)
    ensures var r := After(s, lines, expected, tail).found; r.Some? ==> r.value < s.at + |Flat(lines)|
    decreases |lines|
  {
    if lines != [] {
      var next := Step(s, lines[0], expected, tail);
      if next.found.Some? {
        Settled(next, lines[1..], expected, tail);
      } else {
        ScanBounds(next, lines[1..], expected, tail);
      }
    }
  }

  method QuoteAfterSignature(markdown: string, signature: string, tail: string) returns (found: Option<nat>)
    ensures found == QuoteAt(markdown, signature, tail)
  {
    found := FindQuote(Pieces(markdown), Expected(signature), tail);
  }

  method FindQuote(lines: seq<string>, expected: seq<string>, tail: string) returns (found: Option<nat>)
    ensures found == After(START, lines, expected, tail).found
  {
    hide TrimEnd, QuoteLine, EndsWith, Blank;
    var candidate: Option<nat>, attribution: Option<nat> := None, None;
    var at: nat := 0;
    for i := 0 to |lines|
      invariant After(START, lines, expected, tail)
             == After(Scan(at, candidate, attribution, None), lines[i..], expected, tail)
    {
      ghost var before := Scan(at, candidate, attribution, None);
      AfterStep(before, lines, i, expected, tail);
      var line := lines[i];
      var text := TrimEnd(line);
      var inSignature := candidate.Some? && candidate.value < |expected| && expected[candidate.value] == text;
      if inSignature {
        candidate := Some(candidate.value + 1);
      } else if text == "--" && expected != [] {
        candidate := Some(0);
      } else {
        candidate := None;
      }
      if QuoteLine(line) && !inSignature {
        found := Some(if attribution.Some? then attribution.value else at);
        Settled(Step(before, line, expected, tail), lines[i + 1..], expected, tail);
        return;
      }
      if !Blank(line) {
        attribution := if !inSignature && EndsWith(text, tail) then Some(at) else None;
      }
      at := at + |line|;
    }
    return None;
  }

  lemma AfterStep(s: Scan, lines: seq<string>, i: nat, expected: seq<string>, tail: string)
    requires i < |lines|
    ensures After(s, lines[i..], expected, tail)
         == After(Step(s, lines[i], expected, tail), lines[i + 1..], expected, tail)
  {
    assert lines[i..][1..] == lines[i + 1..];
  }

  lemma {:induction false} Settled(s: Scan, lines: seq<string>, expected: seq<string>, tail: string)
    requires s.found.Some?
    ensures After(s, lines, expected, tail) == s
    decreases |lines|
  {
    if lines != [] {
      Settled(s, lines[1..], expected, tail);
    }
  }

  /** The place of the last separator line of `lines`, the first of which starts at `at`. */
  function LastSeparator(lines: seq<string>, at: nat): (found: Option<nat>)
    ensures found.Some? ==> at <= found.value <= at + |Flat(lines)|
  {
    if lines == [] then None
    else
      var later := LastSeparator(lines[1..], at + |lines[0]|);
      if later.Some? then later else if TrimEnd(lines[0]) == "--" then Some(at) else None
  }

  function Bare(text: string): string {
    Trim(Join(TrimmedLines(text), "\n"))
  }

  /** The separator line at `at`, if what follows it in `head` is still `signature`. */
  function Confirmed(head: string, at: nat, signature: string): Option<nat>
    requires at <= |head|
  {
    var feed := LineEnd(head[at..]);
    if at + feed < |head| && Bare(head[at + feed + 1..]) == Bare(signature) then Some(at) else None
  }

  /** Where the signature block starts in `head`, while what lies under the last
      separator is still `signature`. */
  function SignatureAt(head: string, signature: string): (start: Option<nat>)
    ensures start.Some? ==> start.value <= |head|
  {
    PiecesCut(head);
    var separator := LastSeparator(Pieces(head), 0);
    if separator.None? then None else Confirmed(head, separator.value, signature)
  }

  method SignatureStartsAt(head: string, signature: string) returns (start: Option<nat>)
    ensures start == SignatureAt(head, signature)
  {
    PiecesCut(head);
    var separator := FindSeparator(Pieces(head));
    start := if separator.None? then None else Confirmed(head, separator.value, signature);
  }

  method FindSeparator(lines: seq<string>) returns (separator: Option<nat>)
    ensures separator == LastSeparator(lines, 0)
  {
    separator := None;
    var at: nat := 0;
    for i := 0 to |lines|
      invariant LastSeparator(lines, 0)
             == var later := LastSeparator(lines[i..], at); if later.Some? then later else separator
    {
      assert lines[i..][1..] == lines[i + 1..];
      if TrimEnd(lines[i]) == "--" {
        separator := Some(at);
      }
      at := at + |lines[i]|;
    }
  }

  /** The writer's words and the quoted original under them. */
  function Cut(markdown: string, tail: string): (parts: (string, string))
  {
    var quote := QuoteAt(markdown, "", tail);
    var at := if quote.Some? then quote.value else |markdown|;
    (TrimEnd(markdown[..at]), markdown[at..])
  }

  function WithSignature(markdown: string, signature: string, tail: string): string {
    if Blank(signature) then markdown
    else
      var (written, quoted) := Cut(markdown, tail);
      if quoted == "" then written + SignatureBlock(signature)
      else written + SignatureBlock(signature) + "\n\n" + quoted
  }

  /** Where the writer's own words end in the text above the quote: above the old
      signature while it is still where it was left. */
  function WordsEnd(head: string, was: string): (ends: Option<nat>)
    ensures ends.Some? ==> ends.value <= |head|
  {
    if Blank(was) then Some(|head|) else SignatureAt(head, was)
  }

  /** The words, the new signature if there is one, and what the message quotes. */
  function Resigned(words: string, wanted: string, rest: string): string {
    TrimLineFeeds(words) + (if Blank(wanted) then "" else SignatureBlock(wanted))
    + (if rest == "" then "" else "\n\n") + rest
  }

  function RestyleSignature(markdown: string, was: string, wanted: string, tail: string): string {
    var found := QuoteAt(markdown, was, tail);
    var quote := if found.Some? then found.value else |markdown|;
    var ends := WordsEnd(markdown[..quote], was);
    if ends.None? then markdown else Resigned(markdown[..ends.value], wanted, markdown[quote..])
  }

  // ---- Scanning runs of lines

  ghost predicate Plain(lines: seq<string>) {
    forall i :: 0 <= i < |lines| ==> !QuoteLine(lines[i])
  }

  /** How a quoted original looks: its attribution line if any, blank lines, a quote line. */
  ghost predicate OriginalWith(lines: seq<string>, tail: string, k: nat) {
    && k < |lines| && QuoteLine(lines[k]) && Plain(lines[..k])
    && (forall i :: 0 < i < k ==> Blank(lines[i]))
    && (k > 0 ==> !Blank(lines[0]) && EndsWith(TrimEnd(lines[0]), tail))
  }

  ghost predicate Original(lines: seq<string>, tail: string) {
    exists k: nat :: OriginalWith(lines, tail, k)
  }

  lemma {:induction false} AfterAppend(s: Scan, a: seq<string>, b: seq<string>, expected: seq<string>, tail: string)
    ensures After(s, a + b, expected, tail) == After(After(s, a, expected, tail), b, expected, tail)
    decreases |a|
  {
    if a == [] {
      assert a + b == b;
    } else {
      assert (a + b)[1..] == a[1..] + b;
      AfterAppend(Step(s, a[0], expected, tail), a[1..], b, expected, tail);
    }
  }

  lemma {:induction false} ScanPlain(s: Scan, lines: seq<string>, expected: seq<string>, tail: string)
    requires Plain(lines) && s.found.None?
    ensures After(s, lines, expected, tail).found.None?
    decreases |lines|
  {
    if lines != [] {
      assert Plain(lines[1..]);
      ScanPlain(Step(s, lines[0], expected, tail), lines[1..], expected, tail);
    }
  }

  /** While nothing is found the scan has come to the end of what it read. */
  lemma {:induction false} ScanAt(s: Scan, lines: seq<string>, expected: seq<string>, tail: string)
    requires After(s, lines, expected, tail).found.None?
    ensures s.found.None? && After(s, lines, expected, tail).at == s.at + |Flat(lines)|
    decreases |lines|
  {
    hide TrimEnd, QuoteLine, Blank, EndsWith;
    if s.found.Some? {
      Settled(s, lines, expected, tail);
    } else if lines != [] {
      ScanAt(Step(s, lines[0], expected, tail), lines[1..], expected, tail);
    }
  }

  /** Through its own lines the scan stays inside a signature, quotes and all. */
  lemma {:induction false} ScanSignature(s: Scan, lines: seq<string>, expected: seq<string>, tail: string)
    requires s.found.None? && s.candidate.Some? && s.candidate.value <= |expected|
    requires TrimAll(lines) == expected[s.candidate.value..]
    requires lines != [] ==> !Blank(lines[|lines| - 1])
    ensures var r := After(s, lines, expected, tail);
            && r.found.None? && r.candidate == Some(|expected|) && r.at == s.at + |Flat(lines)|
            && (lines != [] ==> r.attribution.None?)
    decreases |lines|
  {
    if lines != [] {
      var next := Step(s, lines[0], expected, tail);
      assert TrimAll(lines)[0] == expected[s.candidate.value] && TrimAll(lines)[1..] == TrimAll(lines[1..]);
      ScanSignature(next, lines[1..], expected, tail);
    }
  }

  lemma {:induction false} ScanBlanks(s: Scan, lines: seq<string>, expected: seq<string>, tail: string)
    requires s.found.None? && s.candidate.None?
    requires forall i :: 0 <= i < |lines| ==> Blank(lines[i]) && !QuoteLine(lines[i])
    ensures After(s, lines, expected, tail) == s.(at := s.at + |Flat(lines)|)
    decreases |lines|
  {
    if lines != [] {
      assert TrimEnd(lines[0]) == "" by {
        TrimEndUnique(lines[0], "");
      }
      ScanBlanks(Step(s, lines[0], expected, tail), lines[1..], expected, tail);
    }
  }

  /** The lines above the quote line leave the scan at the attribution, if there is one. */
  lemma ScanAttribution(s: Scan, lines: seq<string>, expected: seq<string>, tail: string)
    requires s.found.None? && s.candidate.None? && (expected == [] || !EndsWith("--", tail))
    requires lines != [] && !QuoteLine(lines[0]) && !Blank(lines[0]) && EndsWith(TrimEnd(lines[0]), tail)
    requires forall i :: 0 < i < |lines| ==> Blank(lines[i]) && !QuoteLine(lines[i])
    ensures var r := After(s, lines, expected, tail);
            r.found.None? && r.candidate.None? && r.attribution == Some(s.at)
  {
    var next := Step(s, lines[0], expected, tail);
    var blanks := lines[1..];
    forall i | 0 <= i < |blanks|
      ensures Blank(blanks[i]) && !QuoteLine(blanks[i])
    {
      assert blanks[i] == lines[i + 1];
    }
    ScanBlanks(next, blanks, expected, tail);
  }

  lemma ScanQuoteLine(s: Scan, lines: seq<string>, expected: seq<string>, tail: string)
    requires s.found.None? && s.candidate.None? && lines != [] && QuoteLine(lines[0])
    ensures After(s, lines, expected, tail).found == Some(if s.attribution.Some? then s.attribution.value else s.at)
  {
    Settled(Step(s, lines[0], expected, tail), lines[1..], expected, tail);
  }

  /** With no signature under way, a quoted original is found where it starts. */
  lemma ScanOriginal(s: Scan, lines: seq<string>, expected: seq<string>, tail: string, k: nat)
    requires s.found.None? && s.candidate.None? && (k > 0 || s.attribution.None?)
    requires OriginalWith(lines, tail, k) && (expected == [] || !EndsWith("--", tail))
    ensures After(s, lines, expected, tail).found == Some(s.at)
  {
    var above, below := lines[..k], lines[k..];
    assert lines == above + below;
    AfterAppend(s, above, below, expected, tail);
    if k > 0 {
      assert forall i :: 0 <= i < k ==> above[i] == lines[i];
      ScanAttribution(s, above, expected, tail);
    } else {
      assert above == [];
    }
    var there := After(s, above, expected, tail);
    ScanQuoteLine(there, below, expected, tail);
  }

  // ---- Where the quoted original starts

  /** What a scan for the bare quote knows of the lines it has passed. */
  ghost predicate Passed(done: seq<string>, s: Scan, tail: string, j: nat) {
    && s.found.None? && s.candidate.None? && s.at == |Flat(done)| && Plain(done) && j <= |done|
    && (s.attribution.None? ==> j == |done|)
    && (s.attribution.Some? ==>
        && j < |done| && s.attribution.value == |Flat(done[..j])|
        && !Blank(done[j]) && EndsWith(TrimEnd(done[j]), tail)
        && forall i :: j < i < |done| ==> Blank(done[i]))
  }

  /** The quote the scan finds is the first line of an original with no quote line above it. */
  lemma {:induction false} FindOriginal(done: seq<string>, rest: seq<string>, s: Scan, tail: string, j: nat)
    returns (k: nat)
    requires Passed(done, s, tail, j)
    ensures k <= |done + rest|
    ensures var found := After(s, rest, [], tail).found;
            && Plain((done + rest)[..k])
            && (found.None? ==> k == |done + rest|)
            && (found.Some? ==> found.value == |Flat((done + rest)[..k])| && Original((done + rest)[k..], tail))
    decreases |rest|
  {
    hide TrimEnd, TrimStart, EndsWith, Flat;
    var lines := done + rest;
    if rest == [] {
      k := |lines|;
      assert lines[..k] == done;
      return;
    }
    var line := rest[0];
    var next := Step(s, line, [], tail);
    if QuoteLine(line) {
      Settled(next, rest[1..], [], tail);
      k := j;
      assert lines[..k] == done[..k];
      assert lines[k..] == done[k..] + rest;
      assert j == |done| ==> done[..j] == done;
      assert OriginalWith(lines[k..], tail, |done| - j) by {
        assert lines[k..][..|done| - j] == done[j..];
        assert forall i :: 0 <= i < |done| - j ==> lines[k..][i] == done[j + i];
      }
    } else {
      FlatLast(done, line);
      assert lines == (done + [line]) + rest[1..];
      var j' := if next.attribution.None? then |done| + 1 else if Blank(line) then j else |done|;
      assert next.attribution.Some? ==> (done + [line])[..j'] == done[..j'];
      assert done[..|done|] == done;
      k := FindOriginal(done + [line], rest[1..], next, tail, j');
    }
  }

  lemma NothingExpected()
    ensures Expected("") == [] && Flat([]) == "" && Pieces("") == []
  {
  }

  /** The two halves a message is cut in: words with no quoted line, and nothing or
      an original. Between them only blank text is lost. */
  lemma CutParts(markdown: string, tail: string)
    ensures var (written, quoted) := Cut(markdown, tail);
            && |written| + |quoted| <= |markdown|
            && markdown == written + markdown[|written|..|markdown| - |quoted|] + quoted
            && Blank(markdown[|written|..|markdown| - |quoted|])
            && (written != "" ==> !White(written[|written| - 1]))
            && Plain(Pieces(written + "\n"))
            && (quoted != "" ==> Original(Pieces(quoted), tail))
  {
    hide TrimEnd, Pieces, After, IsCut, Expected, Flat;
    var lines := Pieces(markdown);
    PiecesCut(markdown);
    assert [] + lines == lines && lines[..|lines|] == lines;
    NothingExpected();
    var k := FindOriginal([], lines, START, tail, 0);
    CutSplit(lines, k);
    var found := QuoteAt(markdown, "", tail);
    var above := if found.Some? then markdown[..found.value] else markdown;
    assert above == Flat(lines[..k]);
    TrimEndIs(above);
    PlainPrefix(above, TrimEnd(above));
    assert markdown[..|markdown|] == markdown;
    if found.Some? {
      assert markdown[found.value..] == Flat(lines[k..]);
    }
    CutWhole(markdown, |above|, TrimEnd(above));
  }

  lemma CutWhole(markdown: string, at: nat, written: string)
    requires at <= |markdown| && written <= markdown[..at] && Blank(markdown[..at][|written|..])
    ensures var quoted := markdown[at..];
            && markdown[|written|..|markdown| - |quoted|] == markdown[..at][|written|..]
            && markdown == written + markdown[|written|..|markdown| - |quoted|] + quoted
  {
  }

  /** Dropping the end of a text, or ending it with a line feed, quotes no line of it. */
  lemma {:induction false} PlainPrefix(s: string, p: string)
    requires p <= s && Plain(Pieces(s))
    ensures Plain(Pieces(p + "\n"))
  {
    hide QuoteLine, Pieces;
    var n := LineEnd(s);
    if |p| <= n {
      PlainLine(s, p);
    } else {
      var first, rest, more := s[..n + 1], s[n + 1..], p[n + 1..];
      assert p == first + more && more <= rest && s == first + rest;
      assert p + "\n" == first + (more + "\n");
      FirstPiece(first, rest, n);
      assert Plain(Pieces(rest)) by {
        assert Pieces(s)[1..] == Pieces(rest);
      }
      PlainPrefix(rest, more);
      FirstPiece(first, more + "\n", n);
      assert first == Pieces(s)[0];
    }
  }

  lemma PlainLine(s: string, p: string)
    requires p <= s && |p| <= LineEnd(s) && Plain(Pieces(s))
    ensures Plain(Pieces(p + "\n"))
  {
    hide QuoteLine;
    assert p == s[..LineEnd(s)][..|p|];
    FirstPiece(p + "\n", "", |p|);
    assert p + "\n" + "" == p + "\n";
    NoLine();
    var line := if s == "" then s else Pieces(s)[0];
    assert p <= line && !QuoteLine(line);
    QuotePrefix(p, line);
  }

  lemma NoLine()
    ensures !QuoteLine("")
  {
  }

  lemma {:induction false} QuotePrefix(p: string, line: string)
    requires p <= line
    ensures QuoteLine(p + "\n") ==> QuoteLine(line)
  {
    if p == "" {
      assert p + "\n" == "\n";
      assert TrimStart("\n") == TrimStart("\n"[1..]);
    } else if White(p[0]) {
      assert (p + "\n")[1..] == p[1..] + "\n";
      QuotePrefix(p[1..], line[1..]);
    }
  }

  lemma BlankFeed()
    ensures TrimEnd("\n") == "" && !QuoteLine("\n") && Blank("\n")
  {
    TrimEndUnique("\n", "");
    assert TrimStart("\n") == TrimStart("\n"[1..]);
  }

  lemma SeparatorFeed()
    ensures TrimEnd("-- \n") == "--" && !QuoteLine("-- \n") && !Blank("-- \n")
  {
    TrimEndUnique("-- \n", "--");
    assert "-- \n"[0] == '-';
  }

  // ---- A line feed more

  lemma {:induction false} QuoteBlank(line: string, blank: string)
    requires Blank(blank)
    ensures QuoteLine(line + blank) == QuoteLine(line)
  {
    if line == "" {
      assert line + blank == blank;
      TrimStartIs(blank);
    } else if White(line[0]) {
      assert (line + blank)[1..] == line[1..] + blank;
      QuoteBlank(line[1..], blank);
    }
  }

  /** What a further line feed at its end changes in a line the scan reads: the offset. */
  lemma StepFeed(s: Scan, line: string, expected: seq<string>, tail: string)
    ensures var plain, fed := Step(s, line, expected, tail), Step(s, line + "\n", expected, tail);
            fed.found == plain.found && (plain.found.Some? ==> fed == plain)
  {
    TrimEndAppend(line, "\n");
    QuoteBlank(line, "\n");
  }

  lemma AfterLast(s: Scan, lines: seq<string>, last: string, expected: seq<string>, tail: string)
    ensures After(s, lines + [last], expected, tail) == Step(After(s, lines, expected, tail), last, expected, tail)
  {
    hide Step;
    AfterAppend(s, lines, [last], expected, tail);
    var there := After(s, lines, expected, tail);
    assert [last][1..] == [];
    assert After(there, [last], expected, tail) == Step(there, last, expected, tail);
  }

  /** A line feed at the end of a text is neither a quote nor hides one. */
  lemma FeedFound(text: string, expected: seq<string>, tail: string)
    ensures After(START, Pieces(text + "\n"), expected, tail).found
         == After(START, Pieces(text), expected, tail).found
  {
    hide Pieces, After, QuoteLine, TrimEnd, EndsWith, Blank;
    var lines := Pieces(text);
    if text == "" || text[|text| - 1] == '\n' {
      PiecesAppend(text, "\n");
      PieceOf('\n');
      AfterLast(START, lines, "\n", expected, tail);
      BlankFeed();
    } else {
      PiecesExtend(text, '\n');
      var above, last := lines[..|lines| - 1], lines[|lines| - 1];
      assert lines == above + [last];
      AfterLast(START, above, last, expected, tail);
      AfterLast(START, above, last + "\n", expected, tail);
      StepFeed(After(START, above, expected, tail), last, expected, tail);
    }
  }

  /** What stands below a quote that is found makes no difference to it. */
  lemma QuoteMore(text: string, more: string, was: string, tail: string)
    requires QuoteAt(text, was, tail).Some?
    ensures QuoteAt(text + "\n" + more, was, tail) == QuoteAt(text, was, tail)
  {
    hide Pieces, After, Expected;
    var expected := Expected(was);
    PiecesAppend(text + "\n", more);
    FeedFound(text, expected, tail);
    AfterAppend(START, Pieces(text + "\n"), Pieces(more), expected, tail);
    Settled(After(START, Pieces(text + "\n"), expected, tail), Pieces(more), expected, tail);
  }

  /** Once the lines read hold the quote, what follows them stays as it is. */
  lemma ReadToTheQuote(text: string, more: string, was: string, wanted: string, tail: string)
    requires QuoteAt(text, was, tail).Some?
    ensures RestyleSignature(text + "\n" + more, was, wanted, tail)
         == RestyleSignature(text, was, wanted, tail) + "\n" + more
  {
    hide QuoteAt, WordsEnd, Resigned;
    var whole := text + "\n" + more;
    var quote := QuoteAt(text, was, tail).value;
    QuoteMore(text, more, was, tail);
    assert whole[..quote] == text[..quote];
    assert whole[quote..] == text[quote..] + "\n" + more;
    var ends := WordsEnd(text[..quote], was);
    if ends.Some? {
      assert whole[..ends.value] == text[..ends.value];
      assert whole[quote..] == text[quote..] + ("\n" + more);
      ResignedMore(text[..ends.value], wanted, text[quote..], "\n" + more);
      assert forall s: string :: s + ("\n" + more) == s + "\n" + more;
    }
  }

  lemma ResignedMore(words: string, wanted: string, rest: string, more: string)
    requires rest != ""
    ensures Resigned(words, wanted, rest + more) == Resigned(words, wanted, rest) + more
  {
  }

  /** Words no line of which is a quote hold none for the scan either. */
  lemma PlainUnquoted(text: string, was: string, tail: string)
    requires Plain(Pieces(text + "\n"))
    ensures QuoteAt(text, was, tail).None?
  {
    hide Pieces, After, Expected;
    ScanPlain(START, Pieces(text + "\n"), Expected(was), tail);
    FeedFound(text, Expected(was), tail);
  }

  // ---- The signature's own lines

  /** The text whose trimmed form tells two signatures apart. */
  function BareText(text: string): string {
    Join(TrimmedLines(text), "\n")
  }

  lemma TrimmedPieces(text: string)
    ensures TrimmedLines(text) == TrimAll(Pieces(text))
    ensures text != "" ==> TrimmedLines(text) != []
  {
    TrimAllStrips(Pieces(text));
  }

  lemma PieceOf(c: char)
    ensures Pieces([c]) == [[c]]
  {
    if c == '\n' {
      FirstPiece([c], "", 0);
      assert [c] + "" == [c];
    } else {
      LineEndUnique([c], 1);
    }
  }

  /** One more white character ends no line differently: at most it adds an empty one. */
  lemma TrimmedMore(text: string, c: char)
    requires text != "" && White(c)
    ensures var more := TrimmedLines(text + [c]); more == TrimmedLines(text) || more == TrimmedLines(text) + [""]
  {
    hide TrimAll, TrimEnd, Pieces, TrimmedLines, White;
    var lines := Pieces(text);
    TrimmedPieces(text);
    TrimmedPieces(text + [c]);
    if text[|text| - 1] == '\n' {
      PiecesAppend(text, [c]);
      PieceOf(c);
      TrimEndUnique([c], "");
      TrimAllLast(lines, [c]);
    } else {
      PiecesExtend(text, c);
      var above, last := lines[..|lines| - 1], lines[|lines| - 1];
      assert lines == above + [last];
      TrimAllLast(above, last);
      TrimAllLast(above, last + [c]);
      TrimEndAppend(last, [c]);
    }
  }

  /** Blank text at its end is no part of a signature. */
  lemma {:induction false} BareAppend(text: string, blank: string)
    requires text != "" && Blank(blank)
    ensures TrimEnd(BareText(text + blank)) == TrimEnd(BareText(text))
    decreases |blank|
  {
    hide TrimEnd, TrimmedLines, Join;
    if blank == "" {
      assert text + blank == text;
    } else {
      var n := |blank| - 1;
      BareAppend(text, blank[..n]);
      var almost := text + blank[..n];
      assert text + blank == almost + [blank[n]];
      TrimmedPieces(almost);
      TrimmedMore(almost, blank[n]);
      JoinEmpty(TrimmedLines(almost), "\n");
      TrimEndAppend(BareText(almost), "\n");
    }
  }

  // ---- A signature under the writer's words

  /** The separator line does not occur in the signature itself. */
  ghost predicate NoSeparator(signature: string) {
    "--" !in Expected(signature)
  }

  /** A message as `WithSignature` lays it out: words, separator, signature, original. */
  function Signed(written: string, signature: string, quoted: string): string {
    written + SignatureBlock(signature) + (if quoted == "" then "" else "\n\n" + quoted)
  }

  /** The signature's lines as they stand in the message. */
  function Body(signature: string, quoted: string): string {
    TrimEnd(signature) + (if quoted == "" then "" else "\n")
  }

  /** What stands above the original, cut in lines. */
  function Head(written: string, signature: string, quoted: string): seq<string> {
    Pieces(written + "\n") + ["\n", "-- \n"] + Pieces(Body(signature, quoted))
    + (if quoted == "" then [] else ["\n"])
  }

  lemma SignedPieces(written: string, signature: string, quoted: string)
    requires !Blank(signature)
    ensures Pieces(Signed(written, signature, quoted)) == Head(written, signature, quoted) + Pieces(quoted)
  {
    SignedText(written, signature, quoted);
    LayoutPieces(written + "\n", "\n", "-- \n", Under(signature, quoted));
    BodyPieces(signature, quoted);
  }

  /** What stands under the separator. */
  function Under(signature: string, quoted: string): string {
    Body(signature, quoted) + (if quoted == "" then "" else "\n" + quoted)
  }

  lemma SignedText(written: string, signature: string, quoted: string)
    ensures Signed(written, signature, quoted) == written + "\n" + ("\n" + ("-- \n" + Under(signature, quoted)))
  {
  }

  lemma LayoutPieces(top: string, blank: string, separator: string, under: string)
    requires top != "" && top[|top| - 1] == '\n'
    requires OneLine(blank) && blank[|blank| - 1] == '\n'
    requires OneLine(separator) && separator[|separator| - 1] == '\n'
    ensures Pieces(top + (blank + (separator + under))) == Pieces(top) + [blank, separator] + Pieces(under)
  {
    var low := separator + under;
    assert Pieces(low) == [separator] + Pieces(under) by {
      FirstPiece(separator, under, |separator| - 1);
    }
    var middle := blank + low;
    assert Pieces(middle) == [blank] + Pieces(low) by {
      FirstPiece(blank, low, |blank| - 1);
    }
    assert Pieces(top + middle) == Pieces(top) + Pieces(middle) by {
      PiecesAppend(top, middle);
    }
    TwoMore(Pieces(top), blank, separator, Pieces(under));
  }

  lemma TwoMore(top: seq<string>, blank: string, separator: string, under: seq<string>)
    ensures top + ([blank] + ([separator] + under)) == top + [blank, separator] + under
  {
  }

  lemma BodyPieces(signature: string, quoted: string)
    ensures Pieces(Under(signature, quoted))
            == Pieces(Body(signature, quoted)) + (if quoted == "" then [] else ["\n"]) + Pieces(quoted)
  {
    var body := Body(signature, quoted);
    if quoted == "" {
      assert body + "" == body;
    } else {
      PiecesAppend(body, "\n" + quoted);
      FirstPiece("\n", quoted, 0);
    }
  }

  lemma EndsVisible(signature: string)
    requires !Blank(signature)
    ensures var text := TrimEnd(signature); text != "" && !White(text[|text| - 1])
  {
    TrimEndIs(signature);
    assert signature[0..] == signature;
  }

  /** The expected lines are the signature's lines where they stand. */
  lemma BodyLines(signature: string, quoted: string)
    requires !Blank(signature)
    ensures TrimAll(Pieces(Body(signature, quoted))) == Expected(signature)
    ensures var lines := Pieces(Body(signature, quoted)); lines != [] && !Blank(lines[|lines| - 1])
  {
    hide TrimAll, TrimEnd, Pieces;
    var text := TrimEnd(signature);
    EndsVisible(signature);
    TrimmedPieces(text);
    BodyLast(text);
    assert text + "" == text;
  }

  lemma BodyLast(text: string)
    requires text != "" && !White(text[|text| - 1])
    ensures TrimAll(Pieces(text + "\n")) == TrimAll(Pieces(text))
    ensures var lines := Pieces(text); lines != [] && !Blank(lines[|lines| - 1])
    ensures var lines := Pieces(text + "\n"); lines != [] && !Blank(lines[|lines| - 1])
  {
    hide TrimAll, TrimEnd, Pieces, IsCut, Flat;
    var lines := Pieces(text);
    PiecesCut(text);
    FlatEnd(lines);
    PiecesExtend(text, '\n');
    var above, last := lines[..|lines| - 1], lines[|lines| - 1];
    assert lines == above + [last];
    TrimAllLast(above, last);
    TrimAllLast(above, last + "\n");
    TrimEndAppend(last, "\n");
    assert (last + "\n")[|last| - 1] == last[|last| - 1];
  }

  /** From the top of the message the scan comes to the separator line, ready for the
      signature's own lines. */
  lemma ScanTop(top: seq<string>, blank: string, separator: string, expected: seq<string>, tail: string)
    requires After(START, top, expected, tail).found.None? && "--" !in expected && expected != []
    requires Blank(blank) && !QuoteLine(blank)
    requires TrimEnd(separator) == "--" && !QuoteLine(separator)
    ensures var r := After(START, top + [blank, separator], expected, tail);
            r.found.None? && r.candidate == Some(0) && r.at == |Flat(top)| + |blank| + |separator|
  {
    ScanAt(START, top, expected, tail);
    var s := After(START, top, expected, tail);
    AfterAppend(START, top, [blank, separator], expected, tail);
    AfterTwo(s, blank, separator, expected, tail);
  }

  lemma AfterTwo(s: Scan, one: string, two: string, expected: seq<string>, tail: string)
    ensures After(s, [one, two], expected, tail) == Step(Step(s, one, expected, tail), two, expected, tail)
  {
    assert [one, two][1..] == [two];
    assert After(Step(s, one, expected, tail), [two], expected, tail)
        == Step(Step(s, one, expected, tail), two, expected, tail);
  }

  /** Above the original the scan meets no quote line but the signature's own. */
  lemma ScanLayout(top: seq<string>, blank: string, separator: string, body: seq<string>, end: seq<string>,
                   expected: seq<string>, tail: string)
    requires After(START, top, expected, tail).found.None? && "--" !in expected && TrimAll(body) == expected
    requires body != [] && !Blank(body[|body| - 1])
    requires Blank(blank) && !QuoteLine(blank) && TrimEnd(blank) == ""
    requires TrimEnd(separator) == "--" && !QuoteLine(separator)
    requires end == [] || end == [blank]
    ensures var r := After(START, top + [blank, separator] + body + end, expected, tail);
            && r.found.None? && r.at == |Flat(top)| + |blank| + |separator| + |Flat(body)| + |Flat(end)|
            && (end != [] ==> r.candidate.None? && r.attribution.None?)
  {
    ScanTop(top, blank, separator, expected, tail);
    var head := top + [blank, separator];
    var s := After(START, head, expected, tail);
    assert expected[0..] == expected;
    ScanSignature(s, body, expected, tail);
    AfterAppend(START, head, body, expected, tail);
    AfterAppend(START, head + body, end, expected, tail);
    AfterEnd(After(s, body, expected, tail), blank, end, expected, tail);
  }

  lemma AfterEnd(s: Scan, blank: string, end: seq<string>, expected: seq<string>, tail: string)
    requires s.found.None? && s.candidate == Some(|expected|) && s.attribution.None?
    requires Blank(blank) && !QuoteLine(blank) && TrimEnd(blank) == ""
    requires end == [] || end == [blank]
    ensures var r := After(s, end, expected, tail);
            && r.found.None? && r.at == s.at + |Flat(end)|
            && (end != [] ==> r.candidate.None? && r.attribution.None?)
  {
  }

  /** The scan reaches the original with nothing under way, however the written
      words and the signature look. */
  lemma ScanHead(written: string, signature: string, quoted: string, tail: string)
    requires !Blank(signature) && NoSeparator(signature) && QuoteAt(written, signature, tail).None?
    ensures var r := After(START, Head(written, signature, quoted), Expected(signature), tail);
            && r.found.None? && r.at == |written| + |SignatureBlock(signature)| + (if quoted == "" then 0 else 2)
            && (quoted != "" ==> r.candidate.None? && r.attribution.None?)
  {
    var end := if quoted == "" then [] else ["\n"];
    BodyLines(signature, quoted);
    BlankFeed();
    SeparatorFeed();
    FeedFound(written, Expected(signature), tail);
    ScanLayout(Pieces(written + "\n"), "\n", "-- \n", Pieces(Body(signature, quoted)), end, Expected(signature), tail);
    PiecesCut(written + "\n");
    PiecesCut(Body(signature, quoted));
  }

  lemma NothingAfter(s: Scan, expected: seq<string>, tail: string, text: string)
    requires text == ""
    ensures Pieces(text) == [] && After(s, [], expected, tail) == s
  {
  }

  lemma QuoteOfSigned(written: string, signature: string, quoted: string, tail: string)
    requires !Blank(signature) && NoSeparator(signature) && !EndsWith("--", tail)
    requires QuoteAt(written, signature, tail).None? && (quoted != "" ==> Original(Pieces(quoted), tail))
    ensures QuoteAt(Signed(written, signature, quoted), signature, tail)
         == if quoted == "" then None else Some(|written| + |SignatureBlock(signature)| + 2)
  {
    hide After, Pieces, Expected, Head, Signed, SignatureBlock, OriginalWith, TrimEnd;
    var head, below := Head(written, signature, quoted), Pieces(quoted);
    SignedPieces(written, signature, quoted);
    ScanHead(written, signature, quoted, tail);
    var expected := Expected(signature);
    AfterAppend(START, head, below, expected, tail);
    if quoted == "" {
      NothingAfter(After(START, head, expected, tail), expected, tail, quoted);
    } else {
      assert Original(below, tail);
      var k: nat :| OriginalWith(below, tail, k);
      ScanOriginal(After(START, head, expected, tail), below, expected, tail, k);
    }
  }

  lemma {:induction false} LastSeparatorAppend(a: seq<string>, b: seq<string>, at: nat)
    ensures LastSeparator(a + b, at)
         == var later := LastSeparator(b, at + |Flat(a)|); if later.Some? then later else LastSeparator(a, at)
    decreases |a|
  {
    hide TrimEnd;
    if a == [] {
      assert a + b == b;
    } else {
      assert (a + b)[1..] == a[1..] + b;
      LastSeparatorAppend(a[1..], b, at + |a[0]|);
    }
  }

  ghost predicate Unseparated(lines: seq<string>) {
    forall i :: 0 <= i < |lines| ==> TrimEnd(lines[i]) != "--"
  }

  lemma {:induction false} UnseparatedLines(lines: seq<string>)
    requires "--" !in TrimAll(lines)
    ensures Unseparated(lines)
  {
    if lines != [] {
      assert TrimAll(lines) == [TrimEnd(lines[0])] + TrimAll(lines[1..]);
      UnseparatedLines(lines[1..]);
      assert forall i :: 0 < i < |lines| ==> lines[i] == lines[1..][i - 1];
    }
  }

  lemma {:induction false} LastSeparatorNone(lines: seq<string>, at: nat)
    requires Unseparated(lines)
    ensures LastSeparator(lines, at) == None
    decreases |lines|
  {
    if lines != [] {
      assert forall i :: 0 <= i < |lines[1..]| ==> lines[1..][i] == lines[i + 1];
      LastSeparatorNone(lines[1..], at + |lines[0]|);
    }
  }

  lemma SeparatorOfLayout(top: seq<string>, blank: string, separator: string, body: seq<string>, end: seq<string>)
    requires Unseparated(body) && Unseparated(end) && TrimEnd(separator) == "--"
    ensures LastSeparator(top + [blank, separator] + body + end, 0) == Some(|Flat(top)| + |blank|)
  {
    hide LastSeparator, TrimAll, TrimEnd, Flat, Unseparated;
    var head := top + [blank];
    FlatLast(top, blank);
    SeparatorFirst(separator, body, end, |Flat(head)|);
    SeparatorUnder(head, [separator] + (body + end));
    LayoutRegroup(top, blank, separator, body, end);
  }

  lemma SeparatorUnder(head: seq<string>, low: seq<string>)
    requires LastSeparator(low, |Flat(head)|) == Some(|Flat(head)|)
    ensures LastSeparator(head + low, 0) == Some(|Flat(head)|)
  {
    hide LastSeparator, Flat;
    LastSeparatorAppend(head, low, 0);
  }

  lemma LayoutRegroup<T>(top: seq<T>, blank: T, separator: T, body: seq<T>, end: seq<T>)
    ensures top + [blank, separator] + body + end == (top + [blank]) + ([separator] + (body + end))
  {
  }

  lemma LastSeparatorCons(first: string, rest: seq<string>, at: nat)
    ensures LastSeparator([first] + rest, at)
         == var later := LastSeparator(rest, at + |first|);
            if later.Some? then later else if TrimEnd(first) == "--" then Some(at) else None
  {
    assert ([first] + rest)[1..] == rest;
  }

  lemma SeparatorFirst(separator: string, body: seq<string>, end: seq<string>, at: nat)
    requires Unseparated(body) && Unseparated(end) && TrimEnd(separator) == "--"
    ensures LastSeparator([separator] + (body + end), at) == Some(at)
  {
    hide LastSeparator;
    LastSeparatorNone(body + end, at + |separator|);
    LastSeparatorCons(separator, body + end, at);
  }

  /** The message above its original. */
  function HeadText(written: string, signature: string, quoted: string): string {
    written + SignatureBlock(signature) + (if quoted == "" then "" else "\n\n")
  }

  lemma HeadPieces(written: string, signature: string, quoted: string)
    requires !Blank(signature)
    ensures Pieces(HeadText(written, signature, quoted)) == Head(written, signature, quoted)
  {
    var signed := Signed(written, signature, quoted);
    var head := Head(written, signature, quoted);
    SignedPieces(written, signature, quoted);
    PiecesCut(signed);
    PiecesCut(quoted);
    CutSplit(Pieces(signed), |head|);
    assert Pieces(signed)[..|head|] == head && Pieces(signed)[|head|..] == Pieces(quoted);
    assert signed == HeadText(written, signature, quoted) + quoted;
    SameTail(Flat(head), HeadText(written, signature, quoted), quoted);
  }

  lemma SameTail(a: string, b: string, tail: string)
    requires a + tail == b + tail
    ensures a == b
  {
    assert |a| == |b|;
    assert a == (a + tail)[..|a|] && b == (b + tail)[..|b|];
  }

  /** The signature is found where it was put. */
  lemma SignatureOfHead(written: string, signature: string, quoted: string)
    requires !Blank(signature) && NoSeparator(signature)
    ensures SignatureAt(HeadText(written, signature, quoted), signature) == Some(|written| + 2)
  {
    hide Pieces, TrimAll, TrimEnd, Flat, LastSeparator, Confirmed, HeadText, SignatureBlock, Body;
    var end := if quoted == "" then [] else ["\n"];
    HeadPieces(written, signature, quoted);
    BodyLines(signature, quoted);
    BlankFeed();
    SeparatorFeed();
    UnseparatedLines(Pieces(Body(signature, quoted)));
    SeparatorOfLayout(Pieces(written + "\n"), "\n", "-- \n", Pieces(Body(signature, quoted)), end);
    PiecesCut(written + "\n");
    ConfirmedHead(written, signature, quoted);
  }

  lemma ConfirmedHead(written: string, signature: string, quoted: string)
    requires !Blank(signature)
    ensures Confirmed(HeadText(written, signature, quoted), |written| + 2, signature) == Some(|written| + 2)
  {
    hide TrimEnd, LineEnd, TrimmedLines, Join;
    var head := HeadText(written, signature, quoted);
    var at := |written| + 2;
    var text := TrimEnd(signature);
    var pad := if quoted == "" then "" else "\n\n";
    assert head[at..] == "-- \n" + (text + pad);
    assert head[at..][..3] == "-- ";
    LineEndUnique(head[at..], 3);
    assert head[at + 3 + 1..] == text + pad;
    EndsVisible(signature);
    TrimEndIs(signature);
    BareAppend(text, pad);
    BareAppend(text, signature[|text|..]);
    assert signature == text + signature[|text|..];
  }

  // ---- The laws

  lemma WithIsSigned(markdown: string, signature: string, tail: string)
    requires !Blank(signature)
    ensures WithSignature(markdown, signature, tail)
         == Signed(Cut(markdown, tail).0, signature, Cut(markdown, tail).1)
  {
  }

  lemma {:induction false} NoCandidate(s: Scan, lines: seq<string>, tail: string)
    requires s.candidate.None?
    ensures After(s, lines, [], tail).candidate.None?
    decreases |lines|
  {
    hide TrimEnd, QuoteLine, Blank, EndsWith;
    if lines != [] {
      NoCandidate(Step(s, lines[0], [], tail), lines[1..], tail);
    }
  }

  /** A message put together of words and an original under its attribution line is cut
      into just these. */
  lemma CutAgain(written: string, quoted: string, tail: string, k: nat)
    requires (written != "" ==> !White(written[|written| - 1])) && Plain(Pieces(written + "\n"))
    requires k > 0 && OriginalWith(Pieces(quoted), tail, k)
    ensures Cut(written + "\n\n" + quoted, tail) == (written, quoted)
  {
    BlankFeed();
    hide Pieces, TrimEnd, QuoteLine, Plain, Blank, White, After, Flat, OriginalWith, EndsWith;
    var top, below, markdown := Pieces(written + "\n"), Pieces(quoted), written + "\n\n" + quoted;
    assert markdown == (written + "\n") + ("\n" + quoted);
    PiecesAppend(written + "\n", "\n" + quoted);
    FirstPiece("\n", quoted, 0);
    NothingExpected();
    PiecesCut(written + "\n");
    assert top + (["\n"] + below) == top + ["\n"] + below;
    AfterAppend(START, top + ["\n"], below, [], tail);
    AfterLast(START, top, "\n", [], tail);
    ScanPlain(START, top, [], tail);
    ScanAt(START, top, [], tail);
    NoCandidate(START, top, tail);
    NoCandidate(START, top + ["\n"], tail);
    ScanOriginal(After(START, top + ["\n"], [], tail), below, [], tail, k);
    EndTrimmed(written, quoted);
  }

  lemma EndTrimmed(written: string, quoted: string)
    requires written != "" ==> !White(written[|written| - 1])
    ensures var markdown := written + "\n\n" + quoted;
            TrimEnd(markdown[..|written| + 2]) == written && markdown[|written| + 2..] == quoted
  {
    var markdown := written + "\n\n" + quoted;
    assert markdown[..|written| + 2] == written + "\n\n";
    assert (written + "\n\n")[|written|..] == "\n\n";
    TrimEndUnique(written + "\n\n", written);
  }

  /** A signature goes under the words of a reply and above what it answers. */
  lemma SignedOver(written: string, signature: string, quoted: string, tail: string, k: nat)
    requires !Blank(signature)
    requires (written != "" ==> !White(written[|written| - 1])) && Plain(Pieces(written + "\n"))
    requires k > 0 && OriginalWith(Pieces(quoted), tail, k)
    ensures WithSignature(written + "\n\n" + quoted, signature, tail)
         == written + "\n\n-- \n" + TrimEnd(signature) + "\n\n" + quoted
  {
    hide Cut, TrimEnd, Pieces, Plain, OriginalWith, White;
    assert quoted != "" by {
      QuotedSome(quoted, tail, k);
    }
    CutAgain(written, quoted, tail, k);
  }

  lemma QuotedSome(quoted: string, tail: string, k: nat)
    requires OriginalWith(Pieces(quoted), tail, k)
    ensures quoted != ""
  {
  }

  /** One reply, signed. */
  lemma SignedReply()
    ensures WithSignature("Monday works." + "\n\n" + "Ann wrote:\n> hi", "Dana", "wrote:")
            == "Monday works." + "\n\n-- \n" + "Dana" + "\n\n" + "Ann wrote:\n> hi"
  {
    var words := "Monday works.";
    assert words[12] == '.' && "Dana"[3] == 'a' && !White('.') && !White('a');
    hide WithSignature, TrimEnd, Pieces, Plain, OriginalWith, White;
    TrimEndUnique("Dana", "Dana");
    ReplyWords();
    ReplyQuoted();
    SignedOver(words, "Dana", "Ann wrote:\n> hi", "wrote:", 1);
  }

  lemma ReplyWords()
    ensures Plain(Pieces("Monday works." + "\n"))
  {
    hide TrimStart;
    var line := "Monday works." + "\n";
    FirstPiece(line, "", 13);
    assert line + "" == line && Pieces(line) == [line];
    assert line[0] == 'M';
    VisibleFirst(line);
  }

  lemma VisibleFirst(line: string)
    requires line != "" && !White(line[0])
    ensures TrimStart(line) == line
  {
  }

  lemma ReplyQuoted()
    ensures OriginalWith(Pieces("Ann wrote:\n> hi"), "wrote:", 1)
  {
    hide OriginalWith, Pieces, TrimEnd, QuoteLine, Blank, EndsWith;
    ReplyPieces();
    ReplyAttribution();
    assert QuoteLine("> hi") by {
      QuoteFirst("> hi");
    }
    TwoLines("Ann wrote:\n", "> hi", "wrote:");
  }

  lemma QuoteFirst(line: string)
    requires line != "" && line[0] == '>'
    ensures QuoteLine(line)
  {
  }

  lemma TwoLines(first: string, second: string, tail: string)
    requires !QuoteLine(first) && !Blank(first) && EndsWith(TrimEnd(first), tail) && QuoteLine(second)
    ensures OriginalWith([first, second], tail, 1)
  {
    hide QuoteLine, Blank, EndsWith, TrimEnd;
    assert [first, second][..1] == [first];
  }

  lemma ReplyAttribution()
    ensures var line := "Ann wrote:\n"; !QuoteLine(line) && !Blank(line) && EndsWith(TrimEnd(line), "wrote:")
  {
    var line, text := "Ann wrote:\n", "Ann wrote:";
    assert line[0] == 'A';
    VisibleFirst(line);
    assert line == text + "\n";
    TrimEndAppend(text, "\n");
    assert text[9] == ':';
    TrimEndUnique(text, text);
    assert text[4..] == "wrote:";
  }

  lemma ReplyPieces()
    ensures Pieces("Ann wrote:\n> hi") == ["Ann wrote:\n", "> hi"]
  {
    var first, second := "Ann wrote:\n", "> hi";
    LineEndUnique(second, 4);
    assert Pieces(second) == [second];
    assert "Ann wrote:\n> hi" == first + second;
    hide Pieces;
    FirstPiece(first, second, 10);
  }

  /** Putting a signature in replaces only blank text between the writer's words and the
      original: what stands above and below it is what stood there. */
  lemma WithKeeps(markdown: string, signature: string, tail: string)
    returns (written: string, gap: string, quoted: string)
    requires !Blank(signature)
    ensures markdown == written + gap + quoted && Blank(gap)
    ensures (written != "" ==> !White(written[|written| - 1])) && Plain(Pieces(written + "\n"))
    ensures quoted != "" ==> Original(Pieces(quoted), tail)
    ensures WithSignature(markdown, signature, tail)
         == written + "\n\n-- \n" + TrimEnd(signature) + (if quoted == "" then "" else "\n\n" + quoted)
  {
    hide Cut, Pieces, TrimEnd, Plain, Original, Blank, White;
    CutParts(markdown, tail);
    WithIsSigned(markdown, signature, tail);
    written, quoted := Cut(markdown, tail).0, Cut(markdown, tail).1;
    gap := markdown[|written|..|markdown| - |quoted|];
  }

  /** What swapping leaves: the words, the new signature if there is one, the original. */
  function Swapped(written: string, wanted: string, quoted: string): string {
    written + (if Blank(wanted) then "" else SignatureBlock(wanted)) + (if quoted == "" then "" else "\n\n") + quoted
  }

  /** Whatever the writer's words are in which no quote is found, an untouched signature under
      them is swapped: only the line feeds at their end go with it. */
  lemma RestyleSigned(written: string, was: string, quoted: string, wanted: string, tail: string)
    requires !Blank(was) && NoSeparator(was) && !EndsWith("--", tail)
    requires QuoteAt(written, was, tail).None? && (quoted != "" ==> Original(Pieces(quoted), tail))
    ensures RestyleSignature(Signed(written, was, quoted), was, wanted, tail)
         == Swapped(TrimLineFeeds(written), wanted, quoted)
  {
    hide QuoteAt, SignatureAt, TrimLineFeeds, Pieces, Original, NoSeparator, Signed, HeadText;
    QuoteOfSigned(written, was, quoted, tail);
    SignatureOfHead(written, was, quoted);
    SignedCuts(written, was, quoted);
    TrimTwoFeeds(written);
  }

  lemma TrimTwoFeeds(s: string)
    ensures TrimLineFeeds(s + "\n\n") == TrimLineFeeds(s)
  {
    assert (s + "\n\n")[..|s| + 1] == s + "\n" && (s + "\n")[..|s|] == s;
    assert TrimLineFeeds(s + "\n\n") == TrimLineFeeds(s + "\n");
  }

  lemma SignedCuts(written: string, was: string, quoted: string)
    ensures var signed, head := Signed(written, was, quoted), HeadText(written, was, quoted);
            && signed == head + quoted && |head| <= |signed| && signed[..|head|] == head && signed[|head|..] == quoted
            && |written| + 2 <= |head| && signed[..|written| + 2] == written + "\n\n"
            && |head| == |written| + |SignatureBlock(was)| + (if quoted == "" then 0 else 2)
  {
    var signed, head := Signed(written, was, quoted), HeadText(written, was, quoted);
    assert signed == head + quoted;
    assert head[..|written| + 2] == written + "\n\n";
  }

  /** A signature that was put in and left untouched is taken out whole: what stays
      is the writer's words, the new signature if there is one, and the original. */
  lemma SwapSigned(markdown: string, was: string, wanted: string, tail: string)
    requires !Blank(was) && NoSeparator(was) && !EndsWith("--", tail)
    ensures RestyleSignature(WithSignature(markdown, was, tail), was, wanted, tail)
         == Swapped(Cut(markdown, tail).0, wanted, Cut(markdown, tail).1)
  {
    CutParts(markdown, tail);
    WithIsSigned(markdown, was, tail);
    var (written, quoted) := Cut(markdown, tail);
    PlainUnquoted(written, was, tail);
    TrimLineFeedsAppend(written, "");
    assert written + "" == written;
    RestyleSigned(written, was, quoted, wanted, tail);
  }

  /** Swapping a signature is having put the new one in: nothing of the old one stays. */
  lemma SwapIsInsert(markdown: string, was: string, wanted: string, tail: string)
    requires !Blank(was) && !Blank(wanted) && NoSeparator(was) && !EndsWith("--", tail)
    ensures RestyleSignature(WithSignature(markdown, was, tail), was, wanted, tail)
         == WithSignature(markdown, wanted, tail)
  {
    SwapSigned(markdown, was, wanted, tail);
    WithIsSigned(markdown, wanted, tail);
  }

  /** Picking another address and coming back leaves the message as it was. */
  lemma SwapThereAndBack(markdown: string, was: string, wanted: string, tail: string)
    requires !Blank(was) && !Blank(wanted) && NoSeparator(was) && NoSeparator(wanted) && !EndsWith("--", tail)
    ensures var signed := WithSignature(markdown, was, tail);
            RestyleSignature(RestyleSignature(signed, was, wanted, tail), wanted, was, tail) == signed
  {
    SwapIsInsert(markdown, was, wanted, tail);
    SwapIsInsert(markdown, wanted, was, tail);
  }
}
