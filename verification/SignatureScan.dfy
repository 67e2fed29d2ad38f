/** How the scan for the quoted original passes the separator line, and a signature that
    opens with a separator line of its own. */
module SignatureScan {
  import opened Text
  import opened Signature

  lemma {:induction false} TrimmedAt(lines: seq<string>, i: nat)
    requires i < |lines|
    ensures TrimAll(lines)[i] == TrimEnd(lines[i]) && TrimAll(lines)[i..] == TrimAll(lines[i..])
  {
    hide TrimEnd;
    if i > 0 {
      TrimmedAt(lines[1..], i - 1);
      assert TrimAll(lines)[i..] == TrimAll(lines[1..])[i - 1..];
      assert lines[1..][i - 1..] == lines[i..];
    }
  }

  // ---- The separator line

  /** A quote found after `floor` starts no higher. */
  lemma {:induction false} ScanFloor(s: Scan, lines: seq<string>, expected: seq<string>, tail: string, floor: nat)
    requires s.at >= floor && (s.attribution.Some? ==> s.attribution.value >= floor)
    requires s.found.Some? ==> s.found.value >= floor
    ensures var r := After(s, lines, expected, tail).found; r.Some? ==> r.value >= floor
    decreases |lines|
  {
    if lines != [] {
      ScanFloor(Step(s, lines[0], expected, tail), lines[1..], expected, tail, floor);
    }
  }

  /** Past the separator line the scan has found nothing, and no attribution. */
  lemma PastSeparator(top: seq<string>, expected: seq<string>, tail: string)
    requires After(START, top, expected, tail).found.None? && !EndsWith("--", tail)
    ensures var s := After(START, top + ["\n", "-- \n"], expected, tail);
            s.found.None? && s.attribution.None? && s.at == |Flat(top)| + 5
  {
    hide EndsWith, Flat, QuoteLine, Blank, TrimEnd;
    BlankFeed();
    SeparatorFeed();
    var s0 := After(START, top, expected, tail);
    ScanAt(START, top, expected, tail);
    AfterAppend(START, top, ["\n", "-- \n"], expected, tail);
    AfterTwo(s0, "\n", "-- \n", expected, tail);
    var s1 := Step(s0, "\n", expected, tail);
    assert s1.found.None? && s1.at == |Flat(top)| + 1;
  }

  function Above(written: string): string {
    written + "\n\n-- \n"
  }

  lemma AbovePieces(written: string, under: string)
    ensures Pieces(Above(written) + under) == Pieces(written + "\n") + ["\n", "-- \n"] + Pieces(under)
  {
    hide Pieces;
    assert Above(written) + under == (written + "\n") + ("\n" + ("-- \n" + under));
    LayoutPieces(written + "\n", "\n", "-- \n", under);
  }

  /** Where the scan stands under the separator of words in which nothing is found. */
  lemma UnderWords(written: string, signature: string, tail: string)
    requires !EndsWith("--", tail) && QuoteAt(written, signature, tail).None?
    ensures var s := After(START, Pieces(written + "\n") + ["\n", "-- \n"], Expected(signature), tail);
            s.found.None? && s.attribution.None? && s.at == |written| + 6
  {
    hide Pieces, Expected, EndsWith, After, Flat;
    FeedFound(written, Expected(signature), tail);
    PiecesCut(written + "\n");
    PastSeparator(Pieces(written + "\n"), Expected(signature), tail);
  }

  /** Nothing above what stands under the separator is taken for a quote. */
  lemma QuoteBelowSeparator(written: string, under: string, signature: string, tail: string)
    requires !EndsWith("--", tail) && QuoteAt(written, signature, tail).None?
    ensures var found := QuoteAt(Above(written) + under, signature, tail);
            found.Some? ==> found.value >= |written| + 6
  {
    hide Pieces, Expected, EndsWith, After, Flat, Above;
    var head, expected := Pieces(written + "\n") + ["\n", "-- \n"], Expected(signature);
    AbovePieces(written, under);
    UnderWords(written, signature, tail);
    AfterAppend(START, head, Pieces(under), expected, tail);
    ScanFloor(After(START, head, expected, tail), Pieces(under), expected, tail, |written| + 6);
  }

  // ---- A signature that opens with a separator line

  /** The only separator line of a signature, nothing visible above it. */
  ghost predicate Opens(expected: seq<string>, b: nat) {
    && b < |expected| && expected[b] == "--"
    && (forall i :: 0 <= i < b ==> Blank(expected[i]))
    && (forall i :: b < i < |expected| ==> expected[i] != "--")
  }

  /** A scan that has not come past the signature's separator line, its attribution above it. */
  ghost predicate Before(s: Scan, b: nat) {
    && (s.candidate.Some? ==> s.candidate.value <= b)
    && (s.attribution.Some? ==> s.attribution.value < s.at)
  }

  lemma StepBefore(s: Scan, line: string, expected: seq<string>, tail: string, b: nat)
    requires s.found.None? && Before(s, b) && Opens(expected, b) && TrimEnd(line) != "--"
    ensures Before(Step(s, line, expected, tail), b)
  {
    hide TrimEnd, QuoteLine, EndsWith;
    assert line == "" ==> Blank(line);
  }

  lemma {:induction false} ScanBefore(s: Scan, lines: seq<string>, expected: seq<string>, tail: string, b: nat)
    requires s.found.None? && Before(s, b) && Opens(expected, b) && Unseparated(lines)
    ensures var r := After(s, lines, expected, tail); r.found.None? ==> Before(r, b)
    decreases |lines|
  {
    hide TrimEnd, QuoteLine, EndsWith, Opens, Before, Blank;
    if lines != [] {
      var next := Step(s, lines[0], expected, tail);
      StepBefore(s, lines[0], expected, tail, b);
      if next.found.Some? {
        Settled(next, lines[1..], expected, tail);
      } else {
        assert forall i :: 0 <= i < |lines[1..]| ==> lines[1..][i] == lines[i + 1];
        ScanBefore(next, lines[1..], expected, tail, b);
      }
    }
  }

  /** Blank lines above the signature's separator line hold no quote and no attribution. */
  lemma {:induction false} ScanTopBlanks(s: Scan, lines: seq<string>, expected: seq<string>, tail: string)
    requires s.found.None? && s.attribution.None?
    requires forall i :: 0 <= i < |lines| ==> Blank(lines[i])
    ensures var r := After(s, lines, expected, tail); r.found.None? && r.attribution.None?
    decreases |lines|
  {
    hide TrimEnd, EndsWith;
    if lines != [] {
      TrimStartIs(lines[0]);
      assert forall i :: 0 <= i < |lines[1..]| ==> lines[1..][i] == lines[i + 1];
      ScanTopBlanks(Step(s, lines[0], expected, tail), lines[1..], expected, tail);
    }
  }

  /** Where the scan may stand under such a signature: in step with it, or not past its
      separator line. */
  ghost predicate Through(s: Scan, expected: seq<string>, b: nat) {
    (s.candidate == Some(|expected|) && s.attribution.None?) || Before(s, b)
  }

  /** At its separator line the scan falls in step with such a signature, or starts over. */
  lemma StepOpening(s: Scan, line: string, expected: seq<string>, tail: string, b: nat)
    requires s.found.None? && s.attribution.None? && Opens(expected, b) && TrimEnd(line) == "--"
    requires !EndsWith("--", tail) && !QuoteLine(line)
    ensures var r := Step(s, line, expected, tail);
            r.found.None? && r.attribution.None? && (r.candidate == Some(b + 1) || r.candidate == Some(0))
  {
    hide TrimEnd, QuoteLine, EndsWith;
    if InSignature(s, "--", expected) {
      assert s.candidate.value == b by {
        assert !Blank("--") by {
          assert "--"[0] == '-';
        }
      }
    }
  }

  lemma ScanOpening(s: Scan, lines: seq<string>, expected: seq<string>, tail: string, b: nat)
    requires s.found.None? && s.attribution.None? && Opens(expected, b) && TrimAll(lines) == expected
    requires !EndsWith("--", tail) && !Blank(lines[|lines| - 1])
    ensures var r := After(s, lines, expected, tail); r.found.None? ==> Through(r, expected, b)
  {
    hide TrimEnd, TrimAll, QuoteLine, EndsWith, Blank, Step, Before;
    var above, under := lines[..b], lines[b + 1..];
    OpeningLines(lines, expected, b);
    ScanTopBlanks(s, above, expected, tail);
    var s0 := After(s, above, expected, tail);
    StepOpening(s0, lines[b], expected, tail, b);
    var s1 := Step(s0, lines[b], expected, tail);
    AfterLast(s, above, lines[b], expected, tail);
    AfterAppend(s, above + [lines[b]], under, expected, tail);
    assert lines == above + [lines[b]] + under;
    if s1.candidate == Some(b + 1) {
      ScanSignature(s1, under, expected, tail);
      assert under == [] ==> After(s1, under, expected, tail) == s1;
    } else {
      StartsOver(s1, b);
      ScanBefore(s1, under, expected, tail, b);
    }
  }

  lemma StartsOver(s: Scan, b: nat)
    requires s.candidate == Some(0) && s.attribution.None?
    ensures Before(s, b)
  {
  }

  lemma OpeningLines(lines: seq<string>, expected: seq<string>, b: nat)
    requires TrimAll(lines) == expected && Opens(expected, b)
    ensures forall i :: 0 <= i < b ==> Blank(lines[..b][i])
    ensures TrimEnd(lines[b]) == "--" && !QuoteLine(lines[b]) && Unseparated(lines[b + 1..])
    ensures TrimAll(lines[b + 1..]) == expected[b + 1..]
  {
    hide TrimEnd, TrimAll, QuoteLine, Blank;
    forall i | 0 <= i < |lines|
      ensures TrimEnd(lines[i]) == expected[i] && Blank(lines[i]) == Blank(expected[i])
    {
      TrimmedAt(lines, i);
      BlankTrimmed(lines[i]);
    }
    DashesPlain(lines[b]);
    if b + 1 < |lines| {
      TrimmedAt(lines, b + 1);
    } else {
      assert lines[b + 1..] == [] && expected[b + 1..] == [];
    }
    var under := lines[b + 1..];
    assert forall i :: 0 <= i < |under| ==> under[i] == lines[b + 1 + i];
  }

  lemma BlankTrimmed(line: string)
    ensures Blank(TrimEnd(line)) == Blank(line)
  {
    var t := TrimEnd(line);
    TrimEndIs(line);
    assert line == t + line[|t|..];
    assert forall i :: 0 <= i < |t| ==> t[i] == line[i];
  }

  lemma DashesPlain(line: string)
    requires TrimEnd(line) == "--"
    ensures !QuoteLine(line)
  {
    TrimEndIs(line);
    assert line[0] == '-';
  }

  // ---- The original under it

  lemma NotYet(s: Scan, line: string, expected: seq<string>, b: nat)
    requires Before(s, b) && Opens(expected, b) && !Blank(line) && TrimEnd(line) != "--"
    ensures !InSignature(s, TrimEnd(line), expected)
  {
    hide Blank, TrimEnd;
    BlankTrimmed(line);
  }

  lemma QuoteVisible(line: string)
    requires QuoteLine(line)
    ensures !Blank(line) && TrimEnd(line) != "--"
  {
    TrimStartIs(line);
    assert White('>') == false;
    var n := |line| - |TrimStart(line)|;
    assert line[n] == '>';
    if TrimEnd(line) == "--" {
      DashesPlain(line);
    }
  }

  lemma {:induction false} BlanksKeep(s: Scan, lines: seq<string>, expected: seq<string>, tail: string)
    requires s.found.None? && Plain(lines) && forall i :: 0 <= i < |lines| ==> Blank(lines[i])
    ensures After(s, lines, expected, tail).attribution == s.attribution
    decreases |lines|
  {
    hide QuoteLine, TrimEnd, Blank, EndsWith;
    if lines != [] {
      assert forall i :: 0 <= i < |lines[1..]| ==> lines[1..][i] == lines[i + 1];
      BlanksKeep(Step(s, lines[0], expected, tail), lines[1..], expected, tail);
    }
  }

  /** Past an attribution line and blank lines the scan holds that line. */
  lemma AttributionKept(s: Scan, lines: seq<string>, expected: seq<string>, tail: string)
    requires s.found.None? && lines != [] && Plain(lines) && !Blank(lines[0]) && EndsWith(TrimEnd(lines[0]), tail)
    requires !InSignature(s, TrimEnd(lines[0]), expected)
    requires forall i :: 0 < i < |lines| ==> Blank(lines[i])
    ensures After(s, lines, expected, tail).attribution == Some(s.at)
  {
    hide QuoteLine, TrimEnd, Blank, EndsWith;
    assert forall i :: 0 <= i < |lines[1..]| ==> lines[1..][i] == lines[i + 1];
    BlanksKeep(Step(s, lines[0], expected, tail), lines[1..], expected, tail);
  }

  lemma UnseparatedAbove(lines: seq<string>, tail: string, k: nat)
    requires OriginalWith(lines, tail, k) && !EndsWith("--", tail)
    ensures Unseparated(lines[..k])
  {
    hide QuoteLine, Blank, EndsWith;
    forall i | 0 <= i < k
      ensures TrimEnd(lines[..k][i]) != "--"
    {
      if i > 0 {
        TrimEndUnique(lines[i], "") by {
          assert Blank(lines[i]);
        }
      }
    }
  }

  /** Not past the signature's separator line, the scan finds an original where it starts, or
      at the attribution it brought along. */
  lemma ScanUnder(s: Scan, lines: seq<string>, expected: seq<string>, tail: string, k: nat, b: nat)
    requires s.found.None? && Before(s, b) && Opens(expected, b) && !EndsWith("--", tail)
    requires OriginalWith(lines, tail, k)
    ensures var r := After(s, lines, expected, tail).found; r.Some? && (r == s.attribution || r.value == s.at)
  {
    hide QuoteLine, TrimEnd, Blank, EndsWith, Before, Opens;
    var above, below := lines[..k], lines[k..];
    assert lines == above + below;
    AfterAppend(s, above, below, expected, tail);
    ScanPlain(s, above, expected, tail);
    UnseparatedAbove(lines, tail, k);
    ScanBefore(s, above, expected, tail, b);
    var there := After(s, above, expected, tail);
    if k > 0 {
      assert above[0] == lines[0] && TrimEnd(above[0]) != "--";
      NotYet(s, lines[0], expected, b);
      assert forall i :: 0 < i < k ==> above[i] == lines[i];
      AttributionKept(s, above, expected, tail);
    } else {
      assert above == [];
    }
    QuoteVisible(lines[k]);
    NotYet(there, lines[k], expected, b);
    Settled(Step(there, lines[k], expected, tail), below[1..], expected, tail);
  }

  lemma PastBody(s: Scan, below: seq<string>, expected: seq<string>, tail: string, k: nat, b: nat)
    requires s.found.None? && Through(s, expected, b) && Opens(expected, b)
    requires OriginalWith(below, tail, k) && !EndsWith("--", tail)
    ensures var r := After(s, ["\n"] + below, expected, tail).found; r.Some? && (r.value < s.at || r.value == s.at + 1)
  {
    hide QuoteLine, Blank, After, OriginalWith, EndsWith, TrimEnd, Opens;
    BlankFeed();
    var next := Step(s, "\n", expected, tail);
    OneMore(s, "\n", below, expected, tail);
    if s.candidate == Some(|expected|) && s.attribution.None? {
      ScanOriginal(next, below, expected, tail, k);
    } else {
      StepBefore(s, "\n", expected, tail, b);
      ScanUnder(next, below, expected, tail, k, b);
    }
  }

  lemma OneMore(s: Scan, line: string, below: seq<string>, expected: seq<string>, tail: string)
    ensures After(s, [line] + below, expected, tail) == After(Step(s, line, expected, tail), below, expected, tail)
  {
    assert ([line] + below)[1..] == below;
  }

  /** Under the separator line the scan finds a quote among such a signature's lines, or where
      the original starts. */
  lemma ScanMessage(s: Scan, body: seq<string>, below: seq<string>, expected: seq<string>, tail: string,
                    k: nat, b: nat)
    requires s.found.None? && s.attribution.None? && !EndsWith("--", tail)
    requires TrimAll(body) == expected && Opens(expected, b) && !Blank(body[|body| - 1])
    requires OriginalWith(below, tail, k)
    ensures var r, base := After(s, body + ["\n"] + below, expected, tail).found, s.at + |Flat(body)|;
            r.Some? && (r.value < base || r.value == base + 1)
  {
    hide TrimEnd, TrimAll, EndsWith, QuoteLine, Blank, After, Opens, Flat, OriginalWith, Through;
    assert body + ["\n"] + below == body + (["\n"] + below);
    AfterAppend(s, body, ["\n"] + below, expected, tail);
    ScanOpening(s, body, expected, tail, b);
    var r := After(s, body, expected, tail);
    if r.found.Some? {
      ScanBounds(s, body, expected, tail);
      Settled(r, ["\n"] + below, expected, tail);
    } else {
      ScanAt(s, body, expected, tail);
      PastBody(r, below, expected, tail, k, b);
    }
  }

  lemma BodyLength(signature: string, quoted: string)
    requires quoted != ""
    ensures |Body(signature, quoted)| == |TrimEnd(signature)| + 1
  {
  }

  lemma HeadRegroup<T>(head: seq<T>, body: seq<T>, end: seq<T>, below: seq<T>)
    ensures head + body + end + below == head + (body + end + below)
  {
  }

  /** In a message whose signature opens with a separator line of its own the scan finds a quote
      inside the signature, or exactly where the original starts. */
  lemma QuoteOfOpening(written: string, signature: string, quoted: string, tail: string, b: nat)
    requires !Blank(signature) && Opens(Expected(signature), b) && !EndsWith("--", tail)
    requires QuoteAt(written, signature, tail).None? && quoted != "" && Original(Pieces(quoted), tail)
    ensures var found := QuoteAt(Signed(written, signature, quoted), signature, tail);
            var base := |written| + 6 + |TrimEnd(signature)|;
            found.Some? && (found.value <= base || found.value == base + 2)
  {
    hide Pieces, Expected, TrimEnd, TrimAll, EndsWith, Signed, Blank, After, Body, Flat, OriginalWith, Opens;
    var expected := Expected(signature);
    var body, below := Pieces(Body(signature, quoted)), Pieces(quoted);
    var head := Pieces(written + "\n") + ["\n", "-- \n"];
    SignedPieces(written, signature, quoted);
    HeadRegroup(head, body, ["\n"], below);
    PiecesCut(Body(signature, quoted));
    BodyLength(signature, quoted);
    BodyLines(signature, quoted);
    UnderWords(written, signature, tail);
    AfterAppend(START, head, body + ["\n"] + below, expected, tail);
    assert Original(below, tail);
    var k: nat :| OriginalWith(below, tail, k);
    ScanMessage(After(START, head, expected, tail), body, below, expected, tail, k, b);
  }
}
