/** What becomes of a signature that holds a separator line of its own: it is never found
    again, so swapping it leaves the message as it was. */
module SignatureLimits {
  import opened Text
  import opened Signature
  import opened InnerSeparators
  import opened SignatureScan

  /** Comparing two texts without what trails their lines compares their visible characters. */
  lemma BareVisible(text: string)
    ensures Visible(Bare(text)) == Visible(text)
  {
    hide Visible, Pieces, TrimAll, Join, Trim, White, Blank;
    var pieces := Pieces(text);
    PiecesCut(text);
    TrimmedPieces(text);
    var joined := Join(TrimAll(pieces), "\n");
    TrimVisible(joined);
    JoinedVisible(pieces);
  }

  lemma TrimVisible(s: string)
    ensures Visible(Trim(s)) == Visible(s)
  {
    hide Visible, Trim, White, Blank;
    var from, to := TrimIs(s);
    assert s == s[..from] + s[from..to] + s[to..];
    VisibleAppend(s[..from] + s[from..to], s[to..]);
    VisibleAppend(s[..from], s[from..to]);
    VisibleBlank(s[..from]);
    VisibleBlank(s[to..]);
  }

  lemma TrimEndVisible(s: string)
    ensures Visible(TrimEnd(s)) == Visible(s)
  {
    hide Visible, White, Blank;
    TrimEndIs(s);
    var t := TrimEnd(s);
    assert s == t + s[|t|..];
    VisibleAppend(t, s[|t|..]);
    VisibleBlank(s[|t|..]);
  }

  lemma {:induction false} JoinedVisible(pieces: seq<string>)
    ensures Visible(Join(TrimAll(pieces), "\n")) == Visible(Flat(pieces))
  {
    hide Visible, TrimEnd;
    if pieces == [] {
      VisibleBlank("");
    } else {
      var first, rest := TrimEnd(pieces[0]), pieces[1..];
      JoinedVisible(rest);
      TrimEndVisible(pieces[0]);
      VisibleAppend(pieces[0], Flat(rest));
      if rest == [] {
        VisibleBlank("");
        assert Flat(rest) == "" && Join(TrimAll(pieces), "\n") == first;
        assert Visible(pieces[0]) + "" == Visible(pieces[0]);
      } else {
        var below := Join(TrimAll(rest), "\n");
        assert Join(TrimAll(pieces), "\n") == first + "\n" + below;
        VisibleAppend(first + "\n", below);
        VisibleAppend(first, "\n");
        VisibleBlank("\n");
      }
    }
  }

  /** Where a separator line starts there is a visible character. */
  lemma {:induction false} SeparatorVisible(lines: seq<string>, at: nat)
    ensures var found := LastSeparator(lines, at);
            found.Some? ==> found.value - at < |Flat(lines)| && Flat(lines)[found.value - at] == '-'
  {
    hide TrimEnd, White;
    if lines != [] {
      SeparatorVisible(lines[1..], at + |lines[0]|);
      TrimEndIs(lines[0]);
    }
  }

  lemma {:induction false} SeparatorNone(lines: seq<string>, at: nat)
    requires LastSeparator(lines, at) == None
    ensures "--" !in TrimAll(lines)
  {
    hide TrimEnd;
    if lines != [] {
      SeparatorNone(lines[1..], at + |lines[0]|);
    }
  }

  /** Text before the end of a text has fewer visible characters when it ends on one. */
  lemma FewerVisible(text: string, n: nat, from: nat)
    requires from <= n <= |text|
    requires (n < |text| && !White(text[|text| - 1])) || (exists k :: 0 <= k < from && !White(text[k]))
    ensures |Visible(text[from..n])| < |Visible(text)|
  {
    hide White;
    assert text == text[..from] + text[from..n] + text[n..];
    VisibleAppend(text[..from] + text[from..n], text[n..]);
    VisibleAppend(text[..from], text[from..n]);
    if n < |text| && !White(text[|text| - 1]) {
      VisibleOne(text[n..], |text| - 1 - n);
    } else {
      var k :| 0 <= k < from && !White(text[k]);
      VisibleOne(text[..from], k);
    }
  }

  lemma VisibleOne(s: string, k: nat)
    requires k < |s| && !White(s[k])
    ensures |Visible(s)| > 0
  {
    hide White;
    assert s == s[..k] + (s[k..k + 1] + s[k + 1..]);
    VisibleAppend(s[..k], s[k..k + 1] + s[k + 1..]);
    VisibleAppend(s[k..k + 1], s[k + 1..]);
    assert s[k..k + 1] == [s[k]] && [s[k]][1..] == "";
    assert Visible([s[k]]) == [s[k]] + Visible("");
  }

  /** The last separator over what stands under the first one is one of its own lines, or
      the first. */
  lemma SeparatorOver(written: string, under: string)
    ensures LastSeparator(Pieces(Above(written) + under), 0)
            == var inner := LastSeparator(Pieces(under), |written| + 6);
               if inner.Some? then inner else Some(|written| + 2)
  {
    hide Pieces, LastSeparator, TrimEnd, Flat;
    var top := Pieces(written + "\n");
    AbovePieces(written, under);
    PiecesCut(written + "\n");
    LastSeparatorAppend(top + ["\n", "-- \n"], Pieces(under), 0);
    FlatTop(top, written + "\n");
    TopSeparator(top, |written|);
  }

  /** What follows a visible character of a text, blanks included, is less than all of it. */
  lemma LessUnder(above: string, text: string, cut: nat, pad: string, at: nat, from: nat)
    requires cut <= |text| && |above| <= at < |above| + cut && text[at - |above|] == '-'
    requires at < from <= |above| + cut + |pad| && Blank(pad)
    ensures |Visible((above + (text[..cut] + pad))[from..])| < |Visible(text)|
  {
    assert !White('-');
    hide White, Visible;
    var head := above + (text[..cut] + pad);
    if from <= |above| + cut {
      assert head[from..] == text[from - |above|..cut] + pad;
      VisibleAppend(text[from - |above|..cut], pad);
      VisibleBlank(pad);
      FewerVisible(text, cut, from - |above|);
    } else {
      assert head[from..] == pad[from - |above| - cut..];
      VisibleBlank(head[from..]);
      VisibleOne(text, at - |above|);
    }
  }

  /** A beginning of the signature, all of it only when it holds a separator line of its own,
      and then with blanks under it. */
  ghost predicate Padded(signature: string, cut: nat, pad: string) {
    var text := TrimEnd(signature);
    && Blank(pad)
    && ((cut < |text| && pad == "") || (cut == |text| && !NoSeparator(signature)))
  }

  lemma {:induction false} SeparatorPadded(text: string, pad: string)
    requires text != "" && Blank(pad) && "--" in TrimmedLines(text)
    ensures "--" in TrimmedLines(text + pad)
    decreases |pad|
  {
    hide TrimmedLines;
    if pad == "" {
      assert text + pad == text;
    } else {
      var n := |pad| - 1;
      SeparatorPadded(text, pad[..n]);
      assert text + pad == text + pad[..n] + [pad[n]];
      TrimmedMore(text + pad[..n], pad[n]);
    }
  }

  /** What follows a separator line is less of the signature than the whole of it. */
  lemma LessFollows(written: string, signature: string, cut: nat, pad: string, at: nat)
    requires !Blank(signature) && Padded(signature, cut, pad)
    requires LastSeparator(Pieces(Above(written) + (TrimEnd(signature)[..cut] + pad)), 0) == Some(at)
    ensures var head := Above(written) + (TrimEnd(signature)[..cut] + pad);
            at <= |head| && (at + LineEnd(head[at..]) < |head| ==>
              |Visible(head[at + LineEnd(head[at..]) + 1..])| < |Visible(TrimEnd(signature))|)
  {
    hide Pieces, TrimEnd, Visible, White, LastSeparator, NoSeparator, LineEnd;
    var text, base := TrimEnd(signature), |written| + 6;
    var under := text[..cut] + pad;
    var head := Above(written) + under;
    SeparatorOver(written, under);
    PiecesCut(under);
    SeparatorVisible(Pieces(under), base);
    var inner := LastSeparator(Pieces(under), base);
    var from := at + LineEnd(head[at..]) + 1;
    if inner.Some? {
      VisibleAt(text[..cut], pad, at - base);
      if from <= |head| {
        LessUnder(Above(written), text, cut, pad, at, from);
      }
    } else {
      SeparatorNone(Pieces(under), base);
      FirstFollows(written, signature, cut, pad);
    }
  }

  lemma VisibleAt(text: string, pad: string, k: nat)
    requires k < |text + pad| && (text + pad)[k] == '-' && Blank(pad)
    ensures k < |text| && text[k] == '-'
  {
    assert k >= |text| ==> White(pad[k - |text|]);
  }

  lemma FirstFollows(written: string, signature: string, cut: nat, pad: string)
    requires !Blank(signature) && Padded(signature, cut, pad)
    requires "--" !in TrimAll(Pieces(TrimEnd(signature)[..cut] + pad))
    ensures var head := Above(written) + (TrimEnd(signature)[..cut] + pad);
            LineEnd(head[|written| + 2..]) == 3 && |Visible(head[|written| + 6..])| < |Visible(TrimEnd(signature))|
  {
    hide Pieces, TrimEnd, Visible, White, Blank, NoSeparator, LineEnd, TrimAll;
    var text := TrimEnd(signature);
    EndsVisible(signature);
    if cut == |text| {
      WholeSeparated(signature, pad);
    }
    var head := Above(written) + (text[..cut] + pad);
    assert pad == "" && text[..cut] + pad == text[..cut];
    assert head[|written| + 2..] == "-- \n" + text[..cut];
    assert ("-- \n" + text[..cut])[..3] == "-- ";
    LineEndUnique(head[|written| + 2..], 3);
    assert head[|written| + 6..] == text[0..cut];
    FewerVisible(text, cut, 0);
  }

  /** All of a separated signature holds its separator line, blanks under it or not. */
  lemma WholeSeparated(signature: string, pad: string)
    requires !Blank(signature) && !NoSeparator(signature) && Blank(pad)
    ensures var text := TrimEnd(signature); "--" in TrimAll(Pieces(text[..|text|] + pad))
  {
    hide TrimEnd, Pieces, TrimAll;
    var text := TrimEnd(signature);
    EndsVisible(signature);
    SeparatorPadded(text, pad);
    TrimmedPieces(text + pad);
    assert text[..|text|] == text;
  }

  lemma PaddedNotFound(written: string, signature: string, cut: nat, pad: string)
    requires !Blank(signature) && Padded(signature, cut, pad)
    ensures SignatureAt(Above(written) + (TrimEnd(signature)[..cut] + pad), signature) == None
  {
    hide Pieces, Bare, TrimEnd, Visible, Blank, LastSeparator, NoSeparator, LineEnd, Above;
    var head := Above(written) + (TrimEnd(signature)[..cut] + pad);
    PiecesCut(head);
    var found := LastSeparator(Pieces(head), 0);
    if found.Some? {
      LessFollows(written, signature, cut, pad, found.value);
      var from := found.value + LineEnd(head[found.value..]) + 1;
      if from <= |head| {
        BareVisible(head[from..]);
        BareVisible(signature);
        TrimEndVisible(signature);
      }
    }
  }

  /** The beginning of a signature, or all of one with a separator line of its own and blanks
      under it. */
  ghost predicate Partial(signature: string, under: string) {
    var text := TrimEnd(signature);
    under < text || (!NoSeparator(signature) && text <= under && Blank(under[|text|..]))
  }

  /** Under the words it was put under a signature is not found when the quote is taken to
      start inside it, nor at its end or past blanks under it when it holds a separator line
      of its own. */
  lemma NotFound(written: string, signature: string, under: string)
    requires !Blank(signature) && Partial(signature, under)
    ensures SignatureAt(Above(written) + under, signature) == None
  {
    assert Blank("");
    hide SignatureAt, TrimEnd, Blank, Above, NoSeparator;
    var text := TrimEnd(signature);
    var cut := if |under| < |text| then |under| else |text|;
    assert under == text[..cut] + under[cut..];
    PaddedNotFound(written, signature, cut, under[cut..]);
  }

  lemma FlatTop(top: seq<string>, above: string)
    requires Flat(top) == above
    ensures Flat(top + ["\n", "-- \n"]) == above + "\n-- \n"
  {
    FlatAppend(top, ["\n", "-- \n"]);
    assert ["\n", "-- \n"][1..] == ["-- \n"] && ["-- \n"][1..] == [];
    assert Flat(["-- \n"]) == "-- \n";
    assert Flat(["\n", "-- \n"]) == "\n" + "-- \n";
  }

  lemma TopSeparator(top: seq<string>, n: nat)
    requires |Flat(top)| == n + 1
    ensures LastSeparator(top + ["\n", "-- \n"], 0) == Some(n + 2)
  {
    hide TrimEnd;
    BlankFeed();
    SeparatorFeed();
    LastSeparatorAppend(top, ["\n", "-- \n"], 0);
    assert ["\n", "-- \n"][1..] == ["-- \n"] && ["-- \n"][1..] == [];
    assert LastSeparator(["-- \n"], n + 2) == Some(n + 2);
  }

  // ---- Signatures that are never found

  lemma NoneLast(lines: seq<string>, at: nat)
    requires LastSeparator(lines, at) == None
    ensures Unseparated(lines)
  {
    SeparatorNone(lines, at);
    UnseparatedLines(lines);
  }

  lemma {:induction false} LastAt(lines: seq<string>, at: nat) returns (z: nat)
    requires LastSeparator(lines, at).Some?
    ensures z < |lines| && LastSeparator(lines, at).value == at + |Flat(lines[..z])| && Unseparated(lines[z + 1..])
  {
    hide TrimEnd, Unseparated;
    var first, rest := lines[0], lines[1..];
    if LastSeparator(rest, at + |first|).Some? {
      var under := LastAt(rest, at + |first|);
      z := under + 1;
      assert lines[..z][1..] == rest[..under] && lines[z + 1..] == rest[under + 1..];
    } else {
      NoneLast(rest, at + |first|);
      z := 0;
    }
  }

  lemma LineEndOver(first: string, rest: string)
    requires OneLine(first) && (rest != "" ==> first[|first| - 1] == '\n')
    ensures var n := LineEnd(first + rest); n < |first + rest| ==> (first + rest)[n + 1..] == rest
  {
    var text, n := first + rest, |first| - 1;
    if first[n] == '\n' {
      assert text[..n] == first[..n];
      LineEndUnique(text, n);
    } else {
      assert first == first[..n] + [first[n]] && text == first;
      LineEndUnique(text, |text|);
    }
  }

  lemma UnderFirst(lines: seq<string>)
    requires IsCut(lines) && lines != []
    ensures var text := Flat(lines);
            LineEnd(text) < |text| ==> Pieces(text[LineEnd(text) + 1..]) == lines[1..]
  {
    hide Pieces;
    var first, rest := lines[0], lines[1..];
    CutDrop(lines, 1);
    LineEndOver(first, Flat(rest)) by {
      assert Flat(rest) != "" ==> rest != [];
    }
    CutUnique(rest);
  }

  lemma AfterFirst(above: string, low: string)
    ensures var n := LineEnd(low);
            && (above + low)[|above|..] == low
            && (n < |low| ==> (above + low)[|above| + n + 1..] == low[n + 1..])
  {
    hide LineEnd;
  }

  /** Under the last separator line of a text no line is one. */
  lemma UnderLast(lines: seq<string>, at: nat)
    requires IsCut(lines) && LastSeparator(lines, at).Some?
    ensures var text, from := Flat(lines), LastSeparator(lines, at).value - at;
            && from <= |text|
            && (from + LineEnd(text[from..]) < |text| ==>
                 Unseparated(Pieces(text[from + LineEnd(text[from..]) + 1..])))
  {
    hide Pieces, Flat, LastSeparator, IsCut, Unseparated, LineEnd;
    var z := LastAt(lines, at);
    CutSplit(lines, z);
    CutDrop(lines, z);
    UnderFirst(lines[z..]);
    AfterFirst(Flat(lines[..z]), Flat(lines[z..]));
    assert lines[z..][1..] == lines[z + 1..];
  }

  /** A signature with a separator line under anything visible is found nowhere. */
  lemma NeverFound(head: string, signature: string)
    requires Inner(Pieces(signature)) > 0
    ensures SignatureAt(head, signature) == None
  {
    hide Pieces, Bare, Inner, LastSeparator, LineEnd, Unseparated;
    PiecesCut(head);
    var found := LastSeparator(Pieces(head), 0);
    if found.Some? {
      UnderLast(Pieces(head), 0);
      var feed := found.value + LineEnd(head[found.value..]);
      if feed < |head| {
        UnseparatedInner(Pieces(head[feed + 1..]));
        InnerBare(head[feed + 1..]);
        InnerBare(signature);
      }
    }
  }

  /** A separated signature has a separator line under something visible, or opens with its
      only one. */
  lemma OpensOrInner(signature: string) returns (b: nat)
    requires !Blank(signature) && !NoSeparator(signature) && Inner(Pieces(signature)) == 0
    ensures Opens(Expected(signature), b)
  {
    hide Pieces, Inner, TrimEnd, Blank, TrimAll;
    var text := TrimEnd(signature);
    InnerTrimEnd(signature);
    TrimmedPieces(text);
    var lines := Pieces(text);
    if Unseparated(lines) {
      NotAmong(lines);
      assert false;
    }
    b := OnlyFirst(lines);
    forall i | 0 <= i < |lines|
      ensures Expected(signature)[i] == TrimEnd(lines[i]) && Blank(Expected(signature)[i]) == Blank(lines[i])
    {
      TrimmedAt(lines, i);
      BlankTrimmed(lines[i]);
    }
  }

  lemma {:induction false} NotAmong(lines: seq<string>)
    requires Unseparated(lines)
    ensures "--" !in TrimAll(lines)
  {
    hide TrimEnd;
    if lines != [] {
      assert forall i :: 0 <= i < |lines[1..]| ==> lines[1..][i] == lines[i + 1];
      NotAmong(lines[1..]);
    }
  }

  // ---- The laws

  /** A signature with a separator line of its own is left where it stands under words in which
      no quote is found, whatever is to take its place and whatever the message quotes. */
  lemma LeftInPlace(written: string, was: string, quoted: string, wanted: string, tail: string)
    requires !Blank(was) && !NoSeparator(was) && !EndsWith("--", tail)
    requires QuoteAt(written, was, tail).None? && (quoted != "" ==> Original(Pieces(quoted), tail))
    ensures RestyleSignature(Signed(written, was, quoted), was, wanted, tail) == Signed(written, was, quoted)
  {
    assert Blank("") && Blank("\n\n");
    hide QuoteAt, SignatureAt, TrimEnd, NoSeparator, EndsWith, Blank, Pieces, Original, Signed, Inner, Resigned;
    hide Above, Opens;
    var signed := Signed(written, was, quoted);
    var found := QuoteAt(signed, was, tail);
    var quote := if found.Some? then found.value else |signed|;
    if Inner(Pieces(was)) > 0 {
      NeverFound(signed[..quote], was);
    } else {
      var b := OpensOrInner(was);
      SignedAbove(written, was, quoted);
      QuoteBelowSeparator(written, signed[|written| + 6..], was, tail);
      if quoted != "" {
        QuoteOfOpening(written, was, quoted, tail, b);
      }
      SignedUntil(written, was, quoted, quote);
      NotFound(written, was, signed[|written| + 6..quote]);
    }
    assert SignatureAt(signed[..quote], was) == None;
  }

  lemma SignedAbove(written: string, signature: string, quoted: string)
    ensures var signed := Signed(written, signature, quoted);
            |written| + 6 <= |signed| && signed == Above(written) + signed[|written| + 6..]
    ensures quoted == "" ==> |Signed(written, signature, quoted)| == |written| + 6 + |TrimEnd(signature)|
  {
  }

  lemma SignedUntil(written: string, signature: string, quoted: string, n: nat)
    requires var base := |written| + 6 + |TrimEnd(signature)|;
             && |written| + 6 <= n <= |Signed(written, signature, quoted)|
             && (n <= base || (quoted != "" && n == base + 2))
    ensures var signed := Signed(written, signature, quoted);
            && signed[..n] == Above(written) + signed[|written| + 6..n]
            && (!NoSeparator(signature) ==> Partial(signature, signed[|written| + 6..n]))
  {
    hide TrimEnd, NoSeparator;
    var signed, text := Signed(written, signature, quoted), TrimEnd(signature);
    var under := signed[|written| + 6..n];
    if |under| <= |text| {
      assert under == text[..|under|];
    } else {
      assert under == text + "\n\n" && under[|text|..] == "\n\n";
    }
  }

  /** The swap of an untouched signature under any words whatever: where a quote is found in the
      words on their own, only they are looked at and the signature stays; else it is taken out
      and the new one put in, unless it holds a separator line of its own. */
  lemma SwapTyped(written: string, was: string, quoted: string, wanted: string, tail: string)
    requires !Blank(was) && !EndsWith("--", tail) && (quoted != "" ==> Original(Pieces(quoted), tail))
    ensures RestyleSignature(Signed(written, was, quoted), was, wanted, tail)
         == if QuoteAt(written, was, tail).Some?
            then RestyleSignature(written, was, wanted, tail) + Signed("", was, quoted)
            else if NoSeparator(was) then Swapped(TrimLineFeeds(written), wanted, quoted)
            else Signed(written, was, quoted)
  {
    hide RestyleSignature, Signed, NoSeparator, Swapped, Pieces, Original, TrimEnd, EndsWith, QuoteAt, TrimLineFeeds;
    if QuoteAt(written, was, tail).Some? {
      SignedUnder(written, was, quoted);
      var more := Signed("", was, quoted)[1..];
      ReadToTheQuote(written, more, was, wanted, tail);
      var part := RestyleSignature(written, was, wanted, tail);
      assert part + "\n" + more == part + ("\n" + more);
    } else if NoSeparator(was) {
      RestyleSigned(written, was, quoted, wanted, tail);
    } else {
      LeftInPlace(written, was, quoted, wanted, tail);
    }
  }

  lemma SignedUnder(written: string, was: string, quoted: string)
    ensures var low := Signed("", was, quoted);
            low != "" && "\n" + low[1..] == low && Signed(written, was, quoted) == written + "\n" + low[1..]
  {
    hide TrimEnd;
    var low := Signed("", was, quoted);
    assert low[0] == '\n' && Signed(written, was, quoted) == written + low;
    assert low == [low[0]] + low[1..];
  }

  /** Swapping an untouched signature is having put the new one in, exactly when the old one
      holds no separator line of its own or the two are put in alike; a signature with one is
      left where it stands. */
  lemma SwapExact(markdown: string, was: string, wanted: string, tail: string)
    requires !Blank(was) && !Blank(wanted) && !EndsWith("--", tail)
    ensures RestyleSignature(WithSignature(markdown, was, tail), was, wanted, tail)
            == WithSignature(markdown, wanted, tail)
            <==> NoSeparator(was) || TrimEnd(was) == TrimEnd(wanted)
    ensures !NoSeparator(was) ==>
              RestyleSignature(WithSignature(markdown, was, tail), was, wanted, tail)
              == WithSignature(markdown, was, tail)
  {
    hide Cut, RestyleSignature, TrimEnd, NoSeparator, EndsWith, Blank, Pieces, Plain, Original, Signed;
    hide WithSignature, QuoteAt;
    CutParts(markdown, tail);
    var (written, quoted) := Cut(markdown, tail);
    PlainUnquoted(written, was, tail);
    WithIsSigned(markdown, was, tail);
    WithIsSigned(markdown, wanted, tail);
    SameSigned(written, was, wanted, quoted);
    if NoSeparator(was) {
      SwapIsInsert(markdown, was, wanted, tail);
    } else {
      LeftInPlace(written, was, quoted, wanted, tail);
    }
  }

  lemma SameSigned(written: string, one: string, other: string, quoted: string)
    ensures Signed(written, one, quoted) == Signed(written, other, quoted) <==> TrimEnd(one) == TrimEnd(other)
  {
    hide TrimEnd;
    var above, below := written + "\n\n-- \n", if quoted == "" then "" else "\n\n" + quoted;
    assert Signed(written, one, quoted) == above + TrimEnd(one) + below;
    assert Signed(written, other, quoted) == above + TrimEnd(other) + below;
    SameBetween(above, TrimEnd(one), TrimEnd(other), below);
  }

  lemma SameBetween(above: string, one: string, other: string, below: string)
    ensures above + one + below == above + other + below ==> one == other
  {
    if above + one + below == above + other + below {
      assert (above + one + below)[|above|..|above| + |one|] == one;
      assert (above + other + below)[|above|..|above| + |one|] == other;
    }
  }

  /** A single line that is no quote is all the writer's. */
  lemma LineCut(line: string, tail: string)
    requires line != "" && '\n' !in line && !White(line[|line| - 1]) && !QuoteLine(line)
    ensures Cut(line, tail) == (line, "")
  {
    hide QuoteLine, After, EndsWith;
    LineEndUnique(line, |line|);
    NothingExpected();
    TrimEndUnique(line, line);
    assert Pieces(line) == [line];
    ScanPlain(START, [line], [], tail);
    assert Expected("") == [] && QuoteAt(line, "", tail) == None;
    assert line[..|line|] == line && line[|line|..] == "";
  }

  /** A signature with a separator line of its own that stays when it is to be swapped. */
  lemma OwnSeparatorStays(wanted: string, tail: string)
    requires !Blank(wanted) && TrimEnd(wanted) != "Ann\n--\nBob" && !EndsWith("--", tail)
    ensures var signed := WithSignature("Hi", "Ann\n--\nBob", tail);
            && signed == "Hi\n\n-- \nAnn\n--\nBob"
            && RestyleSignature(signed, "Ann\n--\nBob", wanted, tail) == signed != WithSignature("Hi", wanted, tail)
  {
    hide Cut, RestyleSignature, TrimEnd, EndsWith, NoSeparator, WithSignature, Blank;
    var was := "Ann\n--\nBob";
    LineCut("Hi", tail);
    OwnSeparator();
    OwnVisible();
    WithIsSigned("Hi", was, tail);
    SwapExact("Hi", was, wanted, tail);
  }

  lemma OwnVisible()
    ensures var was := "Ann\n--\nBob"; !Blank(was) && TrimEnd(was) == was
  {
    var was := "Ann\n--\nBob";
    assert was[9] == 'b';
    TrimEndUnique(was, was);
  }

  lemma OwnSeparator()
    ensures !NoSeparator("Ann\n--\nBob")
  {
    hide Pieces, TrimAll, TrimEnd, TrimmedLines;
    var was, under := "Ann\n--\nBob", "--\n" + "Bob";
    OwnVisible();
    assert was == "Ann\n" + under;
    FirstPiece("Ann\n", under, 3);
    FirstPiece("--\n", "Bob", 2);
    TrimmedPieces(was);
    assert Pieces(was)[1] == "--\n";
    TrimmedAt(Pieces(was), 1);
    TrimEndUnique("--\n", "--");
  }

  /** A quote the writer put above an untouched signature keeps it from being swapped. */
  lemma QuotedWordsKeep(wanted: string, tail: string)
    requires !EndsWith("--", tail)
    ensures Signed("> q", "Ann", "") == "> q\n\n-- \nAnn"
    ensures RestyleSignature("> q\n\n-- \nAnn", "Ann", wanted, tail) == "> q\n\n-- \nAnn"
  {
    hide RestyleSignature, EndsWith, QuoteAt;
    assert "Ann"[0] == 'A';
    TrimEndUnique("Ann", "Ann");
    QuotedWords(wanted, tail);
    SwapTyped("> q", "Ann", "", wanted, tail);
    assert "> q" + Signed("", "Ann", "") == Signed("> q", "Ann", "");
  }

  lemma QuotedWords(wanted: string, tail: string)
    ensures QuoteAt("> q", "Ann", tail) == Some(0)
    ensures RestyleSignature("> q", "Ann", wanted, tail) == "> q"
  {
    hide TrimEnd, EndsWith, Expected;
    assert "Ann"[0] == 'A' && "> q"[..0] == "";
    LineEndUnique("> q", 3);
    assert Pieces("> q") == ["> q"];
    assert After(START, ["> q"], Expected("Ann"), tail) == Step(START, "> q", Expected("Ann"), tail);
  }
}
