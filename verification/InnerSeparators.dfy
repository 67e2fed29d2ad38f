/** Counting the separator lines of a text that stand under something visible. Comparing texts
    bare, as signatures are compared, keeps the count. */
module InnerSeparators {
  import opened Text
  import opened Signature

  function Separators(lines: seq<string>): nat {
    if lines == [] then 0 else (if TrimEnd(lines[0]) == "--" then 1 else 0) + Separators(lines[1..])
  }

  /** Those under the first visible line. */
  function Inner(lines: seq<string>): nat {
    if lines == [] then 0 else if Blank(lines[0]) then Inner(lines[1..]) else Separators(lines[1..])
  }

  /** Both counts of one list of lines are those of the other. */
  ghost predicate Alike(a: seq<string>, b: seq<string>) {
    Separators(a) == Separators(b) && Inner(a) == Inner(b)
  }

  /** A line that differs only in what trails it. */
  ghost predicate Twins(a: string, b: string) {
    TrimEnd(a) == TrimEnd(b) && Blank(a) == Blank(b)
  }

  lemma TwinEnd(line: string, blank: string)
    requires Blank(blank)
    ensures Twins(line, line + blank)
  {
    TrimEndAppend(line, blank);
    assert forall i :: 0 <= i < |line| ==> (line + blank)[i] == line[i];
    assert Blank(line + blank) ==> Blank(line);
  }

  lemma TwinTrim(line: string)
    ensures Twins(TrimEnd(line), line)
  {
    TrimEndIs(line);
    var t := TrimEnd(line);
    assert line == t + line[|t|..];
    TwinEnd(t, line[|t|..]);
  }

  lemma ConsAlike(first: string, other: string, a: seq<string>, b: seq<string>)
    requires Twins(first, other) && Alike(a, b)
    ensures Alike([first] + a, [other] + b)
  {
    hide TrimEnd, Blank;
    assert ([first] + a)[1..] == a && ([other] + b)[1..] == b;
  }

  lemma {:induction false} LastAlike(lines: seq<string>, last: string, other: string)
    requires Twins(last, other)
    ensures Alike(lines + [last], lines + [other])
  {
    hide Alike, Twins;
    if lines == [] {
      TwinsSelf("");
      ConsAlike(last, other, [], []) by {
        AlikeSelf([]);
      }
      assert [] + [last] == [last] + [] && [] + [other] == [other] + [];
    } else {
      var first, rest := lines[0], lines[1..];
      LastAlike(rest, last, other);
      TwinsSelf(first);
      ConsAlike(first, first, rest + [last], rest + [other]);
      assert lines + [last] == [first] + (rest + [last]) && lines + [other] == [first] + (rest + [other]);
    }
  }

  lemma TwinsSelf(line: string)
    ensures Twins(line, line)
  {
  }

  lemma AlikeSelf(lines: seq<string>)
    ensures Alike(lines, lines)
  {
  }

  lemma {:induction false} PadAlike(lines: seq<string>, blank: string)
    requires Blank(blank)
    ensures Alike(lines + [blank], lines)
  {
    hide TrimEnd;
    TrimEndUnique(blank, "");
    if lines == [] {
      assert lines + [blank] == [blank] && [blank][1..] == [];
    } else {
      assert (lines + [blank])[1..] == lines[1..] + [blank];
      PadAlike(lines[1..], blank);
    }
  }

  // ---- White characters at the ends of a text

  lemma FrontPiece(c: char, text: string)
    requires c != '\n' && text != ""
    ensures Pieces([c] + text) == [[c] + Pieces(text)[0]] + Pieces(text)[1..]
  {
    var n := LineEnd(text);
    assert ([c] + text)[1..] == text;
    assert LineEnd([c] + text) == n + 1;
    if n < |text| {
      assert ([c] + text)[..n + 2] == [c] + text[..n + 1];
      assert ([c] + text)[n + 2..] == text[n + 1..];
    }
  }

  lemma BlankFront(c: char, line: string)
    requires White(c)
    ensures Blank([c] + line) == Blank(line)
  {
    hide White;
    assert forall i :: 0 <= i < |line| ==> ([c] + line)[i + 1] == line[i];
  }

  lemma InnerFront(c: char, text: string)
    requires White(c)
    ensures Inner(Pieces([c] + text)) == Inner(Pieces(text))
  {
    assert Blank("") && [c] + "" == [c];
    hide Pieces, White, Blank, TrimEnd;
    BlankFront(c, "");
    if text == "" {
      PieceOf(c);
      assert [c] + text == [c] && [[c]][1..] == [];
    } else if c == '\n' {
      FirstPiece([c], text, 0);
      assert ([[c]] + Pieces(text))[1..] == Pieces(text);
    } else {
      var lines := Pieces(text);
      FrontPiece(c, text);
      BlankFront(c, lines[0]);
      assert ([[c] + lines[0]] + lines[1..])[1..] == lines[1..];
    }
  }

  lemma InnerEnd(text: string, c: char)
    requires White(c)
    ensures Inner(Pieces(text + [c])) == Inner(Pieces(text))
  {
    assert Blank("") && [c] + "" == [c];
    hide Pieces, White, Blank, TrimEnd, Inner, Twins;
    var lines := Pieces(text);
    PieceOf(c);
    BlankFront(c, "");
    if text == "" || text[|text| - 1] == '\n' {
      PiecesAppend(text, [c]);
      PadAlike(lines, [c]);
    } else {
      PiecesExtend(text, c);
      var above, last := lines[..|lines| - 1], lines[|lines| - 1];
      assert lines == above + [last];
      TwinEnd(last, [c]);
      LastAlike(above, last, last + [c]);
    }
  }

  lemma {:induction false} InnerTrimEnd(text: string)
    ensures Inner(Pieces(TrimEnd(text))) == Inner(Pieces(text))
  {
    hide Inner, Pieces, White;
    if text != "" && White(text[|text| - 1]) {
      var n := |text| - 1;
      assert text == text[..n] + [text[n]];
      InnerTrimEnd(text[..n]);
      InnerEnd(text[..n], text[n]);
    }
  }

  lemma {:induction false} InnerTrimStart(text: string)
    ensures Inner(Pieces(TrimStart(text))) == Inner(Pieces(text))
  {
    hide Inner, Pieces, White;
    if text != "" && White(text[0]) {
      assert text == [text[0]] + text[1..];
      InnerTrimStart(text[1..]);
      InnerFront(text[0], text[1..]);
    }
  }

  // ---- Texts compared bare

  lemma NoFeed(line: string)
    requires OneLine(line)
    ensures '\n' !in TrimEnd(line)
  {
    var t := TrimEnd(line);
    TrimEndIs(line);
    if t != "" {
      assert t == t[..|t| - 1] + [t[|t| - 1]];
      assert t[..|t| - 1] <= line[..|line| - 1];
    }
  }

  lemma OneAlike(line: string)
    requires '\n' !in line
    ensures Alike(Pieces(line), [line])
  {
    hide TrimEnd;
    if line != "" {
      LineEndUnique(line, |line|);
    } else {
      TrimEndUnique(line, "");
      assert [line][1..] == [];
    }
  }

  lemma {:induction false} JoinedAlike(pieces: seq<string>)
    requires IsCut(pieces)
    ensures Alike(Pieces(Join(TrimAll(pieces), "\n")), pieces)
  {
    hide Alike, Twins, Pieces, TrimEnd;
    if pieces == [] {
      AlikeSelf([]);
    } else {
      var first, rest := TrimEnd(pieces[0]), pieces[1..];
      NoFeed(pieces[0]);
      TwinTrim(pieces[0]);
      if rest == [] {
        assert Join(TrimAll(pieces), "\n") == first;
        OneAlike(first);
        LastAlike([], first, pieces[0]);
        assert [] + [first] == [first] && [] + [pieces[0]] == pieces;
        AlikeTrans(Pieces(first), [first], pieces);
      } else {
        CutDrop(pieces, 1);
        JoinedAlike(rest);
        var below := Join(TrimAll(rest), "\n");
        assert Join(TrimAll(pieces), "\n") == (first + "\n") + below;
        assert (first + "\n")[..|first|] == first;
        FirstPiece(first + "\n", below, |first|);
        TwinFeed(first, pieces[0]);
        ConsAlike(first + "\n", pieces[0], Pieces(below), rest);
        assert pieces == [pieces[0]] + rest;
      }
    }
  }

  lemma TwinFeed(line: string, other: string)
    requires Twins(line, other)
    ensures Twins(line + "\n", other)
  {
    hide TrimEnd;
    TwinEnd(line, "\n");
  }

  lemma AlikeTrans(a: seq<string>, b: seq<string>, c: seq<string>)
    requires Alike(a, b) && Alike(b, c)
    ensures Alike(a, c)
  {
  }

  lemma InnerBare(text: string)
    ensures Inner(Pieces(Bare(text))) == Inner(Pieces(text))
  {
    hide Inner, Separators, Pieces, TrimAll, Join, TrimEnd, TrimStart;
    PiecesCut(text);
    TrimmedPieces(text);
    var joined := Join(TrimmedLines(text), "\n");
    InnerTrimEnd(joined);
    InnerTrimStart(TrimEnd(joined));
    JoinedAlike(Pieces(text));
  }

  // ---- Signatures no text is mistaken for

  lemma {:induction false} UnseparatedInner(lines: seq<string>)
    requires Unseparated(lines)
    ensures Inner(lines) == 0 && Separators(lines) == 0
  {
    hide TrimEnd;
    if lines != [] {
      assert forall i :: 0 <= i < |lines[1..]| ==> lines[1..][i] == lines[i + 1];
      UnseparatedInner(lines[1..]);
    }
  }

  lemma {:induction false} NoSeparators(lines: seq<string>)
    requires Separators(lines) == 0
    ensures Unseparated(lines)
  {
    hide TrimEnd;
    if lines != [] {
      NoSeparators(lines[1..]);
      assert forall i :: 0 < i < |lines| ==> lines[i] == lines[1..][i - 1];
    }
  }

  /** With none under anything visible, a separator line is the first visible one and alone. */
  lemma {:induction false} OnlyFirst(lines: seq<string>) returns (b: nat)
    requires Inner(lines) == 0 && !Unseparated(lines)
    ensures b < |lines| && TrimEnd(lines[b]) == "--"
    ensures forall i :: 0 <= i < b ==> Blank(lines[i])
    ensures forall i :: b < i < |lines| ==> TrimEnd(lines[i]) != "--"
  {
    hide TrimEnd;
    var rest := lines[1..];
    assert forall i :: 0 < i < |lines| ==> lines[i] == rest[i - 1];
    if Blank(lines[0]) {
      TrimEndUnique(lines[0], "");
      assert !Unseparated(rest);
      var under := OnlyFirst(rest);
      b := under + 1;
    } else {
      NoSeparators(rest);
      b := 0;
    }
  }
}
