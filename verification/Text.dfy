/** The string operations the other modules share, on texts as sequences of
    characters: whitespace, trimming, and cutting a text into lines. */
module Text {

  datatype Option<+T> = None | Some(value: T)

  datatype Result<+T, +E> = Ok(value: T) | Err(error: E)

  /** The Unicode White_Space property. */
  predicate White(c: char) {
    || '\t' <= c <= '\r' || c == ' ' || c == '\U{0085}' || c == '\U{00A0}' || c == '\U{1680}'
    || '\U{2000}' <= c <= '\U{200A}' || c == '\U{2028}' || c == '\U{2029}' || c == '\U{202F}'
    || c == '\U{205F}' || c == '\U{3000}'
  }

  predicate Blank(s: string) {
    forall i :: 0 <= i < |s| ==> White(s[i])
  }

  predicate StartsWith(s: string, head: string) {
    head <= s
  }

  predicate EndsWith(s: string, tail: string) {
    |tail| <= |s| && s[|s| - |tail|..] == tail
  }

  predicate OpensQuote(s: string) {
    s != "" && s[0] == '>'
  }

  /** A list without the item at one place. */
  function Drop<T>(all: seq<T>, which: nat): seq<T>
    requires which < |all|
  {
    all[..which] + all[which + 1..]
  }

  function TrimEnd(s: string): string {
    if s != "" && White(s[|s| - 1]) then TrimEnd(s[..|s| - 1]) else s
  }

  function TrimStart(s: string): string {
    if s != "" && White(s[0]) then TrimStart(s[1..]) else s
  }

  function Trim(s: string): string {
    TrimStart(TrimEnd(s))
  }

  /** Cutting the line feeds at the end, and nothing else. */
  function TrimLineFeeds(s: string): string {
    if s != "" && s[|s| - 1] == '\n' then TrimLineFeeds(s[..|s| - 1]) else s
  }

  lemma {:induction false} TrimEndIs(s: string)
    ensures var t := TrimEnd(s); t <= s && Blank(s[|t|..]) && (t != "" ==> !White(t[|t| - 1]))
  {
    if s != "" && White(s[|s| - 1]) {
      var shorter := s[..|s| - 1];
      TrimEndIs(shorter);
      assert s[|TrimEnd(s)|..] == shorter[|TrimEnd(s)|..] + [s[|s| - 1]];
    }
  }

  lemma {:induction false} TrimStartIs(s: string)
    ensures var t := TrimStart(s);
            |t| <= |s| && t == s[|s| - |t|..] && Blank(s[..|s| - |t|]) && (t != "" ==> !White(t[0]))
  {
    if s != "" && White(s[0]) {
      TrimStartIs(s[1..]);
      assert s[..|s| - |TrimStart(s)|] == [s[0]] + s[1..][..|s| - 1 - |TrimStart(s)|];
    }
  }

  lemma {:induction false} TrimEndUnique(s: string, t: string)
    requires t <= s && Blank(s[|t|..])
    requires t != "" ==> !White(t[|t| - 1])
    ensures TrimEnd(s) == t
  {
    if t != s {
      var shorter := s[..|s| - 1];
      assert White(s[|t|..][|s| - 1 - |t|]);
      assert forall i :: 0 <= i < |shorter[|t|..]| ==> shorter[|t|..][i] == s[|t|..][i];
      TrimEndUnique(shorter, t);
    }
  }

  lemma TrimEndAppend(s: string, blank: string)
    requires Blank(blank)
    ensures TrimEnd(s + blank) == TrimEnd(s)
  {
    var t := TrimEnd(s);
    TrimEndIs(s);
    assert (s + blank)[|t|..] == s[|t|..] + blank;
    TrimEndUnique(s + blank, t);
  }

  lemma {:induction false} TrimLineFeedsAppend(s: string, feeds: string)
    requires s == "" || s[|s| - 1] != '\n'
    requires forall i :: 0 <= i < |feeds| ==> feeds[i] == '\n'
    ensures TrimLineFeeds(s + feeds) == s
  {
    if feeds == "" {
      assert s + feeds == s;
    } else {
      assert (s + feeds)[..|s + feeds| - 1] == s + feeds[..|feeds| - 1];
      TrimLineFeedsAppend(s, feeds[..|feeds| - 1]);
    }
  }

  /** The place of the first line feed in `s`, or its length. */
  function LineEnd(s: string): (n: nat)
    ensures n <= |s| && '\n' !in s[..n]
    ensures n < |s| ==> s[n] == '\n'
  {
    if s == "" || s[0] == '\n' then 0 else 1 + LineEnd(s[1..])
  }

  /** The lines of `s`, each with the line feed that ends it. */
  function Pieces(s: string): (lines: seq<string>)
    ensures s == "" <==> lines == []
  {
    if s == "" then []
    else
      var n := LineEnd(s);
      if n == |s| then [s] else [s[..n + 1]] + Pieces(s[n + 1..])
  }

  /** One line without its line feed, nor a carriage return before that. */
  function StripLineEnd(piece: string): string {
    var n := |piece|;
    if n == 0 || piece[n - 1] != '\n' then piece
    else if n == 1 || piece[n - 2] != '\r' then piece[..n - 1]
    else piece[..n - 2]
  }

  function StripAll(pieces: seq<string>): (lines: seq<string>)
    ensures |lines| == |pieces|
  {
    if pieces == [] then [] else [StripLineEnd(pieces[0])] + StripAll(pieces[1..])
  }

  function Lines(s: string): seq<string> {
    StripAll(Pieces(s))
  }

  function TrimAll(lines: seq<string>): (trimmed: seq<string>)
    ensures |trimmed| == |lines|
  {
    if lines == [] then [] else [TrimEnd(lines[0])] + TrimAll(lines[1..])
  }

  function Flat(pieces: seq<string>): string {
    if pieces == [] then "" else pieces[0] + Flat(pieces[1..])
  }

  function Join(parts: seq<string>, separator: string): string {
    if parts == [] then ""
    else if |parts| == 1 then parts[0]
    else parts[0] + separator + Join(parts[1..], separator)
  }

  /** Every part between two line feeds, the last one included even when empty. */
  function Split(s: string): (parts: seq<string>)
    ensures |parts| > 0
    ensures Join(parts, "\n") == s
  {
    var n := LineEnd(s);
    if n == |s| then [s]
    else
      var rest := Split(s[n + 1..]);
      assert s == s[..n] + "\n" + s[n + 1..];
      assert ([s[..n]] + rest)[1..] == rest;
      [s[..n]] + rest
  }

  lemma {:induction false} SplitLines(s: string)
    ensures forall i :: 0 <= i < |Split(s)| ==> '\n' !in Split(s)[i]
  {
    var n := LineEnd(s);
    if n < |s| {
      SplitLines(s[n + 1..]);
    }
  }

  lemma {:induction false} LineEndUnique(s: string, n: nat)
    requires n <= |s| && '\n' !in s[..n] && (n < |s| ==> s[n] == '\n')
    ensures LineEnd(s) == n
  {
    if n > 0 {
      assert s[0] in s[..n];
      assert s[1..][..n - 1] == s[..n][1..];
      LineEndUnique(s[1..], n - 1);
    }
  }

  lemma FirstPiece(first: string, rest: string, n: nat)
    requires |first| == n + 1 && '\n' !in first[..n] && first[n] == '\n'
    ensures Pieces(first + rest) == [first] + Pieces(rest)
  {
    var s := first + rest;
    assert s[..n] == first[..n] && s[..n + 1] == first && s[n + 1..] == rest;
    LineEndUnique(s, n);
  }

  lemma {:induction false} FlatAppend(a: seq<string>, b: seq<string>)
    ensures Flat(a + b) == Flat(a) + Flat(b)
  {
    if a == [] {
      assert a + b == b;
    } else {
      FlatAppend(a[1..], b);
      assert (a + b)[1..] == a[1..] + b;
      var first, rest, more := a[0], Flat(a[1..]), Flat(b);
      assert Flat(a + b) == first + (rest + more);
      assert first + (rest + more) == (first + rest) + more;
    }
  }

  lemma FlatLast(lines: seq<string>, last: string)
    ensures Flat(lines + [last]) == Flat(lines) + last
  {
    FlatAppend(lines, [last]);
    assert Flat([last]) == last + "";
  }

  /** One line with nothing after its line feed. */
  ghost predicate OneLine(line: string) {
    line != "" && '\n' !in line[..|line| - 1]
  }

  /** A list of lines is how a text cuts: only the last may lack its line feed. */
  ghost predicate IsCut(lines: seq<string>) {
    && (forall i :: 0 <= i < |lines| ==> OneLine(lines[i]))
    && (forall i :: 0 <= i < |lines| - 1 ==> lines[i][|lines[i]| - 1] == '\n')
  }

  lemma CutCons(first: string, rest: seq<string>)
    requires OneLine(first) && IsCut(rest)
    requires rest != [] ==> first[|first| - 1] == '\n'
    ensures IsCut([first] + rest)
  {
    var lines := [first] + rest;
    forall i | 0 <= i < |lines|
      ensures OneLine(lines[i])
    {
      assert i > 0 ==> lines[i] == rest[i - 1];
    }
    forall i | 0 <= i < |lines| - 1
      ensures lines[i][|lines[i]| - 1] == '\n'
    {
      assert i > 0 ==> lines[i] == rest[i - 1];
    }
  }

  lemma {:induction false} PiecesCut(s: string)
    ensures IsCut(Pieces(s)) && Flat(Pieces(s)) == s
  {
    if s != "" {
      var n := LineEnd(s);
      if n < |s| {
        var first, rest := s[..n + 1], s[n + 1..];
        PiecesCut(rest);
        assert first[..n] == s[..n];
        assert s == first + rest;
        CutCons(first, Pieces(rest));
      } else {
        assert s[..|s| - 1] <= s[..n];
        CutCons(s, []);
        assert [s] + [] == [s];
      }
    }
  }

  lemma {:induction false} CutUnique(lines: seq<string>)
    requires IsCut(lines)
    ensures Pieces(Flat(lines)) == lines
  {
    if lines != [] {
      var first, rest := lines[0], lines[1..];
      CutUnique(rest);
      var s := Flat(lines);
      assert s == first + Flat(rest);
      if first[|first| - 1] == '\n' {
        assert s[..|first| - 1] == first[..|first| - 1];
        LineEndUnique(s, |first| - 1);
        assert s[..|first|] == first && s[|first|..] == Flat(rest);
      } else {
        assert rest == [];
        assert s == first;
        assert first == first[..|first| - 1] + [first[|first| - 1]];
        LineEndUnique(s, |s|);
      }
    }
  }

  lemma {:induction false} CutAppend(a: seq<string>, b: seq<string>)
    requires IsCut(a) && IsCut(b)
    requires a != [] ==> a[|a| - 1] != "" && a[|a| - 1][|a[|a| - 1]| - 1] == '\n'
    ensures IsCut(a + b)
  {
    if a == [] {
      assert a + b == b;
    } else {
      CutDrop(a, 1);
      CutAppend(a[1..], b);
      CutCons(a[0], a[1..] + b);
      assert a + b == [a[0]] + (a[1..] + b);
    }
  }

  lemma CutTake(lines: seq<string>, k: nat)
    requires IsCut(lines) && k <= |lines|
    ensures IsCut(lines[..k])
  {
    assert forall i :: 0 <= i < k ==> lines[..k][i] == lines[i];
  }

  lemma CutDrop(lines: seq<string>, k: nat)
    requires IsCut(lines) && k <= |lines|
    ensures IsCut(lines[k..])
  {
    assert forall i :: 0 <= i < |lines| - k ==> lines[k..][i] == lines[k + i];
  }

  /** The last line of a text ends as the text does. */
  lemma {:induction false} FlatEnd(lines: seq<string>)
    requires IsCut(lines) && lines != []
    ensures var s, l := Flat(lines), lines[|lines| - 1]; s != "" && l != "" && s[|s| - 1] == l[|l| - 1]
  {
    if |lines| > 1 {
      CutDrop(lines, 1);
      FlatEnd(lines[1..]);
    } else {
      assert OneLine(lines[0]);
      assert Flat(lines[1..]) == "";
    }
  }

  /** Cutting after a line feed cuts between two lines. */
  lemma PiecesAppend(x: string, y: string)
    requires x == "" || x[|x| - 1] == '\n'
    ensures Pieces(x + y) == Pieces(x) + Pieces(y)
  {
    PiecesCut(x);
    PiecesCut(y);
    if x != "" {
      FlatEnd(Pieces(x));
    }
    CutAppend(Pieces(x), Pieces(y));
    FlatAppend(Pieces(x), Pieces(y));
    CutUnique(Pieces(x) + Pieces(y));
  }

  /** A cut text split between its lines: each half cuts as it did before. */
  lemma CutSplit(lines: seq<string>, k: nat)
    requires IsCut(lines) && k <= |lines|
    ensures Flat(lines) == Flat(lines[..k]) + Flat(lines[k..])
    ensures Pieces(Flat(lines[..k])) == lines[..k]
    ensures Pieces(Flat(lines[k..])) == lines[k..]
  {
    hide Flat, Pieces, IsCut;
    CutTake(lines, k);
    CutDrop(lines, k);
    CutUnique(lines[..k]);
    CutUnique(lines[k..]);
    FlatAppend(lines[..k], lines[k..]);
    assert lines == lines[..k] + lines[k..];
  }

  /** A text that does not end its last line grows in that line. */
  lemma CutExtend(lines: seq<string>, c: char)
    requires IsCut(lines) && lines != [] && '\n' !in lines[|lines| - 1]
    ensures var longer := lines[..|lines| - 1] + [lines[|lines| - 1] + [c]];
            IsCut(longer) && Flat(longer) == Flat(lines) + [c]
  {
    var above, last := lines[..|lines| - 1], lines[|lines| - 1];
    assert above + [last] == lines;
    FlatLast(above, last);
    FlatLast(above, last + [c]);
    CutTake(lines, |lines| - 1);
    assert (last + [c])[..|last|] == last;
    assert IsCut([last + [c]]);
    CutAppend(above, [last + [c]]);
  }

  lemma PiecesExtend(text: string, c: char)
    requires text != "" && text[|text| - 1] != '\n'
    ensures Pieces(text) != [] && '\n' !in Pieces(text)[|Pieces(text)| - 1]
    ensures var lines := Pieces(text);
            Pieces(text + [c]) == lines[..|lines| - 1] + [lines[|lines| - 1] + [c]]
  {
    hide Flat, Pieces;
    var lines := Pieces(text);
    PiecesCut(text);
    FlatEnd(lines);
    var last := lines[|lines| - 1];
    assert OneLine(last);
    assert last == last[..|last| - 1] + [last[|last| - 1]];
    CutExtend(lines, c);
    CutUnique(lines[..|lines| - 1] + [last + [c]]);
  }

  lemma {:induction false} TrimAllAppend(a: seq<string>, b: seq<string>)
    ensures TrimAll(a + b) == TrimAll(a) + TrimAll(b)
  {
    if a == [] {
      assert a + b == b;
    } else {
      assert (a + b)[1..] == a[1..] + b;
      TrimAllAppend(a[1..], b);
    }
  }

  lemma TrimAllLast(lines: seq<string>, last: string)
    ensures TrimAll(lines + [last]) == TrimAll(lines) + [TrimEnd(last)]
  {
    TrimAllAppend(lines, [last]);
  }

  lemma {:induction false} JoinEmpty(lines: seq<string>, separator: string)
    requires lines != []
    ensures Join(lines + [""], separator) == Join(lines, separator) + separator
  {
    if |lines| == 1 {
      assert (lines + [""])[1..] == [""];
    } else {
      assert (lines + [""])[1..] == lines[1..] + [""];
      JoinEmpty(lines[1..], separator);
    }
  }

  /** Trimming the lines' ends makes no difference between a line with its line
      feed and one without. */
  lemma {:induction false} TrimAllStrips(pieces: seq<string>)
    ensures TrimAll(StripAll(pieces)) == TrimAll(pieces)
  {
    if pieces != [] {
      var cut := StripLineEnd(pieces[0]);
      assert pieces[0] == cut + pieces[0][|cut|..];
      TrimEndAppend(cut, pieces[0][|cut|..]);
      TrimAllStrips(pieces[1..]);
    }
  }

  /** Where `needle` first stands in `hay`. */
  function Find(hay: string, needle: string): Option<nat> {
    if StartsWith(hay, needle) then Some(0)
    else if hay == "" then None
    else match Find(hay[1..], needle)
      case Some(k) => Some(k + 1)
      case None => None
  }

  ghost predicate Occurs(hay: string, needle: string, k: nat) {
    k + |needle| <= |hay| && hay[k..k + |needle|] == needle
  }

  lemma {:induction false} FindIs(hay: string, needle: string)
    ensures Find(hay, needle).Some? ==> Occurs(hay, needle, Find(hay, needle).value)
    ensures forall k: nat :: (Find(hay, needle).Some? ==> k < Find(hay, needle).value) ==> !Occurs(hay, needle, k)
  {
    if !StartsWith(hay, needle) && hay != "" {
      FindIs(hay[1..], needle);
      forall k: nat | Occurs(hay, needle, k)
        ensures k > 0 && Occurs(hay[1..], needle, k - 1)
      {
        assert k > 0;
        SliceShift(hay, k, k + |needle|);
      }
    }
  }

  lemma SliceShift(s: string, a: nat, b: nat)
    requires 0 < a <= b <= |s|
    ensures s[1..][a - 1..b - 1] == s[a..b]
  {
  }

  /** What is found in a text is found at the same place in a longer one. */
  lemma {:induction false} FindMore(hay: string, more: string, needle: string)
    requires Find(hay, needle).Some?
    ensures Find(hay + more, needle) == Find(hay, needle)
  {
    FindIs(hay, needle);
    if StartsWith(hay, needle) {
      assert needle <= hay + more;
    } else {
      assert (hay + more)[..|needle|] == hay[..|needle|];
      assert (hay + more)[1..] == hay[1..] + more;
      FindMore(hay[1..], more, needle);
    }
  }

  function LowerChar(c: char): char {
    if 'A' <= c <= 'Z' then (c as int + 32) as char else c
  }

  /** A text with its ASCII letters in lower case. */
  function Lower(s: string): (t: string)
    ensures |t| == |s|
  {
    if s == "" then "" else [LowerChar(s[0])] + Lower(s[1..])
  }

  lemma {:induction false} LowerAppend(a: string, b: string)
    ensures Lower(a + b) == Lower(a) + Lower(b)
  {
    if a == "" {
      assert a + b == b;
    } else {
      assert (a + b)[1..] == a[1..] + b;
      LowerAppend(a[1..], b);
    }
  }

  /** The characters of a text that are not whitespace. */
  function Visible(s: string): string {
    if s == "" then "" else (if White(s[0]) then "" else [s[0]]) + Visible(s[1..])
  }

  lemma {:induction false} VisibleAppend(a: string, b: string)
    ensures Visible(a + b) == Visible(a) + Visible(b)
  {
    if a == "" {
      assert a + b == b;
    } else {
      assert (a + b)[1..] == a[1..] + b;
      VisibleAppend(a[1..], b);
    }
  }

  lemma {:induction false} VisibleBlank(s: string)
    requires Blank(s)
    ensures Visible(s) == ""
  {
    if s != "" {
      assert White(s[0]) && forall i :: 0 <= i < |s[1..]| ==> s[1..][i] == s[i + 1];
      VisibleBlank(s[1..]);
    }
  }

  /** Trimming cuts whitespace at both ends. */
  lemma TrimIs(s: string) returns (from: nat, to: nat)
    ensures from <= to <= |s| && Trim(s) == s[from..to] && Blank(s[..from]) && Blank(s[to..])
    ensures from < to ==> !White(s[from]) && !White(s[to - 1])
  {
    hide White;
    var cut := TrimEnd(s);
    TrimEndIs(s);
    TrimStartIs(cut);
    to := |cut|;
    from := to - |TrimStart(cut)|;
    assert s[..from] == cut[..from];
  }
}
