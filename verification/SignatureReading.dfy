/** How much of its buffer the editor reads to swap a signature
    (app/src/ui/composer/editor.rs, `lines_to_quote` and `swap_signature`). */
module SignatureReading {
  import opened Text
  import opened Signature
  import opened SignatureScan
  import opened SignatureLimits
  import opened SignatureChange
  import Splice

  /** Where reading takes the signature of `count` lines to end, past the line at `i`. */
  function EndAt(line: string, i: nat, end: nat, count: nat): nat {
    if i >= end && TrimEnd(line) == "--" then i + 1 + count else end
  }

  function EndAfter(lines: seq<string>, i: nat, end: nat, count: nat): nat
    decreases |lines|
  {
    if lines == [] then end else EndAfter(lines[1..], i + 1, EndAt(lines[0], i, end, count), count)
  }

  /** Where reading `lines`, the first of them at `i` of the buffer, stops. */
  function Halt(lines: seq<string>, i: nat, end: nat, count: nat): (at: Option<nat>)
    ensures at.Some? ==> i <= at.value < i + |lines| && QuoteLine(lines[at.value - i])
    decreases |lines|
  {
    if lines == [] then None
    else
      var past := EndAt(lines[0], i, end, count);
      if QuoteLine(lines[0]) && i >= past then Some(i) else Halt(lines[1..], i + 1, past, count)
  }

  /** The lines read to swap `signature`. */
  function Read(buffer: seq<string>, signature: string): (lines: seq<string>)
    ensures lines <= buffer
  {
    var at := Halt(buffer, 0, 0, |Expected(signature)|);
    if at.Some? then buffer[..at.value + 1] else buffer
  }

  method LinesToQuote(buffer: seq<string>, signature: string) returns (lines: seq<string>)
    ensures lines == Read(buffer, signature)
  {
    hide QuoteLine, TrimEnd;
    lines := [];
    var count := |Lines(TrimEnd(signature))|;
    var signatureEnd: nat := 0;
    for line := 0 to |buffer|
      invariant lines == buffer[..line]
      invariant Halt(buffer, 0, 0, count) == Halt(buffer[line..], line, signatureEnd, count)
    {
      var text := buffer[line];
      assert buffer[line..][1..] == buffer[line + 1..];
      if line >= signatureEnd && TrimEnd(text) == "--" {
        signatureEnd := line + 1 + count;
      }
      lines := lines + [text];
      if QuoteLine(text) && line >= signatureEnd {
        return;
      }
    }
  }

  /** The buffer once the signature is swapped: the change is worked out from the lines read. */
  function SwapLines(buffer: seq<string>, was: string, wanted: string, tail: string): seq<string> {
    var change := Change(Read(buffer, was), was, wanted, tail);
    if change.None? then buffer
    else Splice.Replace(buffer, change.value.first, change.value.removed, change.value.lines)
  }

  // ---- Lines joined and split

  /** The first line of a text and the others. */
  lemma SplitFirst(line: string, rest: string)
    requires '\n' !in line
    ensures Split(line + "\n" + rest) == [line] + Split(rest)
  {
    var text, n := line + "\n" + rest, |line|;
    assert text[..n] == line && text[n + 1..] == rest;
    LineEndUnique(text, n);
  }

  lemma {:induction false} SplitAppend(a: string, b: string)
    ensures Split(a + "\n" + b) == Split(a) + Split(b)
  {
    hide Split;
    var n := LineEnd(a);
    if n == |a| {
      assert a[..n] == a;
      SplitFirst(a, b);
      SplitPlain(a);
    } else {
      var first, rest := a[..n], a[n + 1..];
      assert a == first + "\n" + rest;
      SplitAppend(rest, b);
      SplitFirst(first, rest);
      SplitFirst(first, rest + "\n" + b);
      assert a + "\n" + b == first + "\n" + (rest + "\n" + b);
      assert [first] + (Split(rest) + Split(b)) == ([first] + Split(rest)) + Split(b);
    }
  }

  lemma SplitPlain(line: string)
    requires '\n' !in line
    ensures Split(line) == [line]
  {
    LineEndUnique(line, |line|);
  }

  lemma {:induction false} JoinAppend(a: seq<string>, b: seq<string>)
    requires a != [] && b != []
    ensures Join(a + b, "\n") == Join(a, "\n") + "\n" + Join(b, "\n")
  {
    if |a| == 1 {
      assert (a + b)[1..] == b;
    } else {
      assert (a + b)[1..] == a[1..] + b;
      JoinAppend(a[1..], b);
    }
  }

  /** A line with or without the line feed that ends it. */
  ghost predicate Feeds(line: string, piece: string) {
    piece == line || piece == line + "\n"
  }

  /** Splitting a text at its line feeds gives its lines, and an empty one past its end. */
  lemma {:induction false} SplitPieces(s: string)
    ensures var lines, pieces := Split(s), Pieces(s);
            && |lines| == |pieces| + (if s == "" || s[|s| - 1] == '\n' then 1 else 0)
            && (forall i :: 0 <= i < |pieces| ==> Feeds(lines[i], pieces[i]))
            && (|lines| > |pieces| ==> lines[|lines| - 1] == "")
  {
    hide Split, Pieces, Feeds;
    var n := LineEnd(s);
    if n < |s| {
      var first, rest := s[..n], s[n + 1..];
      assert s == first + "\n" + rest && |rest| < |s|;
      SplitPieces(rest);
      SplitFirst(first, rest);
      FirstPiece(first + "\n", rest, n);
      FedFirst(first);
    } else {
      assert s[..n] == s;
      SplitPlain(s);
      LastPiece(s);
      FedFirst(s);
    }
  }

  lemma FedFirst(line: string)
    ensures Feeds(line, line + "\n") && Feeds(line, line)
  {
  }

  lemma LastPiece(line: string)
    requires '\n' !in line
    ensures Pieces(line) == if line == "" then [] else [line]
    ensures line != "" ==> line[|line| - 1] != '\n'
  {
    LineEndUnique(line, |line|);
  }

  /** What the scan asks of a line does not depend on its line feed. */
  lemma FedAlike(line: string, piece: string)
    requires Feeds(line, piece)
    ensures QuoteLine(piece) == QuoteLine(line) && TrimEnd(piece) == TrimEnd(line) && Blank(piece) == Blank(line)
  {
    QuoteBlank(line, "\n");
    TrimEndAppend(line, "\n");
  }

  lemma OriginalSplit(s: string, tail: string, k: nat)
    ensures OriginalWith(Pieces(s), tail, k) <==> OriginalWith(Split(s), tail, k)
  {
    hide QuoteLine, TrimEnd, EndsWith, Split, Pieces, Blank;
    var lines, pieces := Split(s), Pieces(s);
    SplitPieces(s);
    forall i | 0 <= i < |pieces|
      ensures QuoteLine(pieces[i]) == QuoteLine(lines[i]) && TrimEnd(pieces[i]) == TrimEnd(lines[i])
      ensures Blank(pieces[i]) == Blank(lines[i])
    {
      FedAlike(lines[i], pieces[i]);
    }
    NoLine();
    assert k < |pieces| ==> Plain(pieces[..k]) == Plain(lines[..k]) by {
      if k < |pieces| {
        assert forall i :: 0 <= i < k ==> pieces[..k][i] == pieces[i] && lines[..k][i] == lines[i];
      }
    }
  }

  lemma PlainSplit(s: string)
    requires Plain(Pieces(s + "\n"))
    ensures Plain(Split(s))
  {
    hide QuoteLine, Split, Pieces;
    SplitPieces(s + "\n");
    SplitAppend(s, "");
    assert s + "\n" + "" == s + "\n";
    var lines, pieces := Split(s + "\n"), Pieces(s + "\n");
    forall i | 0 <= i < |Split(s)|
      ensures !QuoteLine(Split(s)[i])
    {
      assert Split(s)[i] == lines[i];
      FedAlike(lines[i], pieces[i]);
    }
  }

  /** The lines of a signature are its expected lines but for what trails them. */
  lemma SignatureSplit(signature: string)
    requires !Blank(signature)
    ensures var lines := Split(TrimEnd(signature)); TrimAll(lines) == Expected(signature)
  {
    hide Split, Pieces, TrimAll, TrimEnd;
    var text := TrimEnd(signature);
    EndsVisible(signature);
    TrimmedPieces(text);
    SplitPieces(text);
    var lines, pieces := Split(text), Pieces(text);
    forall i | 0 <= i < |lines|
      ensures TrimAll(lines)[i] == TrimAll(pieces)[i]
    {
      FedAlike(lines[i], pieces[i]);
      TrimmedAt(lines, i);
      TrimmedAt(pieces, i);
    }
  }

  // ---- Where reading stops

  lemma {:induction false} HaltAppend(a: seq<string>, b: seq<string>, i: nat, end: nat, count: nat)
    ensures var first := Halt(a, i, end, count);
            Halt(a + b, i, end, count)
            == if first.Some? then first else Halt(b, i + |a|, EndAfter(a, i, end, count), count)
    decreases |a|
  {
    hide QuoteLine, EndAt;
    if a == [] {
      assert a + b == b;
    } else {
      assert (a + b)[1..] == a[1..] + b;
      HaltAppend(a[1..], b, i + 1, EndAt(a[0], i, end, count), count);
    }
  }

  /** Among lines without a separator reading stops at the first quote line past the end it
      has in mind. */
  lemma {:induction false} HaltPast(lines: seq<string>, i: nat, end: nat, count: nat, j: nat)
    requires Unseparated(lines) && j < |lines|
    ensures var at := Halt(lines, i, end, count);
            QuoteLine(lines[j]) && i + j >= end ==> at.Some? && at.value <= i + j
    ensures var at := Halt(lines, i, end, count); at.Some? ==> at.value >= end
    decreases |lines|
  {
    hide QuoteLine, TrimEnd;
    assert EndAt(lines[0], i, end, count) == end;
    var rest := lines[1..];
    assert Unseparated(rest) by {
      assert forall x :: 0 <= x < |rest| ==> rest[x] == lines[x + 1];
    }
    if rest != [] {
      HaltPast(rest, i + 1, end, count, if j > 0 then j - 1 else 0);
    }
  }

  /** The lines above a signature's own. */
  function LinesAbove(written: string): seq<string> {
    Split(written) + ["", "-- "]
  }

  /** Reading passes every quote line of the signature but its last line: each stands above
      where the separator lines over it make reading expect the signature to end. */
  ghost predicate ReadThrough(written: string, signature: string) {
    var above, lines := LinesAbove(written), Split(TrimEnd(signature));
    var end := EndAfter(above, 0, 0, |lines|);
    forall j :: 0 <= j < |lines| - 1 && |above| + j >= end ==> !QuoteLine(lines[j])
  }

  /** Under its separator reading stops inside an unseparated signature exactly when that
      one is not read through. */
  lemma HaltInside(written: string, signature: string)
    requires !Blank(signature) && NoSeparator(signature)
    ensures var above, lines := LinesAbove(written), Split(TrimEnd(signature));
            var at := Halt(lines, |above|, EndAfter(above, 0, 0, |lines|), |lines|);
            ReadThrough(written, signature) <==> !(at.Some? && at.value < |above| + |lines| - 1)
  {
    hide QuoteLine, TrimEnd, Split, EndAfter;
    var above, lines := LinesAbove(written), Split(TrimEnd(signature));
    var end := EndAfter(above, 0, 0, |lines|);
    var at := Halt(lines, |above|, end, |lines|);
    SignatureSplit(signature);
    UnseparatedLines(lines);
    HaltPast(lines, |above|, end, |lines|, 0);
    forall j | 0 <= j < |lines| - 1 && |above| + j >= end && QuoteLine(lines[j])
      ensures at.Some? && at.value < |above| + |lines| - 1
    {
      HaltPast(lines, |above|, end, |lines|, j);
    }
  }

  lemma {:induction false} HaltPlain(lines: seq<string>, i: nat, end: nat, count: nat)
    requires Plain(lines)
    ensures Halt(lines, i, end, count) == None
    decreases |lines|
  {
    hide QuoteLine, EndAt;
    if lines != [] {
      assert Plain(lines[1..]) by {
        assert forall x :: 0 <= x < |lines| - 1 ==> lines[1..][x] == lines[x + 1];
      }
      HaltPlain(lines[1..], i + 1, EndAt(lines[0], i, end, count), count);
    }
  }

  lemma SeparatorPlain()
    ensures !QuoteLine("") && !QuoteLine("-- ")
  {
  }

  /** Reading does not stop in the words. */
  predicate PassesWords(written: string, signature: string) {
    Halt(Split(written), 0, 0, |Split(TrimEnd(signature))|).None?
  }

  /** Where reading a signed buffer stops: inside the signature, below it, or nowhere. */
  lemma HaltSigned(written: string, signature: string, rest: seq<string>)
    requires !Blank(signature) && PassesWords(written, signature)
    ensures var above, lines := LinesAbove(written), Split(TrimEnd(signature));
            var at := Halt(above + lines + rest, 0, 0, |lines|);
            && (at.Some? ==> at.value >= |above|)
            && (NoSeparator(signature) ==>
                (ReadThrough(written, signature) <==> !(at.Some? && at.value < |above| + |lines| - 1)))
  {
    hide QuoteLine, TrimEnd, Split, EndAfter, Halt, NoSeparator, ReadThrough;
    var above, lines := LinesAbove(written), Split(TrimEnd(signature));
    var end := EndAfter(above, 0, 0, |lines|);
    HaltAppend(Split(written), ["", "-- "], 0, 0, |lines|);
    SeparatorPlain();
    HaltPlain(["", "-- "], |Split(written)|, EndAfter(Split(written), 0, 0, |lines|), |lines|);
    assert above + lines + rest == above + (lines + rest);
    HaltAppend(above, lines + rest, 0, 0, |lines|);
    HaltAppend(lines, rest, |above|, end, |lines|);
    if NoSeparator(signature) {
      HaltInside(written, signature);
    }
  }

  // ---- What is read of a signed buffer

  lemma SignedLines(written: string, signature: string, quoted: string)
    ensures Split(Signed(written, signature, quoted))
            == LinesAbove(written) + Split(TrimEnd(signature)) + (if quoted == "" then [] else [""] + Split(quoted))
  {
    hide Split, TrimEnd;
    var text := TrimEnd(signature);
    var under := if quoted == "" then text else text + "\n" + ("" + "\n" + quoted);
    assert Signed(written, signature, quoted) == written + "\n" + ("" + "\n" + ("-- " + "\n" + under));
    SplitAppend(written, "" + "\n" + ("-- " + "\n" + under));
    SplitAppend("", "-- " + "\n" + under);
    SplitAppend("-- ", under);
    SplitPlain("");
    SplitPlain("-- ");
    if quoted != "" {
      SplitAppend(text, "" + "\n" + quoted);
      SplitAppend("", quoted);
    }
    Regroup(Split(written), Split(text), if quoted == "" then [] else [""] + Split(quoted));
  }

  lemma Regroup(a: seq<string>, b: seq<string>, c: seq<string>)
    ensures a + ([""] + (["-- "] + (b + c))) == a + ["", "-- "] + b + c
    ensures b + [] == b
  {
  }

  /** Swapping works on the lines read: what it makes of them, over the others. */
  lemma SwapOfRead(buffer: seq<string>, was: string, wanted: string, tail: string)
    requires Buffer(buffer)
    ensures var read, swapped := Read(buffer, was), SwapLines(buffer, was, wanted, tail);
            && Buffer(read)
            && swapped == Split(RestyleSignature(Join(read, "\n"), was, wanted, tail)) + buffer[|read|..]
  {
    hide RestyleSignature, Join, Split, Halt, Expected;
    var read := Read(buffer, was);
    ChangeExact(read, was, wanted, tail);
    var change := Change(read, was, wanted, tail);
    assert buffer == read + buffer[|read|..];
    if change.Some? {
      ReplaceAppend(read, buffer[|read|..], change.value.first, change.value.removed, change.value.lines);
    }
  }

  lemma ReplaceAppend<T>(a: seq<T>, b: seq<T>, position: nat, removed: nat, items: seq<T>)
    requires position + removed <= |a|
    ensures Splice.Replace(a + b, position, removed, items) == Splice.Replace(a, position, removed, items) + b
  {
  }

  /** The buffer becomes the restyled text exactly when restyling the lines read, the others
      put under them again, is restyling all. */
  lemma SwapAsText(buffer: seq<string>, was: string, wanted: string, tail: string)
    requires Buffer(buffer)
    ensures var read, all := Read(buffer, was), RestyleSignature(Join(buffer, "\n"), was, wanted, tail);
            var part := RestyleSignature(Join(read, "\n"), was, wanted, tail);
            SwapLines(buffer, was, wanted, tail) == Split(all)
            <==> (if read == buffer then part else part + "\n" + Join(buffer[|read|..], "\n")) == all
  {
    hide RestyleSignature, Join, Split, Read, SwapLines;
    var read := Read(buffer, was);
    var part := RestyleSignature(Join(read, "\n"), was, wanted, tail);
    var more := buffer[|read|..];
    SwapOfRead(buffer, was, wanted, tail);
    assert buffer == read + more;
    if read == buffer {
      assert Split(part) + more == Split(part);
    } else {
      assert Buffer(more);
      SplitJoin(more);
      SplitAppend(part, Join(more, "\n"));
    }
  }

  // ---- What restyling makes of what is read

  /** A message under whose words a signature was put: no quote is found in the words. */
  ghost predicate Message(written: string, signature: string, quoted: string, tail: string) {
    && !Blank(signature) && !EndsWith("--", tail) && QuoteAt(written, signature, tail).None?
    && (quoted != "" ==> Original(Pieces(quoted), tail))
  }

  ghost function Restyled(written: string, was: string, quoted: string, wanted: string): string {
    if NoSeparator(was) then Swapped(TrimLineFeeds(written), wanted, quoted) else Signed(written, was, quoted)
  }

  lemma RestyleMessage(written: string, was: string, quoted: string, wanted: string, tail: string)
    requires Message(written, was, quoted, tail)
    ensures RestyleSignature(Signed(written, was, quoted), was, wanted, tail) == Restyled(written, was, quoted, wanted)
  {
    hide RestyleSignature, Signed, NoSeparator, Swapped, Pieces, Original, TrimEnd, EndsWith, QuoteAt, TrimLineFeeds;
    SwapTyped(written, was, quoted, wanted, tail);
  }

  /** A signature of which not all is there is left as it stands. */
  lemma PartLeft(written: string, was: string, cut: nat, wanted: string, tail: string)
    requires Message(written, was, "", tail) && cut < |TrimEnd(was)|
    ensures var part := Above(written) + TrimEnd(was)[..cut]; RestyleSignature(part, was, wanted, tail) == part
  {
    hide QuoteAt, SignatureAt, TrimEnd, EndsWith, Blank, Pieces, RestyleSignature, Above;
    var under := TrimEnd(was)[..cut];
    var part := Above(written) + under;
    QuoteBelowSeparator(written, under, was, tail);
    AboveLength(written);
    var found := QuoteAt(part, was, tail);
    PartNotFound(written, was, cut, if found.Some? then found.value else |part|);
    NotRestyled(part, was, wanted, tail);
  }

  lemma PartNotFound(written: string, was: string, cut: nat, quote: nat)
    requires !Blank(was) && cut < |TrimEnd(was)| && |Above(written)| <= quote <= |Above(written)| + cut
    ensures SignatureAt((Above(written) + TrimEnd(was)[..cut])[..quote], was) == None
  {
    hide SignatureAt, TrimEnd, Blank, Above;
    PartUntil(Above(written), TrimEnd(was), cut, quote);
    NotFound(written, was, TrimEnd(was)[..quote - |Above(written)|]);
  }

  lemma AboveLength(written: string)
    ensures |Above(written)| == |written| + 6
  {
  }

  lemma NotRestyled(text: string, was: string, wanted: string, tail: string)
    requires !Blank(was)
    requires var found := QuoteAt(text, was, tail);
             SignatureAt(text[..if found.Some? then found.value else |text|], was) == None
    ensures RestyleSignature(text, was, wanted, tail) == text
  {
    hide QuoteAt, SignatureAt;
  }

  lemma PartUntil(above: string, text: string, cut: nat, quote: nat)
    requires cut <= |text| && |above| <= quote <= |above| + cut
    ensures (above + text[..cut])[..quote] == above + text[..quote - |above|]
  {
  }

  lemma {:induction false} TrimLineFeedsIs(s: string)
    ensures var t := TrimLineFeeds(s); t <= s && forall i :: |t| <= i < |s| ==> s[i] == '\n'
  {
    if s != "" && s[|s| - 1] == '\n' {
      TrimLineFeedsIs(s[..|s| - 1]);
    }
  }

  /** Nothing changes when both signatures are put in alike and no line feed ends the words. */
  ghost predicate Unchanged(written: string, was: string, wanted: string) {
    TrimEnd(was) == TrimEnd(wanted) && TrimLineFeeds(written) == written
  }

  lemma SwappedSame(written: string, was: string, quoted: string, wanted: string)
    requires !Blank(was)
    ensures Swapped(TrimLineFeeds(written), wanted, quoted) == Signed(written, was, quoted)
            <==> Unchanged(written, was, wanted)
  {
    hide TrimEnd, TrimLineFeeds;
    EndsVisible(was);
    TrimLineFeedsIs(written);
    var words, rest := TrimLineFeeds(written), if quoted == "" then "" else "\n\n" + quoted;
    var swapped, signed := Swapped(words, wanted, quoted), Signed(written, was, quoted);
    assert signed == written + SignatureBlock(was) + rest;
    if Blank(wanted) {
      TrimEndUnique(wanted, "");
      assert swapped == words + rest;
    } else if words == written {
      assert swapped == Signed(written, wanted, quoted);
      SameSigned(written, was, wanted, quoted);
    } else {
      assert swapped[|words| + 2] == '-' && signed[|words| + 2] == '\n';
    }
  }

  lemma RestyledMore(written: string, was: string, quoted: string, more: string, wanted: string)
    requires quoted != ""
    ensures Restyled(written, was, quoted, wanted) + "\n" + more == Restyled(written, was, quoted + "\n" + more, wanted)
  {
    hide TrimEnd, NoSeparator;
    assert Signed(written, was, quoted) + "\n" + more == Signed(written, was, quoted + "\n" + more);
    assert Swapped(written, wanted, quoted) + "\n" + more == Swapped(written, wanted, quoted + "\n" + more);
  }

  lemma RestyledOver(written: string, was: string, quoted: string, wanted: string)
    requires quoted != ""
    ensures Restyled(written, was, "", wanted) + "\n" + ("" + "\n" + quoted) == Restyled(written, was, quoted, wanted)
  {
    hide TrimEnd, NoSeparator;
    assert Signed(written, was, "") + "\n" + ("" + "\n" + quoted) == Signed(written, was, quoted);
    assert Swapped(written, wanted, "") + "\n" + ("" + "\n" + quoted) == Swapped(written, wanted, quoted);
  }

  // ---- The law

  /** Reading that stops in the original loses nothing. */
  lemma StopsBelow(buffer: seq<string>, written: string, was: string, quoted: string, x: nat, wanted: string,
                   tail: string)
    requires Message(written, was, quoted, tail) && quoted != ""
    requires buffer == Split(Signed(written, was, quoted)) && x < |Split(quoted)| && QuoteLine(Split(quoted)[x])
    requires Read(buffer, was) == LinesAbove(written) + Split(TrimEnd(was)) + ([""] + Split(quoted)[..x + 1])
    ensures SwapLines(buffer, was, wanted, tail) == Split(RestyleSignature(Join(buffer, "\n"), was, wanted, tail))
  {
    hide RestyleSignature, Join, Split, Read, SwapLines, Signed, Message, QuoteLine, TrimEnd, LinesAbove;
    var lines := Split(quoted);
    var shown, more := Join(lines[..x + 1], "\n"), lines[x + 1..];
    SplitLines(quoted);
    SplitLines(Signed(written, was, quoted));
    assert Buffer(lines[..x + 1]);
    SplitJoin(lines[..x + 1]);
    ShownOriginal(written, was, quoted, x, tail);
    SignedLines(written, was, shown);
    SignedLines(written, was, quoted);
    RestyleMessage(written, was, shown, wanted, tail);
    RestyleMessage(written, was, quoted, wanted, tail);
    SwapAsText(buffer, was, wanted, tail);
    assert lines == lines[..x + 1] + more;
    var above := LinesAbove(written) + Split(TrimEnd(was));
    RestOf(above, lines, x);
    if more != [] {
      JoinAppend(lines[..x + 1], more);
      RestyledMore(written, was, shown, Join(more, "\n"), wanted);
    } else {
      assert lines[..x + 1] == lines;
    }
  }

  lemma RestOf(above: seq<string>, lines: seq<string>, x: nat)
    requires x < |lines|
    ensures var buffer, read := above + ([""] + lines), above + ([""] + lines[..x + 1]);
            && buffer[|read|..] == lines[x + 1..] && (read == buffer <==> lines[x + 1..] == [])
  {
    var buffer, read := above + ([""] + lines), above + ([""] + lines[..x + 1]);
    assert |read| == |buffer| ==> lines[..x + 1] == lines;
  }

  /** What is read of an original down to one of its quote lines is an original. */
  lemma ShownOriginal(written: string, was: string, quoted: string, x: nat, tail: string)
    requires Message(written, was, quoted, tail) && quoted != ""
    requires x < |Split(quoted)| && QuoteLine(Split(quoted)[x])
    ensures var shown := Join(Split(quoted)[..x + 1], "\n"); shown != "" && Message(written, was, shown, tail)
  {
    hide Join, Split, QuoteLine, TrimEnd, Blank, EndsWith, Pieces;
    var lines, part := Split(quoted), Split(quoted)[..x + 1];
    var shown := Join(part, "\n");
    assert Original(Pieces(quoted), tail);
    var k: nat :| OriginalWith(Pieces(quoted), tail, k);
    OriginalSplit(quoted, tail, k);
    SplitLines(quoted);
    assert Buffer(part);
    SplitJoin(part);
    assert k <= x;
    assert part[..k] == lines[..k];
    OriginalSplit(shown, tail, k);
    assert Pieces(shown) != [];
  }

  /** Reading that stops at the last line of the signature loses nothing. */
  lemma StopsAtEnd(buffer: seq<string>, written: string, was: string, quoted: string, wanted: string, tail: string)
    requires Message(written, was, quoted, tail) && buffer == Split(Signed(written, was, quoted))
    requires Read(buffer, was) == LinesAbove(written) + Split(TrimEnd(was))
    ensures SwapLines(buffer, was, wanted, tail) == Split(RestyleSignature(Join(buffer, "\n"), was, wanted, tail))
  {
    hide RestyleSignature, Join, Split, Read, SwapLines, Signed, QuoteLine, TrimEnd, LinesAbove, EndsWith, Pieces;
    var read := LinesAbove(written) + Split(TrimEnd(was));
    SplitLines(Signed(written, was, quoted));
    SignedLines(written, was, "");
    SignedLines(written, was, quoted);
    assert read + [] == read;
    RestyleMessage(written, was, "", wanted, tail);
    RestyleMessage(written, was, quoted, wanted, tail);
    SwapAsText(buffer, was, wanted, tail);
    if quoted != "" {
      var more := [""] + Split(quoted);
      assert buffer[|read|..] == more && read != buffer;
      JoinAppend([""], Split(quoted));
      assert Join([""], "\n") == "" by {
        SplitPlain("");
      }
      RestyledOver(written, was, quoted, wanted);
    }
  }

  /** Reading that stops inside the signature leaves the buffer as it is. */
  lemma StopsInside(buffer: seq<string>, written: string, was: string, quoted: string, j: nat, wanted: string,
                    tail: string)
    requires Message(written, was, quoted, tail) && buffer == Split(Signed(written, was, quoted))
    requires j + 1 < |Split(TrimEnd(was))|
    requires Read(buffer, was) == LinesAbove(written) + Split(TrimEnd(was))[..j + 1]
    ensures SwapLines(buffer, was, wanted, tail) == Split(RestyleSignature(Join(buffer, "\n"), was, wanted, tail))
            <==> !NoSeparator(was) || Unchanged(written, was, wanted)
    ensures SwapLines(buffer, was, wanted, tail) == buffer
  {
    hide RestyleSignature, Join, Split, Read, SwapLines, Signed, QuoteLine, TrimEnd, LinesAbove, EndsWith, Pieces;
    hide NoSeparator, Swapped, QuoteAt, TrimLineFeeds, Unchanged;
    var text := TrimEnd(was);
    var lines := Split(text);
    var part, low := lines[..j + 1], lines[j + 1..];
    var rest := if quoted == "" then [] else [""] + Split(quoted);
    SplitLines(Signed(written, was, quoted));
    SignedLines(written, was, quoted);
    assert lines == part + low;
    PartText(written, part);
    JoinAppend(part, low);
    var cut := |Join(part, "\n")|;
    assert text[..cut] == Join(part, "\n");
    PartLeft(written, was, cut, wanted, tail);
    RestyleMessage(written, was, quoted, wanted, tail);
    SwapAsText(buffer, was, wanted, tail);
    var read := LinesAbove(written) + part;
    assert buffer == read + (low + rest);
    JoinAppend(read, low + rest);
    SwapOfRead(buffer, was, wanted, tail);
    assert Buffer(read);
    SplitJoin(read);
    SwappedSame(written, was, quoted, wanted);
  }

  /** The lines above the signature and some of its own, as text. */
  lemma PartText(written: string, part: seq<string>)
    requires part != []
    ensures Join(LinesAbove(written) + part, "\n") == Above(written) + Join(part, "\n")
  {
    hide Join, Split;
    JoinAppend(LinesAbove(written), part);
    JoinAppend(Split(written), ["", "-- "]);
    JoinAppend([""], ["-- "]);
    assert ["", "-- "] == [""] + ["-- "];
    SplitPlain("");
    SplitPlain("-- ");
  }

  /** In the buffer of a message whose words are read through, the editor swaps the signature as
      in the whole text exactly when the signature holds a separator line of its own, or is read
      through, or nothing would change. */
  lemma TypedReadExact(buffer: seq<string>, written: string, was: string, quoted: string, wanted: string, tail: string)
    requires Message(written, was, quoted, tail) && PassesWords(written, was)
    requires buffer == Split(Signed(written, was, quoted))
    ensures SwapLines(buffer, was, wanted, tail) == Split(RestyleSignature(Join(buffer, "\n"), was, wanted, tail))
            <==> !NoSeparator(was) || ReadThrough(written, was) || Unchanged(written, was, wanted)
    ensures !ReadThrough(written, was) && NoSeparator(was) ==> SwapLines(buffer, was, wanted, tail) == buffer
  {
    hide RestyleSignature, Join, Split, SwapLines, Signed, QuoteLine, TrimEnd, LinesAbove, EndsWith, Pieces, Halt;
    hide NoSeparator, ReadThrough, Expected, PassesWords, Message, Unchanged;
    var above, lines := LinesAbove(written), Split(TrimEnd(was));
    var rest := if quoted == "" then [] else [""] + Split(quoted);
    SplitLines(Signed(written, was, quoted));
    SignedLines(written, was, quoted);
    MessageVisible(written, was, quoted, tail);
    SignatureSplit(was);
    HaltSigned(written, was, rest);
    SwapAsText(buffer, was, wanted, tail);
    var at := Halt(buffer, 0, 0, |lines|);
    if at.Some? {
      var n := at.value;
      if n < |above| + |lines| {
        ReadPart(above, lines, rest, n + 1);
        if n + 1 == |above| + |lines| {
          StopsAtEnd(buffer, written, was, quoted, wanted, tail);
        } else {
          StopsInside(buffer, written, was, quoted, n - |above|, wanted, tail);
        }
      } else {
        SeparatorPlain();
        ReadRest(above + lines, Split(quoted), n);
        StopsBelow(buffer, written, was, quoted, n - |above| - |lines| - 1, wanted, tail);
      }
    }
  }

  lemma MessageVisible(written: string, was: string, quoted: string, tail: string)
    requires Message(written, was, quoted, tail)
    ensures !Blank(was)
  {
  }

  lemma ReadPart<T>(above: seq<T>, lines: seq<T>, rest: seq<T>, n: nat)
    requires |above| <= n <= |above| + |lines|
    ensures (above + lines + rest)[..n] == above + lines[..n - |above|]
    ensures lines[..|lines|] == lines
  {
  }

  lemma ReadRest(above: seq<string>, lines: seq<string>, n: nat)
    requires |above| < n <= |above| + |lines|
    ensures var x := n - |above| - 1;
            && (above + ([""] + lines))[..n + 1] == above + ([""] + lines[..x + 1])
            && (above + ([""] + lines))[n] == lines[x]
  {
  }

  lemma PlainPasses(written: string, was: string)
    requires Plain(Pieces(written + "\n"))
    ensures PassesWords(written, was)
  {
    hide Split, Pieces, TrimEnd;
    PlainSplit(written);
    HaltPlain(Split(written), 0, 0, |Split(TrimEnd(was))|);
  }

  lemma EndsUnfed(written: string)
    requires written != "" ==> !White(written[|written| - 1])
    ensures TrimLineFeeds(written) == written
  {
  }

  /** In the buffer of a signed message the editor's swap gives the lines of the restyled text
      exactly when the old signature holds a separator line of its own, as then nothing changes,
      or reading passes its quote lines but for its last line, or both are put in alike. */
  lemma ReadExact(buffer: seq<string>, markdown: string, was: string, wanted: string, tail: string)
    requires Buffer(buffer) && Join(buffer, "\n") == WithSignature(markdown, was, tail)
    requires !Blank(was) && !EndsWith("--", tail)
    ensures SwapLines(buffer, was, wanted, tail) == Split(RestyleSignature(Join(buffer, "\n"), was, wanted, tail))
            <==> !NoSeparator(was) || ReadThrough(Cut(markdown, tail).0, was) || TrimEnd(was) == TrimEnd(wanted)
    ensures !NoSeparator(was) || !ReadThrough(Cut(markdown, tail).0, was) ==>
              SwapLines(buffer, was, wanted, tail) == buffer
  {
    hide RestyleSignature, Join, Split, SwapLines, Signed, TrimEnd, EndsWith, Pieces, NoSeparator, ReadThrough, Cut;
    hide WithSignature, Plain, Original, Blank, QuoteAt, TrimLineFeeds, PassesWords;
    CutParts(markdown, tail);
    var (written, quoted) := Cut(markdown, tail);
    WithIsSigned(markdown, was, tail);
    SplitJoin(buffer);
    PlainUnquoted(written, was, tail);
    PlainPasses(written, was);
    EndsUnfed(written);
    TypedReadExact(buffer, written, was, quoted, wanted, tail);
    if !NoSeparator(was) {
      LeftInPlace(written, was, quoted, wanted, tail);
    }
  }

  /** It gives the message signed with the other signature exactly when the old one holds no
      separator line of its own and reading passes its quote lines but for its last line, or
      both are put in alike; else it leaves the buffer as it is. */
  lemma EditorSwapExact(buffer: seq<string>, markdown: string, was: string, wanted: string, tail: string)
    requires Buffer(buffer) && Join(buffer, "\n") == WithSignature(markdown, was, tail)
    requires !Blank(was) && !Blank(wanted) && !EndsWith("--", tail)
    ensures SwapLines(buffer, was, wanted, tail) == Split(WithSignature(markdown, wanted, tail))
            <==> (NoSeparator(was) && ReadThrough(Cut(markdown, tail).0, was)) || TrimEnd(was) == TrimEnd(wanted)
    ensures !NoSeparator(was) || !ReadThrough(Cut(markdown, tail).0, was) ==>
              SwapLines(buffer, was, wanted, tail) == buffer
  {
    hide RestyleSignature, Join, Split, SwapLines, Signed, TrimEnd, EndsWith, Pieces, NoSeparator, ReadThrough, Cut;
    hide WithSignature, Plain, Original, Blank;
    var (written, quoted) := Cut(markdown, tail);
    WithIsSigned(markdown, was, tail);
    WithIsSigned(markdown, wanted, tail);
    SplitJoin(buffer);
    SameSigned(written, was, wanted, quoted);
    SwapExact(markdown, was, wanted, tail);
    ReadExact(buffer, markdown, was, wanted, tail);
  }

  // ---- Buffers read down to the quote

  /** With nothing expected, or no separator line to expect it under, a quote line is found. */
  lemma {:induction false} QuoteFound(s: Scan, lines: seq<string>, expected: seq<string>, tail: string, x: nat)
    requires x < |lines| && QuoteLine(lines[x]) && s.candidate.None? && (expected == [] || Unseparated(lines))
    ensures After(s, lines, expected, tail).found.Some?
    decreases |lines|
  {
    hide QuoteLine, TrimEnd, EndsWith, Blank;
    if s.found.Some? {
      Settled(s, lines, expected, tail);
    } else if x == 0 {
      Settled(Step(s, lines[0], expected, tail), lines[1..], expected, tail);
    } else {
      assert forall i :: 0 <= i < |lines[1..]| ==> lines[1..][i] == lines[i + 1];
      QuoteFound(Step(s, lines[0], expected, tail), lines[1..], expected, tail, x - 1);
    }
  }

  lemma JoinLast(lines: seq<string>)
    requires lines != [] && lines[|lines| - 1] != ""
    ensures var text, last := Join(lines, "\n"), lines[|lines| - 1];
            text != "" && text[|text| - 1] == last[|last| - 1]
  {
    hide Join;
    var above, last := lines[..|lines| - 1], lines[|lines| - 1];
    assert lines == above + [last];
    assert Join([last], "\n") == last by {
      JoinOne(last);
    }
    if above != [] {
      JoinAppend(above, [last]);
    }
  }

  lemma JoinOne(line: string)
    ensures Join([line], "\n") == line
  {
  }

  /** Lines down to a quote line hold the quote when no signature is expected under them. */
  lemma QuoteRead(lines: seq<string>, was: string, tail: string)
    requires Buffer(lines) && QuoteLine(lines[|lines| - 1]) && (Blank(was) || Unseparated(lines))
    ensures QuoteAt(Join(lines, "\n"), was, tail).Some?
  {
    hide QuoteLine, Join, Split, Pieces, EndsWith, Blank, TrimEnd, Expected;
    var text, x := Join(lines, "\n"), |lines| - 1;
    NoLine();
    JoinLast(lines);
    SplitJoin(lines);
    assert '\n' !in lines[x];
    SplitPieces(text);
    forall i | 0 <= i < |lines|
      ensures QuoteLine(Pieces(text)[i]) == QuoteLine(lines[i]) && TrimEnd(Pieces(text)[i]) == TrimEnd(lines[i])
    {
      FedAlike(lines[i], Pieces(text)[i]);
    }
    if Blank(was) {
      BlankExpected(was);
    }
    QuoteFound(START, Pieces(text), Expected(was), tail, x);
  }

  lemma BlankExpected(was: string)
    requires Blank(was)
    ensures Expected(was) == []
  {
    TrimEndUnique(was, "");
    NothingExpected();
  }

  /** Reading that holds the quote the scan finds, or all there is, loses nothing in any buffer. */
  lemma ReadHolds(buffer: seq<string>, was: string, wanted: string, tail: string)
    requires Buffer(buffer)
    requires Read(buffer, was) == buffer || QuoteAt(Join(Read(buffer, was), "\n"), was, tail).Some?
    ensures SwapLines(buffer, was, wanted, tail) == Split(RestyleSignature(Join(buffer, "\n"), was, wanted, tail))
  {
    hide RestyleSignature, Join, Split, SwapLines, QuoteLine, Halt, Expected, QuoteAt;
    var read := Read(buffer, was);
    SwapAsText(buffer, was, wanted, tail);
    if read != buffer {
      var more := buffer[|read|..];
      assert buffer == read + more;
      JoinAppend(read, more);
      ReadToTheQuote(Join(read, "\n"), Join(more, "\n"), was, wanted, tail);
    }
  }

  /** It does where no line read is a separator, or no signature was there. */
  lemma ReadUnseparated(buffer: seq<string>, was: string, wanted: string, tail: string)
    requires Buffer(buffer) && (Blank(was) || Unseparated(Read(buffer, was)))
    ensures SwapLines(buffer, was, wanted, tail) == Split(RestyleSignature(Join(buffer, "\n"), was, wanted, tail))
  {
    hide RestyleSignature, Join, Split, SwapLines, QuoteLine, Halt, Expected, QuoteAt, Unseparated, Blank;
    var read := Read(buffer, was);
    if read != buffer {
      assert Buffer(read) && QuoteLine(read[|read| - 1]);
      QuoteRead(read, was, tail);
    }
    ReadHolds(buffer, was, wanted, tail);
  }

  lemma {:induction false} EndUnseparated(lines: seq<string>, i: nat, end: nat, count: nat)
    requires Unseparated(lines)
    ensures EndAfter(lines, i, end, count) == end
    decreases |lines|
  {
    hide TrimEnd;
    if lines != [] {
      assert Unseparated(lines[1..]) by {
        assert forall x :: 0 <= x < |lines| - 1 ==> lines[1..][x] == lines[x + 1];
      }
      EndUnseparated(lines[1..], i + 1, end, count);
    }
  }

  lemma {:induction false} EndAppend(a: seq<string>, b: seq<string>, i: nat, end: nat, count: nat)
    ensures EndAfter(a + b, i, end, count) == EndAfter(b, i + |a|, EndAfter(a, i, end, count), count)
    decreases |a|
  {
    hide EndAt;
    if a == [] {
      assert a + b == b;
    } else {
      assert (a + b)[1..] == a[1..] + b;
      EndAppend(a[1..], b, i + 1, EndAt(a[0], i, end, count), count);
    }
  }

  lemma EndOfTwo(one: string, two: string, i: nat, end: nat, count: nat)
    ensures EndAfter([one, two], i, end, count) == EndAt(two, i + 1, EndAt(one, i, end, count), count)
  {
    assert [one, two][1..] == [two] && [two][1..] == [];
    assert EndAfter([two], i + 1, EndAt(one, i, end, count), count)
        == EndAt(two, i + 1, EndAt(one, i, end, count), count);
  }

  /** Under words without a separator line every signature is read through. */
  lemma WordsUnseparated(written: string, signature: string)
    requires Unseparated(Split(written))
    ensures ReadThrough(written, signature)
  {
    hide Split, TrimEnd, QuoteLine;
    var lines := Split(written);
    var count := |Split(TrimEnd(signature))|;
    EndUnseparated(lines, 0, 0, count);
    EndAppend(lines, ["", "-- "], 0, 0, count);
    EndOfTwo("", "-- ", |lines|, 0, count);
    SeparatorSpace();
  }

  /** Under such words, quote lines among them or not, the editor swaps an untouched signature
      as in the whole text. */
  lemma WordsRead(buffer: seq<string>, written: string, was: string, quoted: string, wanted: string, tail: string)
    requires !Blank(was) && !EndsWith("--", tail) && (quoted != "" ==> Original(Pieces(quoted), tail))
    requires Unseparated(Split(written)) && buffer == Split(Signed(written, was, quoted))
    ensures SwapLines(buffer, was, wanted, tail) == Split(RestyleSignature(Join(buffer, "\n"), was, wanted, tail))
  {
    hide RestyleSignature, Join, Split, SwapLines, QuoteLine, Halt, Expected, QuoteAt, Blank, Signed, TrimEnd;
    hide Original, EndsWith, Pieces, ReadThrough, Unchanged, NoSeparator;
    var words, count := Split(written), |Split(TrimEnd(was))|;
    SplitLines(Signed(written, was, quoted));
    SignatureSplit(was);
    SignedLines(written, was, quoted);
    var rest := buffer[|words|..];
    assert buffer == words + rest;
    HaltAppend(words, rest, 0, 0, count);
    var at := Halt(words, 0, 0, count);
    if at.Some? {
      assert Read(buffer, was) == words[..at.value + 1];
      ReadUnseparated(buffer, was, wanted, tail);
    } else {
      PassesPlain(words, 0, count);
      UnquotedWords(written, was, tail);
      WordsUnseparated(written, was);
      TypedReadExact(buffer, written, was, quoted, wanted, tail);
    }
  }

  lemma {:induction false} PassesPlain(lines: seq<string>, i: nat, count: nat)
    requires Unseparated(lines) && Halt(lines, i, 0, count).None?
    ensures Plain(lines)
    decreases |lines|
  {
    hide QuoteLine, TrimEnd;
    if lines != [] {
      assert forall x :: 0 <= x < |lines| - 1 ==> lines[1..][x] == lines[x + 1];
      PassesPlain(lines[1..], i + 1, count);
    }
  }

  lemma UnquotedWords(written: string, was: string, tail: string)
    requires Plain(Split(written))
    ensures QuoteAt(written, was, tail).None?
  {
    hide QuoteLine, Split, Pieces, After, Expected;
    var lines, pieces := Split(written), Pieces(written);
    SplitPieces(written);
    forall i | 0 <= i < |pieces|
      ensures !QuoteLine(pieces[i])
    {
      FedAlike(lines[i], pieces[i]);
    }
    ScanPlain(START, pieces, Expected(was), tail);
  }

  lemma SeparatorSpace()
    ensures TrimEnd("-- ") == "--" && TrimEnd("") == ""
  {
    TrimEndUnique("-- ", "--");
  }

  /** A line `--` among the words can make reading stop inside a signature with a quote: it
      is not swapped, though in the whole text it would be. */
  lemma StrayDashes(wanted: string, tail: string)
    requires !Blank(wanted) && TrimEnd(wanted) != "> q\nX" && !EndsWith("--", tail)
    ensures var buffer, was := ["--", "", "-- ", "> q", "X"], "> q\nX";
            && Join(buffer, "\n") == WithSignature("--", was, tail)
            && RestyleSignature(Join(buffer, "\n"), was, wanted, tail) == WithSignature("--", wanted, tail)
            && SwapLines(buffer, was, wanted, tail) == buffer != Split(WithSignature("--", wanted, tail))
  {
    var buffer, was := ["--", "", "-- ", "> q", "X"], "> q\nX";
    hide RestyleSignature, Split, SwapLines, EndsWith, Pieces, ReadThrough, WithSignature, Plain, Original;
    hide Join, SignatureBlock, Cut, NoSeparator, Signed;
    LineCut("--", tail);
    StraySignature();
    WithIsSigned("--", was, tail);
    StrayText();
    assert Buffer(buffer);
    SwapIsInsert("--", was, wanted, tail);
    EditorSwapExact(buffer, "--", was, wanted, tail);
  }

  lemma StraySignature()
    ensures var was := "> q\nX";
            !Blank(was) && TrimEnd(was) == was && NoSeparator(was) && !ReadThrough("--", was)
  {
    var was := "> q\nX";
    hide Split, LinesAbove, Expected, EndAfter, TrimEnd, TrimAll;
    assert was[4] == 'X';
    TrimEndUnique(was, was);
    StrayLines();
    SignatureSplit(was);
    TrimmedAt(["> q", "X"], 0);
    TrimmedAt(["> q", "X"], 1);
    TrimEndUnique("> q", "> q");
    TrimEndUnique("X", "X");
    StrayEnd();
  }

  lemma StrayLines()
    ensures Split("> q\nX") == ["> q", "X"] && LinesAbove("--") == ["--", "", "-- "]
  {
    SplitAppend("> q", "X");
    SplitPlain("> q");
    SplitPlain("X");
    SplitPlain("--");
    assert "> q" + "\n" + "X" == "> q\nX";
  }

  lemma StrayEnd()
    ensures EndAfter(["--", "", "-- "], 0, 0, 2) == 3
  {
    SeparatorSpace();
    TrimEndUnique("--", "--");
    EndOfTwo("", "-- ", 1, 3, 2);
    assert ["--", "", "-- "][1..] == ["", "-- "];
  }

  lemma StrayText()
    ensures Join(["--", "", "-- ", "> q", "X"], "\n") == Signed("--", "> q\nX", "")
  {
    StraySignature();
    StrayLines();
    SignedLines("--", "> q\nX", "");
    assert ["--", "", "-- "] + ["> q", "X"] + [] == ["--", "", "-- ", "> q", "X"];
  }
}
