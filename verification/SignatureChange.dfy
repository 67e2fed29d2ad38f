/** Swapping a signature line by line in the editor's buffer
    (app/src/compose.rs, `signature_change`). */
module SignatureChange {
  import opened Text
  import opened Signature
  import Splice

  /** Lines to put in place of others. */
  datatype LineChange = LineChange(first: nat, removed: nat, lines: seq<string>)

  function Change(lines: seq<string>, was: string, wanted: string, tail: string): (change: Option<LineChange>)
    ensures change.Some? ==> change.value.first + change.value.removed <= |lines|
  {
    var text := Join(lines, "\n");
    var swapped := RestyleSignature(text, was, wanted, tail);
    if swapped == text then None
    else
      var after := Split(swapped);
      var (first, kept) := Splice.Kept(lines, after);
      Some(LineChange(first, |lines| - first - kept, after[first..|after| - kept]))
  }

  /** Lines as an editor holds them: at least one, and no line feed in any. */
  ghost predicate Buffer(lines: seq<string>) {
    lines != [] && forall i :: 0 <= i < |lines| ==> '\n' !in lines[i]
  }

  lemma {:induction false} SplitJoin(lines: seq<string>)
    requires Buffer(lines)
    ensures Split(Join(lines, "\n")) == lines
  {
    var text := Join(lines, "\n");
    if |lines| == 1 {
      LineEndUnique(text, |text|);
    } else {
      var first, rest := lines[0], lines[1..];
      assert Buffer(rest) by {
        assert forall i :: 0 <= i < |rest| ==> rest[i] == lines[i + 1];
      }
      SplitJoin(rest);
      assert text == first + "\n" + Join(rest, "\n");
      assert text[..|first|] == first && text[|first| + 1..] == Join(rest, "\n");
      LineEndUnique(text, |first|);
    }
  }

  /** The change leaves in the buffer exactly the lines of the restyled text, there is
      none exactly when that text is the one at hand, and no smaller one would do. */
  lemma ChangeExact(lines: seq<string>, was: string, wanted: string, tail: string)
    requires Buffer(lines)
    ensures var after := Split(RestyleSignature(Join(lines, "\n"), was, wanted, tail));
            match Change(lines, was, wanted, tail)
            case None => after == lines
            case Some(c) =>
              && after != lines && Splice.Replace(lines, c.first, c.removed, c.lines) == after
              && forall p: nat, r: nat, items: seq<string> ::
                   Splice.Rewrites(lines, after, p, r, items) ==> c.removed <= r && |c.lines| <= |items|
  {
    hide RestyleSignature, Join, Split, Splice.Kept, Splice.Rewrites;
    var after := Split(RestyleSignature(Join(lines, "\n"), was, wanted, tail));
    SplitJoin(lines);
    Splice.KeptRebuilds(lines, after);
    forall p: nat, r: nat, items: seq<string> | Splice.Rewrites(lines, after, p, r, items)
      ensures var (prefix, suffix) := Splice.Kept(lines, after);
              |lines| - prefix - suffix <= r && |after| - prefix - suffix <= |items|
    {
      Splice.KeptMost(lines, after, p, r, items);
    }
  }

  /** A buffer that holds a signed message holds, once changed, the message signed
      with the other signature. */
  lemma ChangeIsInsert(lines: seq<string>, markdown: string, was: string, wanted: string, tail: string)
    requires Buffer(lines) && Join(lines, "\n") == WithSignature(markdown, was, tail)
    requires !Blank(was) && !Blank(wanted) && NoSeparator(was) && !EndsWith("--", tail)
    ensures var change := Change(lines, was, wanted, tail);
            (if change.None? then lines
             else Splice.Replace(lines, change.value.first, change.value.removed, change.value.lines))
            == Split(WithSignature(markdown, wanted, tail))
  {
    ChangeExact(lines, was, wanted, tail);
    SwapIsInsert(markdown, was, wanted, tail);
  }
}
