/** The one splice that turns an old list into a new one (app/src/diff.rs). */
module Splice {
  import opened Text

  /** How many items two lists have in common at the start, `i` of them counted. */
  function PrefixFrom<T(==)>(a: seq<T>, b: seq<T>, i: nat): (n: nat)
    requires i <= |a| && i <= |b|
    ensures i <= n <= |a| && n <= |b|
    decreases |a| - i
  {
    if i < |a| && i < |b| && a[i] == b[i] then PrefixFrom(a, b, i + 1) else i
  }

  /** The item `k` places before the last. */
  function FromEnd<T>(a: seq<T>, k: nat): T
    requires k < |a|
  {
    a[|a| - 1 - k]
  }

  /** How many they have in common at the end, `room` at most. */
  function SuffixFrom<T(==)>(a: seq<T>, b: seq<T>, room: nat, i: nat): (n: nat)
    requires i <= room <= |a| && room <= |b|
    ensures i <= n <= room
    decreases room - i
  {
    if i < room && FromEnd(a, i) == FromEnd(b, i) then SuffixFrom(a, b, room, i + 1) else i
  }

  /** The ends two lists keep: the suffix never reaches back into the prefix. */
  function Kept<T(==)>(was: seq<T>, now: seq<T>): (kept: (nat, nat))
    ensures kept.0 + kept.1 <= |was| && kept.0 + kept.1 <= |now|
  {
    var prefix := PrefixFrom(was, now, 0);
    var room := if |was| < |now| then |was| - prefix else |now| - prefix;
    (prefix, SuffixFrom(was, now, room, 0))
  }

  /** `count` items go from `position` on, and the items of the new list from
      `added.0` to `added.1` take their place. */
  datatype Splice = Splice(position: nat, removed: nat, added: (nat, nat))

  /** A length cut to the 32 bits of a list model's positions. */
  function U32(n: nat): nat {
    n % 0x1_0000_0000
  }

  function ListSplice<T(==)>(was: seq<T>, now: seq<T>): Option<Splice> {
    var (prefix, suffix) := Kept(was, now);
    if prefix == |was| && prefix == |now| then None
    else Some(Splice(U32(prefix), U32(|was| - prefix - suffix), (prefix, |now| - suffix)))
  }

  /** `was` with `items` in place of `removed` of its items from `position` on. */
  function Replace<T>(was: seq<T>, position: nat, removed: nat, items: seq<T>): seq<T>
    requires position + removed <= |was|
  {
    was[..position] + items + was[position + removed..]
  }

  /** Where two lists agree at the start, and where they first differ. */
  lemma {:induction false} PrefixIs<T>(a: seq<T>, b: seq<T>, i: nat)
    requires i <= |a| && i <= |b| && forall k :: 0 <= k < i ==> a[k] == b[k]
    ensures var n := PrefixFrom(a, b, i);
            (forall k :: 0 <= k < n ==> a[k] == b[k]) && (n < |a| && n < |b| ==> a[n] != b[n])
    decreases |a| - i
  {
    if i < |a| && i < |b| && a[i] == b[i] {
      PrefixIs(a, b, i + 1);
    }
  }

  lemma {:induction false} SuffixIs<T>(a: seq<T>, b: seq<T>, room: nat, i: nat)
    requires i <= room <= |a| && room <= |b| && forall k :: 0 <= k < i ==> FromEnd(a, k) == FromEnd(b, k)
    ensures var n := SuffixFrom(a, b, room, i);
            && (forall k :: 0 <= k < n ==> FromEnd(a, k) == FromEnd(b, k))
            && (n < room ==> FromEnd(a, n) != FromEnd(b, n))
    decreases room - i
  {
    if i < room && FromEnd(a, i) == FromEnd(b, i) {
      SuffixIs(a, b, room, i + 1);
    }
  }

  /** What lies between the kept ends, replaced, is the new list. */
  lemma KeptRebuilds<T>(was: seq<T>, now: seq<T>)
    ensures var (prefix, suffix) := Kept(was, now);
            Replace(was, prefix, |was| - prefix - suffix, now[prefix..|now| - suffix]) == now
  {
    var (prefix, suffix) := Kept(was, now);
    PrefixIs(was, now, 0);
    SuffixIs(was, now, if |was| < |now| then |was| - prefix else |now| - prefix, 0);
    Assemble(was, now, prefix, suffix);
  }

  lemma Assemble<T>(was: seq<T>, now: seq<T>, prefix: nat, suffix: nat)
    requires prefix + suffix <= |was| && prefix + suffix <= |now|
    requires forall k :: 0 <= k < prefix ==> was[k] == now[k]
    requires forall k :: 0 <= k < suffix ==> FromEnd(was, k) == FromEnd(now, k)
    ensures was[..prefix] + now[prefix..|now| - suffix] + was[|was| - suffix..] == now
  {
    var whole := was[..prefix] + now[prefix..|now| - suffix] + was[|was| - suffix..];
    forall i | 0 <= i < |now|
      ensures whole[i] == now[i]
    {
      if i >= |now| - suffix {
        var k := |now| - 1 - i;
        assert whole[i] == FromEnd(was, k) && now[i] == FromEnd(now, k);
      }
    }
  }

  /** Whether putting `items` in place of `removed` items gives `now`. */
  ghost predicate Rewrites<T>(was: seq<T>, now: seq<T>, position: nat, removed: nat, items: seq<T>) {
    position + removed <= |was| && Replace(was, position, removed, items) == now
  }

  lemma RewriteEnds<T>(was: seq<T>, now: seq<T>, position: nat, removed: nat, items: seq<T>)
    requires Rewrites(was, now, position, removed, items)
    ensures var n := |was| - position - removed;
            && position + n + |items| == |now|
            && (forall k :: 0 <= k < position ==> was[k] == now[k])
            && (forall k :: 0 <= k < n ==> FromEnd(was, k) == FromEnd(now, k))
  {
    var n := |was| - position - removed;
    forall k | 0 <= k < n
      ensures FromEnd(was, k) == FromEnd(now, k)
    {
      assert FromEnd(now, k) == was[position + removed..][n - 1 - k];
    }
  }

  /** No other single replacement that gives the new list removes or adds fewer items. */
  lemma KeptMost<T>(was: seq<T>, now: seq<T>, position: nat, removed: nat, items: seq<T>)
    requires Rewrites(was, now, position, removed, items)
    ensures var (prefix, suffix) := Kept(was, now);
            |was| - prefix - suffix <= removed && |now| - prefix - suffix <= |items|
  {
    var (prefix, suffix) := Kept(was, now);
    RewriteEnds(was, now, position, removed, items);
    PrefixIs(was, now, 0);
    SuffixIs(was, now, if |was| < |now| then |was| - prefix else |now| - prefix, 0);
  }

  /** The splice is there exactly when the lists differ, and turns the old one into
      the new one. */
  lemma SpliceRebuilds<T>(was: seq<T>, now: seq<T>)
    requires |was| < 0x1_0000_0000
    ensures ListSplice(was, now).None? <==> was == now
    ensures var s := ListSplice(was, now);
            s.Some? ==>
              && s.value.added.0 <= s.value.added.1 <= |now|
              && Rewrites(was, now, s.value.position, s.value.removed, now[s.value.added.0..s.value.added.1])
  {
    var (prefix, suffix) := Kept(was, now);
    KeptRebuilds(was, now);
    assert U32(prefix) == prefix && U32(|was| - prefix - suffix) == |was| - prefix - suffix;
    NothingToDo(was, now);
  }

  lemma NothingToDo<T>(was: seq<T>, now: seq<T>)
    ensures (PrefixFrom(was, now, 0) == |was| == |now|) <==> was == now
  {
    PrefixIs(was, now, 0);
  }

  /** It removes and adds the fewest items any single splice can. */
  lemma SpliceLeast<T>(was: seq<T>, now: seq<T>, position: nat, removed: nat, items: seq<T>)
    requires |was| < 0x1_0000_0000
    requires ListSplice(was, now).Some? && Rewrites(was, now, position, removed, items)
    ensures var s := ListSplice(was, now).value;
            s.removed <= removed && s.added.1 - s.added.0 <= |items|
  {
    KeptMost(was, now, position, removed, items);
  }
}
