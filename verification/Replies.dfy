/** Who a reply goes to. */
module Replies {
  import opened Text

  datatype Address = Address(name: string, email: string)

  datatype Kind = Reply | ReplyAll

  datatype Original = Original(from: Option<Address>, to: seq<Address>, cc: seq<Address>)

  predicate Same(a: Address, b: Address) {
    Lower(a.email) == Lower(b.email)
  }

  /** An address the list holds, in any case. */
  predicate Holds(list: seq<Address>, a: Address) {
    exists i :: 0 <= i < |list| && Same(list[i], a)
  }

  /** The first of each address that is not excluded, in order. */
  function Firsts(list: seq<Address>, exclude: seq<Address>): seq<Address> {
    if list == [] then []
    else
      var before, last := Firsts(list[..|list| - 1], exclude), list[|list| - 1];
      if last.email == "" || Holds(exclude, last) || Holds(list[..|list| - 1], last) then before else before + [last]
  }

  method Dedupe(list: seq<Address>, exclude: seq<Address>) returns (out: seq<Address>)
    ensures out == Firsts(list, exclude)
  {
    hide Same, Holds;
    out := [];
    var i := 0;
    while i < |list|
      invariant 0 <= i <= |list| && out == Firsts(list[..i], exclude)
    {
      assert list[..i + 1][..i] == list[..i];
      FirstsHold(list[..i], exclude, list[i]);
      if list[i].email == "" || Holds(exclude, list[i]) || Holds(out, list[i]) {
        i := i + 1;
        continue;
      }
      out := out + [list[i]];
      i := i + 1;
    }
    assert list[..i] == list;
  }

  lemma {:induction false} HoldsMore(list: seq<Address>, last: Address, a: Address)
    ensures Holds(list + [last], a) <==> Holds(list, a) || Same(last, a)
  {
    hide Same;
    var all := list + [last];
    if Holds(list, a) {
      var i :| 0 <= i < |list| && Same(list[i], a);
      assert all[i] == list[i];
    }
    if Same(last, a) {
      assert all[|list|] == last;
    }
  }

  lemma HoldsSame(list: seq<Address>, a: Address, b: Address)
    requires Same(a, b)
    ensures Holds(list, a) <==> Holds(list, b)
  {
    hide Lower;
    if Holds(list, a) {
      var i :| 0 <= i < |list| && Same(list[i], a);
      assert Same(list[i], b);
    }
    if Holds(list, b) {
      var i :| 0 <= i < |list| && Same(list[i], b);
      assert Same(list[i], a);
    }
  }

  /** What is kept of a list: every address with an email that is not excluded. */
  lemma {:induction false} FirstsHold(list: seq<Address>, exclude: seq<Address>, a: Address)
    ensures Holds(Firsts(list, exclude), a) <==> Holds(list, a) && a.email != "" && !Holds(exclude, a)
  {
    assert !Holds([], a);
    hide Same, Holds;
    if list != [] {
      var shorter, last := list[..|list| - 1], list[|list| - 1];
      assert list == shorter + [last];
      FirstsHold(shorter, exclude, a);
      HoldsMore(shorter, last, a);
      HoldsMore(Firsts(shorter, exclude), last, a);
      if Same(last, a) {
        HoldsSame(exclude, last, a);
        HoldsSame(shorter, last, a);
        SameEmpty(last, a);
      }
    }
  }

  lemma SameEmpty(a: Address, b: Address)
    requires Same(a, b)
    ensures a.email == "" <==> b.email == ""
  {
    assert |Lower(a.email)| == |a.email| && |Lower(b.email)| == |b.email|;
  }

  ghost predicate NoneTwice(list: seq<Address>) {
    forall i, j :: 0 <= i < j < |list| ==> !Same(list[i], list[j])
  }

  lemma {:induction false} FirstsOnce(list: seq<Address>, exclude: seq<Address>)
    ensures NoneTwice(Firsts(list, exclude))
  {
    hide Same;
    if list != [] {
      var shorter, last := list[..|list| - 1], list[|list| - 1];
      FirstsOnce(shorter, exclude);
      FirstsHold(shorter, exclude, last);
      var before, all := Firsts(shorter, exclude), Firsts(list, exclude);
      if all != before {
        forall i | 0 <= i < |before| ensures !Same(before[i], last) {
          assert !Holds(before, last);
        }
      }
    }
  }

  /** What is kept is the first of each address, in any case, that has an email and is not
      excluded, as it is written there. */
  lemma {:induction false} FirstsExact(list: seq<Address>, exclude: seq<Address>, a: Address)
    ensures a in Firsts(list, exclude)
            <==> a.email != "" && !Holds(exclude, a)
                 && exists i :: 0 <= i < |list| && list[i] == a && !Holds(list[..i], a)
  {
    hide Same, Holds;
    if list != [] {
      var shorter, last := list[..|list| - 1], list[|list| - 1];
      FirstsExact(shorter, exclude, a);
      if i :| 0 <= i < |list| && list[i] == a && !Holds(list[..i], a) {
        if i < |shorter| {
          assert shorter[..i] == list[..i] && shorter[i] == a;
        }
      }
      if i :| 0 <= i < |shorter| && shorter[i] == a && !Holds(shorter[..i], a) {
        assert shorter[..i] == list[..i] && list[i] == a;
      }
    }
  }

  /** It stands in the order of the list: what more addresses add comes last. */
  lemma {:induction false} FirstsOrder(list: seq<Address>, exclude: seq<Address>, n: nat)
    requires n <= |list|
    ensures Firsts(list[..n], exclude) <= Firsts(list, exclude)
  {
    hide Same, Holds;
    if n == |list| {
      assert list[..n] == list;
    } else {
      var shorter := list[..|list| - 1];
      FirstsOrder(shorter, exclude, n);
      assert shorter[..n] == list[..n];
    }
  }

  // The recipients.

  datatype Recipients = Recipients(to: seq<Address>, cc: seq<Address>)

  function Sender(original: Original): Address {
    match original.from case Some(a) => a case None => Address("", "")
  }

  /** Whom a reply is addressed to before anyone is dropped: the sender, or the people one
      wrote to oneself; and for a reply to all everyone the original went to. */
  function Addressed(kind: Kind, mine: seq<Address>, original: Original): seq<Address> {
    (if Holds(mine, Sender(original)) then original.to else [Sender(original)])
    + (if kind == ReplyAll then original.to else [])
  }

  method Respond(kind: Kind, mine: seq<Address>, original: Original) returns (r: Recipients)
    ensures r.to == Firsts(Addressed(kind, mine, original), mine)
    ensures r.cc == Firsts(if kind == ReplyAll then original.cc else [], r.to + mine)
  {
    var to := if Holds(mine, Sender(original)) then original.to else [Sender(original)];
    var cc: seq<Address> := [];
    if kind == ReplyAll {
      to := to + original.to;
      cc := cc + original.cc;
      assert cc == original.cc;
    } else {
      assert to + [] == to;
    }
    to := Dedupe(to, mine);
    cc := Dedupe(cc, to + mine);
    r := Recipients(to, cc);
  }

  lemma HoldsBoth(a: seq<Address>, b: seq<Address>, who: Address)
    ensures Holds(a + b, who) <==> Holds(a, who) || Holds(b, who)
  {
    hide Same;
    if Holds(a, who) {
      var i :| 0 <= i < |a| && Same(a[i], who);
      assert (a + b)[i] == a[i];
    }
    if Holds(b, who) {
      var i :| 0 <= i < |b| && Same(b[i], who);
      assert (a + b)[|a| + i] == b[i];
    }
  }

  /** A reply to all reaches everyone the original was from, to or copied to but oneself,
      each exactly once, in whatever case it is written; a reply reaches the sender, or whom
      the original was to when one sent it oneself, and without a sender nobody; and neither
      reaches oneself. */
  lemma ReachesOnce(kind: Kind, mine: seq<Address>, original: Original,
                    to: seq<Address>, cc: seq<Address>, who: Address)
    requires to == Firsts(Addressed(kind, mine, original), mine)
    requires cc == Firsts(if kind == ReplyAll then original.cc else [], to + mine)
    ensures NoneTwice(to + cc)
    ensures Holds(to + cc, who) ==> who.email != "" && !Holds(mine, who)
    ensures who.email != "" && !Holds(mine, who) ==>
              (Holds(to + cc, who) <==>
                 if kind == ReplyAll
                 then (original.from.Some? && Same(original.from.value, who))
                      || Holds(original.to, who) || Holds(original.cc, who)
                 else if original.from.Some? && !Holds(mine, original.from.value)
                 then Same(original.from.value, who)
                 else (original.from.Some? || Holds(mine, Address("", ""))) && Holds(original.to, who))
  {
    assert !Holds([], who);
    if Same(Address("", ""), who) {
      SameEmpty(Address("", ""), who);
    }
    hide Same, Firsts, Holds;
    var copied := if kind == ReplyAll then original.cc else [];
    FirstsHold(Addressed(kind, mine, original), mine, who);
    FirstsHold(copied, to + mine, who);
    HoldsBoth(to, cc, who);
    HoldsBoth(to, mine, who);
    AddressedHold(kind, mine, original, who);
    FirstsOnce(Addressed(kind, mine, original), mine);
    FirstsOnce(copied, to + mine);
    OnceTogether(to, cc, copied, mine);
  }

  lemma AddressedHold(kind: Kind, mine: seq<Address>, original: Original, who: Address)
    ensures kind != ReplyAll ==>
              (Holds(Addressed(kind, mine, original), who)
               <==> if Holds(mine, Sender(original)) then Holds(original.to, who) else Same(Sender(original), who))
    ensures kind == ReplyAll && !Holds(mine, who) ==>
              (Holds(Addressed(kind, mine, original), who)
               <==> Same(Sender(original), who) || Holds(original.to, who))
  {
    var sender := Sender(original);
    assert Holds([sender], who) <==> Same(sender, who) by {
      assert [sender][0] == sender;
    }
    assert !Holds([], who);
    hide Same, Holds;
    HoldsBoth(if Holds(mine, sender) then original.to else [sender], if kind == ReplyAll then original.to else [], who);
    if Same(sender, who) {
      HoldsSame(mine, sender, who);
    }
  }

  lemma OnceTogether(to: seq<Address>, cc: seq<Address>, copied: seq<Address>, mine: seq<Address>)
    requires NoneTwice(to) && NoneTwice(cc) && cc == Firsts(copied, to + mine)
    ensures NoneTwice(to + cc)
  {
    assert forall a: Address :: Same(a, a);
    hide Same, Firsts;
    var all := to + cc;
    forall i, j | 0 <= i < j < |all| ensures !Same(all[i], all[j]) {
      if i < |to| <= j {
        FirstsHold(copied, to + mine, cc[j - |to|]);
        HoldsBoth(to, mine, cc[j - |to|]);
        assert Same(cc[j - |to|], cc[j - |to|]);
        assert Holds(cc, cc[j - |to|]);
        assert !Holds(to, cc[j - |to|]);
        assert all[i] == to[i];
      }
    }
  }
}
