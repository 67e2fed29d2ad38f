/** Suggesting people while an address is typed: one pass, holding no more than is shown. */
module Contacts {
  import opened Text

  datatype Contact = Contact(email: string, name: Option<string>, accounts: set<int>)

  predicate AnyStartsWith(parts: seq<string>, query: string) {
    exists i :: 0 <= i < |parts| && StartsWith(parts[i], query)
  }

  /** The parts of a text between the characters `cuts` holds for. */
  function Cut(s: string, cuts: char -> bool): (parts: seq<string>)
    ensures |parts| > 0
  {
    if s == "" then [""]
    else
      var rest := Cut(s[1..], cuts);
      if cuts(s[0]) then [""] + rest else [[s[0]] + rest[0]] + rest[1..]
  }

  /** Whether the address, the name or a part of either starts with the query. */
  predicate Answers(lower: string -> string, contact: Contact, query: string) {
    var email := lower(contact.email);
    var name := lower(if contact.name.Some? then contact.name.value else "");
    || StartsWith(email, query) || StartsWith(name, query)
    || AnyStartsWith(Cut(name, White), query)
    || AnyStartsWith(Cut(email, c => c in "._-@"), query)
  }

  /** `query` stands in `s` at `i`, at the front or right after a cut, and holds none. */
  ghost predicate AtWord(s: string, query: string, cuts: char -> bool, i: nat) {
    Occurs(s, query, i) && (i > 0 ==> cuts(s[i - 1])) && forall j :: 0 <= j < |query| ==> !cuts(query[j])
  }

  lemma {:induction false} FirstPart(s: string, query: string, cuts: char -> bool)
    ensures StartsWith(Cut(s, cuts)[0], query) <==> AtWord(s, query, cuts, 0)
  {
    if s != "" && query != "" {
      var rest, tail := Cut(s[1..], cuts), query[1..];
      FirstPart(s[1..], tail, cuts);
      assert query == [query[0]] + tail && s == [s[0]] + s[1..];
      assert forall j :: 0 <= j < |tail| ==> tail[j] == query[j + 1];
      if !cuts(s[0]) {
        assert Cut(s, cuts)[0] == [s[0]] + rest[0];
        ConsStarts(s[0], rest[0], query);
        ConsOccurs(s, query);
      }
    }
  }

  lemma ConsStarts(c: char, text: string, query: string)
    requires query != ""
    ensures StartsWith([c] + text, query) <==> query[0] == c && StartsWith(text, query[1..])
  {
    assert ([c] + text)[1..] == text;
    if query[0] == c && StartsWith(text, query[1..]) {
      assert query == [c] + query[1..];
    }
  }

  lemma ConsOccurs(s: string, query: string)
    requires s != "" && query != ""
    ensures Occurs(s, query, 0) <==> query[0] == s[0] && Occurs(s[1..], query[1..], 0)
  {
    assert s == [s[0]] + s[1..];
    if |query| <= |s| {
      assert s[..|query|] == [s[0]] + s[1..][..|query| - 1];
    }
  }

  lemma WordShift(s: string, query: string, cuts: char -> bool, i: nat)
    requires s != ""
    ensures AtWord(s, query, cuts, i + 1) <==> AtWord(s[1..], query, cuts, i) && (i == 0 ==> cuts(s[0]))
  {
    if i + 1 + |query| <= |s| {
      assert s[i + 1..i + 1 + |query|] == s[1..][i..i + |query|];
    }
  }

  /** A part between cuts starts with the query exactly where the query stands right after
      the front or a cut, and reaches past none. */
  lemma {:induction false} PartsExact(s: string, query: string, cuts: char -> bool)
    ensures AnyStartsWith(Cut(s, cuts), query) <==> exists i :: AtWord(s, query, cuts, i)
    ensures AnyStartsWith(Cut(s, cuts)[1..], query) <==> exists i :: i > 0 && AtWord(s, query, cuts, i)
  {
    FirstPart(s, query, cuts);
    AnyFirst(Cut(s, cuts), query);
    if s == "" {
      assert !exists i :: i > 0 && AtWord(s, query, cuts, i);
    } else {
      var rest := s[1..];
      PartsExact(rest, query, cuts);
      FirstPart(rest, query, cuts);
      AnyFirst(Cut(rest, cuts), query);
      assert Cut(s, cuts)[1..] == if cuts(s[0]) then Cut(rest, cuts) else Cut(rest, cuts)[1..];
      hide StartsWith, AtWord, Cut, AnyStartsWith;
      WordsShift(s, query, cuts);
    }
  }

  lemma WordsShift(s: string, query: string, cuts: char -> bool)
    requires s != ""
    ensures (exists i :: i > 0 && AtWord(s, query, cuts, i))
            <==> if cuts(s[0]) then exists i :: AtWord(s[1..], query, cuts, i)
                 else exists i :: i > 0 && AtWord(s[1..], query, cuts, i)
  {
    hide AtWord;
    forall i: nat
      ensures AtWord(s, query, cuts, i + 1) <==> AtWord(s[1..], query, cuts, i) && (i == 0 ==> cuts(s[0]))
    {
      WordShift(s, query, cuts, i);
    }
    if i :| i > 0 && AtWord(s, query, cuts, i) {
      assert AtWord(s, query, cuts, (i - 1) + 1);
      assert AtWord(s[1..], query, cuts, i - 1) && (i - 1 == 0 ==> cuts(s[0]));
    }
    if i: nat :| AtWord(s[1..], query, cuts, i) && (i > 0 || cuts(s[0])) {
      assert AtWord(s, query, cuts, i + 1);
    }
  }

  lemma AnyFirst(parts: seq<string>, query: string)
    requires parts != []
    ensures AnyStartsWith(parts, query) <==> StartsWith(parts[0], query) || AnyStartsWith(parts[1..], query)
  {
    hide StartsWith;
    if i :| 0 <= i < |parts| && StartsWith(parts[i], query) {
      assert i > 0 ==> parts[1..][i - 1] == parts[i];
    }
    if i :| 0 <= i < |parts[1..]| && StartsWith(parts[1..][i], query) {
      assert parts[i + 1] == parts[1..][i];
    }
  }

  predicate SplitsEmail(c: char) {
    c == '.' || c == '_' || c == '-' || c == '@'
  }

  /** A contact answers a query exactly when it stands at the front of the address or of the
      name, or in the address right after a dot, underscore, hyphen or at sign, or in the name
      right after a blank, and holds no such character then. */
  lemma AnswersExact(lower: string -> string, contact: Contact, query: string)
    ensures var email := lower(contact.email);
            var name := lower(if contact.name.Some? then contact.name.value else "");
            Answers(lower, contact, query)
            <==> || Occurs(email, query, 0) || Occurs(name, query, 0)
                 || (exists i :: AtWord(email, query, SplitsEmail, i))
                 || (exists i :: AtWord(name, query, White, i))
  {
    var email := lower(contact.email);
    var name := lower(if contact.name.Some? then contact.name.value else "");
    var seps := (c: char) => c in "._-@";
    Separators();
    SameCut(email, seps, SplitsEmail);
    PartsExact(email, query, SplitsEmail);
    PartsExact(name, query, White);
  }

  lemma Separators()
    ensures forall c: char :: c in "._-@" <==> SplitsEmail(c)
  {
    var all := "._-@";
    assert all[0] == '.' && all[1] == '_' && all[2] == '-' && all[3] == '@';
  }

  lemma {:induction false} SameCut(s: string, a: char -> bool, b: char -> bool)
    requires forall c :: a(c) == b(c)
    ensures Cut(s, a) == Cut(s, b)
  {
    if s != "" {
      SameCut(s[1..], a, b);
    }
  }

  predicate Entered(contact: Contact, entered: seq<string>) {
    exists i :: 0 <= i < |entered| && Lower(entered[i]) == Lower(contact.email)
  }

  predicate Theirs(contact: Contact, from: Option<int>) {
    from.Some? && from.value in contact.accounts
  }

  /** The contacts `keep` holds for, in the list's own order. */
  function Filter(contacts: seq<Contact>, keep: Contact -> bool): seq<Contact> {
    if contacts == [] then []
    else Filter(contacts[..|contacts| - 1], keep)
         + if keep(contacts[|contacts| - 1]) then [contacts[|contacts| - 1]] else []
  }

  function Take(contacts: seq<Contact>, limit: nat): seq<Contact> {
    if |contacts| <= limit then contacts else contacts[..limit]
  }

  /** What is found: every contact of the From account that answers the query, then every
      other one that does. */
  function Found(lower: string -> string, contacts: seq<Contact>, query: string, entered: seq<string>,
                 from: Option<int>): seq<Contact> {
    var found := Filter(contacts, c => !Entered(c, entered) && Answers(lower, c, query));
    Filter(found, c => Theirs(c, from)) + Filter(found, c => !Theirs(c, from))
  }

  lemma {:induction false} FilterMore(a: seq<Contact>, b: seq<Contact>, keep: Contact -> bool)
    ensures Filter(a + b, keep) == Filter(a, keep) + Filter(b, keep)
  {
    if b == [] {
      assert a + b == a;
    } else {
      var shorter := b[..|b| - 1];
      assert (a + b)[..|a + b| - 1] == a + shorter;
      FilterMore(a, shorter, keep);
    }
  }

  lemma FilterNext(found: seq<Contact>, i: nat, keep: Contact -> bool)
    requires i < |found|
    ensures Filter(found[..i + 1], keep) == Filter(found[..i], keep) + if keep(found[i]) then [found[i]] else []
  {
    assert found[..i + 1][..i] == found[..i];
  }

  /** What was gathered up to `i` is enough, at the end or with the first list full. */
  lemma Enough(found: seq<Contact>, i: nat, limit: nat, theirs: Contact -> bool, others: Contact -> bool)
    requires i <= |found| && (i == |found| || |Filter(found[..i], theirs)| == limit)
    ensures Take(Filter(found[..i], theirs) + Take(Filter(found[..i], others), limit), limit)
            == Take(Filter(found, theirs) + Filter(found, others), limit)
  {
    hide Filter;
    assert found == found[..i] + found[i..];
    FilterMore(found[..i], found[i..], theirs);
    FilterMore(found[..i], found[i..], others);
    if i == |found| {
      assert found[..i] == found;
    } else {
      var first := Filter(found[..i], theirs);
      assert (first + Take(Filter(found[..i], others), limit))[..limit] == first;
      assert (Filter(found, theirs) + Filter(found, others))[..limit] == first;
    }
  }

  /** The pass over the people found, with a list that stops growing at the limit for those
      of other accounts, and an end as soon as the From account's own fill the answer. */
  method Gather(found: seq<Contact>, limit: nat, from: Option<int>) returns (suggested: seq<Contact>)
    ensures suggested == Take(Filter(found, c => Theirs(c, from)) + Filter(found, c => !Theirs(c, from)), limit)
  {
    var theirs := (c: Contact) => Theirs(c, from);
    var others := (c: Contact) => !Theirs(c, from);
    assert Filter(found[..0], theirs) == [] && Filter(found[..0], others) == [];
    hide Theirs, Filter;
    var first: seq<Contact> := [];
    var rest: seq<Contact> := [];
    var i := 0;
    while i < |found|
      invariant 0 <= i <= |found|
      invariant first == Filter(found[..i], theirs)
      invariant rest == Take(Filter(found[..i], others), limit)
    {
      FilterNext(found, i, theirs);
      FilterNext(found, i, others);
      if Theirs(found[i], from) {
        first := first + [found[i]];
      } else if |rest| < limit {
        rest := rest + [found[i]];
      }
      i := i + 1;
      if |first| == limit {
        break;
      }
    }
    Enough(found, i, limit, theirs, others);
    first := first + rest;
    suggested := if |first| <= limit then first else first[..limit];
  }

  /** The first `limit` of what is found, and nobody for an empty query. */
  method Suggest(lower: string -> string, contacts: seq<Contact>, typed: string, entered: seq<string>, limit: nat,
                 from: Option<int>) returns (suggested: seq<Contact>)
    ensures var query := lower(Trim(typed));
            if query == "" then suggested == []
            else var found := Found(lower, contacts, query, entered, from);
                 suggested == found[..if |found| < limit then |found| else limit]
  {
    var query := lower(Trim(typed));
    if query == "" {
      return [];
    }
    suggested := Gather(Filter(contacts, c => !Entered(c, entered) && Answers(lower, c, query)), limit, from);
  }

  /** Everyone suggested answers the query, was not entered and stands once for each time
      they are listed; and when there was room for more, everyone who does is suggested. */
  lemma FoundExact(lower: string -> string, contacts: seq<Contact>, query: string, entered: seq<string>,
                   from: Option<int>, c: Contact)
    ensures multiset(Found(lower, contacts, query, entered, from))[c]
            == if (forall i :: 0 <= i < |entered| ==> Lower(entered[i]) != Lower(c.email)) && Answers(lower, c, query)
               then multiset(contacts)[c] else 0
  {
    var keep := (c: Contact) => !Entered(c, entered) && Answers(lower, c, query);
    var found := Filter(contacts, keep);
    FilterCounts(contacts, keep, c);
    FilterCounts(found, c => Theirs(c, from), c);
    FilterCounts(found, c => !Theirs(c, from), c);
  }

  lemma {:induction false} FilterCounts(contacts: seq<Contact>, keep: Contact -> bool, c: Contact)
    ensures multiset(Filter(contacts, keep))[c] == if keep(c) then multiset(contacts)[c] else 0
  {
    if contacts != [] {
      var shorter, last := contacts[..|contacts| - 1], contacts[|contacts| - 1];
      FilterCounts(shorter, keep, c);
      assert contacts == shorter + [last];
    }
  }

  lemma {:induction false} FilterIn(contacts: seq<Contact>, keep: Contact -> bool, c: Contact)
    ensures c in Filter(contacts, keep) <==> c in contacts && keep(c)
  {
    if contacts != [] {
      var shorter, last := contacts[..|contacts| - 1], contacts[|contacts| - 1];
      FilterIn(shorter, keep, c);
      assert contacts == shorter + [last];
    }
  }

  /** `a` stands in the list before `b`. */
  ghost predicate Precedes(contacts: seq<Contact>, a: Contact, b: Contact) {
    exists k, l :: 0 <= k < l < |contacts| && contacts[k] == a && contacts[l] == b
  }

  lemma {:induction false} FilterOrder(contacts: seq<Contact>, keep: Contact -> bool, a: Contact, b: Contact)
    requires Precedes(Filter(contacts, keep), a, b)
    ensures Precedes(contacts, a, b)
  {
    if contacts != [] {
      var shorter, last := contacts[..|contacts| - 1], contacts[|contacts| - 1];
      var some := Filter(shorter, keep);
      var k, l :| 0 <= k < l < |Filter(contacts, keep)| && Filter(contacts, keep)[k] == a
                  && Filter(contacts, keep)[l] == b;
      if l < |some| {
        assert some[k] == a && some[l] == b;
        FilterOrder(shorter, keep, a, b);
      } else {
        assert some[k] == a;
        FilterIn(shorter, keep, a);
        var at :| 0 <= at < |shorter| && shorter[at] == a;
        assert contacts[at] == a && contacts[|contacts| - 1] == b;
      }
    }
  }

  /** The From account's own people come before the others, and within each group one stands
      before another only if listed before. */
  lemma OwnFirst(lower: string -> string, contacts: seq<Contact>, query: string, entered: seq<string>, account: int,
                 i: nat, j: nat)
    requires i < j < |Found(lower, contacts, query, entered, Some(account))|
    ensures var found := Found(lower, contacts, query, entered, Some(account));
            && (account in found[j].accounts ==> account in found[i].accounts)
            && ((account in found[i].accounts <==> account in found[j].accounts) ==>
                  Precedes(contacts, found[i], found[j]))
  {
    var found := Found(lower, contacts, query, entered, Some(account));
    var keep := (c: Contact) => !Entered(c, entered) && Answers(lower, c, query);
    var theirs, others := (c: Contact) => Theirs(c, Some(account)), (c: Contact) => !Theirs(c, Some(account));
    var all := Filter(contacts, keep);
    var own, rest := Filter(all, theirs), Filter(all, others);
    assert found == own + rest;
    FilterIn(all, if i < |own| then theirs else others, found[i]);
    FilterIn(all, if j < |own| then theirs else others, found[j]);
    hide Filter;
    if account in found[i].accounts <==> account in found[j].accounts {
      if j < |own| {
        assert Precedes(own, own[i], own[j]);
        FilterOrder(all, theirs, own[i], own[j]);
      } else {
        assert Precedes(rest, rest[i - |own|], rest[j - |own|]);
        FilterOrder(all, others, rest[i - |own|], rest[j - |own|]);
      }
      FilterOrder(contacts, keep, found[i], found[j]);
    }
  }

  // The accounts of one person.

  /** The place of `id`, or the length. */
  function IndexOf(accounts: seq<int>, id: int): (at: nat)
    ensures at <= |accounts| && (at < |accounts| <==> id in accounts)
    ensures at < |accounts| ==> accounts[at] == id
  {
    if accounts == [] || accounts[0] == id then 0 else 1 + IndexOf(accounts[1..], id)
  }

  /** The From account first, when it is one of them, and the others as they stood. */
  method LeadFirst(accounts: seq<int>, from: Option<int>) returns (ordered: seq<int>)
    ensures multiset(ordered) == multiset(accounts)
    ensures from.Some? && from.value in accounts ==>
              ordered[0] == from.value
              && exists at: nat :: at < |accounts| && ordered[1..] == accounts[..at] + accounts[at + 1..]
    ensures from.None? || from.value !in accounts ==> ordered == accounts
  {
    ordered := accounts;
    if from.Some? && IndexOf(accounts, from.value) < |accounts| {
      var at := IndexOf(accounts, from.value);
      var lead := ordered[at];
      ordered := ordered[..at] + ordered[at + 1..];
      ordered := [lead] + ordered;
      assert accounts == accounts[..at] + [lead] + accounts[at + 1..];
      assert ordered[1..] == accounts[..at] + accounts[at + 1..];
    }
  }
}
