/** The address page: reading an address, and correcting a slip in its domain. */
module AddAccount {
  import opened Text

  datatype Address = Address(local: string, domain: string)

  /** How the platform sees letters, and the domains the provider table lists, in its order. */
  datatype World = World(lower: string -> string, alphanumeric: char -> bool, listed: seq<string>)

  datatype Continue = Look(address: Address) | Suggest(better: Address) | Say

  function Full(address: Address): string {
    address.local + "@" + address.domain
  }

  /** The place after the last `mark`. */
  function AfterLast(s: string, mark: char): Option<nat> {
    if s == "" then None
    else if s[|s| - 1] == mark then Some(|s|)
    else AfterLast(s[..|s| - 1], mark)
  }

  function TrimDots(s: string): string {
    if s != "" && s[|s| - 1] == '.' then TrimDots(s[..|s| - 1]) else s
  }

  /** The parts between the dots. */
  function Labels(s: string): (parts: seq<string>)
    ensures |parts| > 0
  {
    if s == "" then [""]
    else
      var rest := Labels(s[1..]);
      if s[0] == '.' then [""] + rest else [[s[0]] + rest[0]] + rest[1..]
  }

  predicate LabelOk(w: World, part: string) {
    && part != "" && part[0] != '-' && part[|part| - 1] != '-'
    && forall i :: 0 <= i < |part| ==> w.alphanumeric(part[i]) || part[i] == '-'
  }

  predicate DomainOk(w: World, domain: string) {
    '.' in domain && forall i :: 0 <= i < |Labels(domain)| ==> LabelOk(w, Labels(domain)[i])
  }

  predicate LocalOk(local: string) {
    local != "" && forall i :: 0 <= i < |local| ==> !White(local[i])
  }

  function Parse(w: World, typed: string): Option<Address> {
    var whole := Trim(typed);
    match AfterLast(whole, '@')
    case None => None
    case Some(at) =>
      AfterLastIs(whole, '@');
      var local, domain := whole[..at - 1], w.lower(TrimDots(whole[at..]));
      if LocalOk(local) && DomainOk(w, domain) then Some(Address(local, domain)) else None
  }

  // What is an address.

  predicate Apart(c: char) {
    c == '.' || c == '-'
  }

  /** Nothing but letters, digits, hyphens and dots, and a dot or hyphen followed by what is not
      a dot, a dot not by a hyphen either. */
  predicate WellSpaced(w: World, s: string) {
    forall i :: 0 <= i < |s| ==> SpacedAt(w, s, i)
  }

  predicate SpacedAt(w: World, s: string, i: nat)
    requires i < |s|
  {
    && (s[i] == '.' || s[i] == '-' || w.alphanumeric(s[i]))
    && (s[i] == '.' ==> i + 1 < |s| && !Apart(s[i + 1]))
    && (s[i] == '-' ==> i + 1 < |s| && s[i + 1] != '.')
  }

  /** A label but for how it starts. */
  predicate TailOk(w: World, part: string) {
    part == "" || (part[|part| - 1] != '-' && forall i :: 0 <= i < |part| ==> w.alphanumeric(part[i]) || part[i] == '-')
  }

  predicate AllOk(w: World, parts: seq<string>) {
    forall i :: 0 <= i < |parts| ==> LabelOk(w, parts[i])
  }

  lemma {:induction false} LabelsExact(w: World, s: string)
    requires !w.alphanumeric('.')
    ensures var parts := Labels(s);
            && (WellSpaced(w, s) <==> TailOk(w, parts[0]) && AllOk(w, parts[1..]))
            && (parts[0] == "" <==> s == "" || s[0] == '.') && (parts[0] != "" ==> parts[0][0] == s[0])
  {
    if s != "" {
      var c, rest, parts := s[0], s[1..], Labels(s[1..]);
      LabelsExact(w, rest);
      SpacedFirst(w, s);
      FirstOk(w, parts);
      if c == '.' {
        assert Labels(s)[1..] == parts;
      } else {
        assert Labels(s)[0] == [c] + parts[0] && Labels(s)[1..] == parts[1..];
        TailFirst(w, c, parts[0]);
      }
    }
  }

  lemma SpacedFirst(w: World, s: string)
    requires s != ""
    ensures WellSpaced(w, s) <==>
              && WellSpaced(w, s[1..]) && (s[0] == '.' || s[0] == '-' || w.alphanumeric(s[0]))
              && (s[0] == '.' ==> |s| > 1 && !Apart(s[1])) && (s[0] == '-' ==> |s| > 1 && s[1] != '.')
  {
    var rest := s[1..];
    forall i | 0 <= i < |rest|
      ensures SpacedAt(w, s, i + 1) == SpacedAt(w, rest, i)
    {
    }
    assert WellSpaced(w, s) ==> SpacedAt(w, s, 0);
    forall i | 0 < i < |s|
      ensures SpacedAt(w, s, i) == SpacedAt(w, rest, i - 1)
    {
    }
  }

  lemma FirstOk(w: World, parts: seq<string>)
    requires parts != []
    ensures AllOk(w, parts) <==> LabelOk(w, parts[0]) && AllOk(w, parts[1..])
    ensures LabelOk(w, parts[0]) <==> TailOk(w, parts[0]) && parts[0] != "" && parts[0][0] != '-'
  {
    assert forall i :: 0 < i < |parts| ==> parts[i] == parts[1..][i - 1];
    assert forall i :: 0 <= i < |parts[1..]| ==> parts[1..][i] == parts[i + 1];
  }

  lemma TailFirst(w: World, c: char, part: string)
    ensures TailOk(w, [c] + part)
            <==> (w.alphanumeric(c) || c == '-') && TailOk(w, part) && (part == "" ==> c != '-')
  {
    var all := [c] + part;
    assert forall i :: 0 <= i < |part| ==> all[i + 1] == part[i];
    assert all[0] == c;
    if (w.alphanumeric(c) || c == '-') && TailOk(w, part) && (part == "" ==> c != '-') {
      forall i | 0 <= i < |all|
        ensures w.alphanumeric(all[i]) || all[i] == '-'
      {
        if i > 0 {
          assert all[i] == part[i - 1];
        }
      }
    }
  }

  /** A domain has a dot, opens with neither dot nor hyphen, and is well spaced. */
  lemma DomainExact(w: World, domain: string)
    requires !w.alphanumeric('.')
    ensures DomainOk(w, domain) <==> '.' in domain && !Apart(domain[0]) && WellSpaced(w, domain)
  {
    var parts := Labels(domain);
    LabelsExact(w, domain);
    FirstOk(w, parts);
    assert AllOk(w, parts) <==> forall i :: 0 <= i < |parts| ==> LabelOk(w, parts[i]);
  }

  /** What was typed is an address exactly when, trimmed, it is a local part without blanks and,
      after the last at sign, a domain with two parts or more, dots at its end dropped; the domain
      is kept in lower case, the local part as typed. */
  lemma ParseExact(w: World, typed: string, address: Address)
    requires !w.alphanumeric('.')
    ensures Parse(w, typed) == Some(address)
            <==> exists domain: string ::
                   && Trim(typed) == address.local + "@" + domain && '@' !in domain
                   && address.local != "" && (forall i :: 0 <= i < |address.local| ==> !White(address.local[i]))
                   && address.domain == w.lower(TrimDots(domain))
                   && '.' in address.domain && !Apart(address.domain[0]) && WellSpaced(w, address.domain)
  {
    hide WellSpaced, Apart, Trim, DomainOk, White, TrimDots;
    DomainExact(w, address.domain);
    var whole := Trim(typed);
    AfterLastIs(whole, '@');
    var at := AfterLast(whole, '@');
    if at.Some? {
      var domain := whole[at.value..];
      assert whole == whole[..at.value - 1] + "@" + domain;
      DomainExact(w, w.lower(TrimDots(domain)));
    }
    if domain: string :| whole == address.local + "@" + domain && '@' !in domain {
      LastAt(whole, address.local, domain);
    }
  }

  lemma {:induction false} LastAt(whole: string, local: string, domain: string)
    requires whole == local + "@" + domain && '@' !in domain
    ensures AfterLast(whole, '@') == Some(|local| + 1) && whole[..|local|] == local && whole[|local| + 1..] == domain
    decreases |domain|
  {
    if domain != "" {
      var shorter := domain[..|domain| - 1];
      assert whole[|whole| - 1] == domain[|domain| - 1];
      assert whole[..|whole| - 1] == local + "@" + shorter;
      LastAt(whole[..|whole| - 1], local, shorter);
    }
  }

  /** Dots at the end are dropped, all of them and nothing else. */
  lemma {:induction false} TrimDotsIs(s: string)
    ensures var t := TrimDots(s);
            && t <= s && (forall i :: |t| <= i < |s| ==> s[i] == '.') && (t != "" ==> t[|t| - 1] != '.')
  {
    if s != "" && s[|s| - 1] == '.' {
      TrimDotsIs(s[..|s| - 1]);
    }
  }

  lemma {:induction false} AfterLastIs(s: string, mark: char)
    ensures match AfterLast(s, mark)
            case Some(at) => 0 < at <= |s| && s[at - 1] == mark && mark !in s[at..]
            case None => mark !in s
  {
    if s != "" && s[|s| - 1] != mark {
      AfterLastIs(s[..|s| - 1], mark);
      assert s == s[..|s| - 1] + [s[|s| - 1]];
      var at := AfterLast(s, mark);
      if at.Some? {
        assert s[at.value..] == s[..|s| - 1][at.value..] + [s[|s| - 1]];
      }
    }
  }

  // One slip.

  function Differ(a: string, b: string, i: nat): seq<nat>
    requires |a| == |b| && i <= |a|
    decreases |a| - i
  {
    if i == |a| then [] else (if a[i] != b[i] then [i] else []) + Differ(a, b, i + 1)
  }

  function FirstDiffer(short: string, long: string, i: nat): (at: nat)
    requires |short| <= |long| && i <= |short|
    ensures i <= at <= |short|
    decreases |short| - i
  {
    if i < |short| && short[i] == long[i] then FirstDiffer(short, long, i + 1) else i
  }

  predicate OneLonger(short: string, long: string)
    requires |long| == |short| + 1
  {
    var at := FirstDiffer(short, long, 0);
    short[at..] == long[at + 1..]
  }

  /** Whether one insertion, deletion, substitution or swap of neighbours turns `a` into `b`,
      as it is decided without trying them all. */
  predicate OneSlipApart(a: string, b: string) {
    if a == b then false
    else if |a| == |b| then
      var differ := Differ(a, b, 0);
      DifferIs(a, b, 0);
      if |differ| == 1 then true
      else if |differ| == 2 then
        var i, j := differ[0], differ[1];
        assert i in differ && j in differ;
        j == i + 1 && a[i] == b[j] && a[j] == b[i]
      else false
    else if |a| + 1 == |b| then OneLonger(a, b)
    else if |b| + 1 == |a| then OneLonger(b, a)
    else false
  }

  ghost predicate InOrder(differ: seq<nat>) {
    forall x, y :: 0 <= x < y < |differ| ==> differ[x] < differ[y]
  }

  lemma {:induction false} DifferIs(a: string, b: string, i: nat)
    requires |a| == |b| && i <= |a|
    ensures var differ := Differ(a, b, i);
            && (forall k :: k in differ <==> i <= k < |a| && a[k] != b[k])
            && InOrder(differ)
    decreases |a| - i
  {
    if i < |a| {
      DifferIs(a, b, i + 1);
      var rest := Differ(a, b, i + 1);
      assert forall x :: 0 <= x < |rest| ==> rest[x] in rest;
    }
  }

  // What a slip is.

  predicate Inserted(a: string, b: string) {
    |b| == |a| + 1 && exists i :: 0 <= i <= |a| && InsertedAt(a, b, i)
  }

  predicate InsertedAt(a: string, b: string, i: nat)
    requires i <= |a| && |b| == |a| + 1
  {
    b == a[..i] + [b[i]] + a[i..]
  }

  predicate Substituted(a: string, b: string) {
    |a| == |b| && exists i :: 0 <= i < |a| && a[i] != b[i] && b == a[i := b[i]]
  }

  predicate Swapped(a: string, b: string) {
    |a| == |b| && exists i :: 0 <= i < |a| - 1 && a[i] != a[i + 1] && b == a[i := a[i + 1]][i + 1 := a[i]]
  }

  predicate OneEdit(a: string, b: string) {
    Inserted(a, b) || Inserted(b, a) || Substituted(a, b) || Swapped(a, b)
  }

  lemma OneLongerExact(short: string, long: string)
    requires |long| == |short| + 1
    ensures OneLonger(short, long) <==> Inserted(short, long)
  {
    if OneLonger(short, long) {
      LongerInserted(short, long);
    }
    if Inserted(short, long) {
      var i :| 0 <= i <= |short| && InsertedAt(short, long, i);
      InsertedLonger(short, long, i);
    }
  }

  lemma LongerInserted(short: string, long: string)
    requires |long| == |short| + 1 && OneLonger(short, long)
    ensures Inserted(short, long)
  {
    var at := FirstDiffer(short, long, 0);
    FirstDifferIs(short, long, 0);
    assert long == long[..at] + [long[at]] + long[at + 1..];
    assert short[..at] == long[..at];
    assert InsertedAt(short, long, at);
  }

  /** A letter put in anywhere is found put in where the two first differ. */
  lemma InsertedLonger(short: string, long: string, i: nat)
    requires |long| == |short| + 1 && i <= |short| && InsertedAt(short, long, i)
    ensures OneLonger(short, long)
  {
    var at := FirstDiffer(short, long, 0);
    FirstDifferIs(short, long, 0);
    InsertedShift(short, long, i);
    assert i <= at;
    assert short[at..] == long[at + 1..];
  }

  lemma InsertedShift(short: string, long: string, i: nat)
    requires |long| == |short| + 1 && i <= |short| && InsertedAt(short, long, i)
    ensures forall k :: 0 <= k < i ==> short[k] == long[k]
    ensures forall k :: i <= k < |short| ==> short[k] == long[k + 1]
  {
    forall k | i <= k < |short|
      ensures short[k] == long[k + 1]
    {
      assert long[k + 1] == short[i..][k - i];
    }
  }

  lemma {:induction false} FirstDifferIs(short: string, long: string, i: nat)
    requires |short| <= |long| && i <= |short|
    ensures var at := FirstDiffer(short, long, i);
            && (forall k :: i <= k < at ==> short[k] == long[k])
            && (at < |short| ==> short[at] != long[at])
    decreases |short| - i
  {
    if i < |short| && short[i] == long[i] {
      FirstDifferIs(short, long, i + 1);
    }
  }

  lemma SameLengthOnly(a: string, b: string)
    requires |a| == |b| && OneSlipApart(a, b)
    ensures Substituted(a, b) || Swapped(a, b)
  {
    DifferIs(a, b, 0);
    var differ := Differ(a, b, 0);
    var i := differ[0];
    assert i in differ;
    if |differ| == 1 {
      assert forall k :: 0 <= k < |a| && k != i ==> k !in differ;
      assert b == a[i := b[i]];
    } else {
      assert differ[1] in differ;
      assert forall k :: 0 <= k < |a| && k != i && k != i + 1 ==> k !in differ;
      assert b == a[i := a[i + 1]][i + 1 := a[i]];
    }
  }

  lemma SubstitutedFound(a: string, b: string)
    requires Substituted(a, b)
    ensures OneSlipApart(a, b)
  {
    DifferIs(a, b, 0);
    var i :| 0 <= i < |a| && a[i] != b[i] && b == a[i := b[i]];
    DifferOnly(Differ(a, b, 0), i, i);
  }

  lemma SwappedFound(a: string, b: string)
    requires Swapped(a, b)
    ensures OneSlipApart(a, b)
  {
    DifferIs(a, b, 0);
    var i :| 0 <= i < |a| - 1 && a[i] != a[i + 1] && b == a[i := a[i + 1]][i + 1 := a[i]];
    DifferOnly(Differ(a, b, 0), i, i + 1);
  }

  /** A list in order of no more than two places is those two. */
  lemma DifferOnly(differ: seq<nat>, i: nat, j: nat)
    requires i <= j && i in differ && j in differ && forall k :: k in differ ==> k == i || k == j
    requires InOrder(differ)
    ensures differ == if i == j then [i] else [i, j]
  {
    hide InOrder;
    assert forall x :: 0 <= x < |differ| ==> differ[x] in differ;
    if |differ| == 2 {
      InOrderAt(differ, 0);
    } else if |differ| > 2 {
      InOrderAt(differ, 0);
      InOrderAt(differ, 1);
    }
  }

  lemma InOrderAt(differ: seq<nat>, x: nat)
    requires InOrder(differ) && x + 1 < |differ|
    ensures differ[x] < differ[x + 1]
  {
  }

  /** The quick test finds exactly the texts one edit away. */
  lemma OneSlipExact(a: string, b: string)
    ensures OneSlipApart(a, b) <==> a != b && OneEdit(a, b)
  {
    hide OneLonger;
    if a != b {
      if |a| == |b| {
        if OneSlipApart(a, b) { SameLengthOnly(a, b); }
        if Substituted(a, b) { SubstitutedFound(a, b); }
        if Swapped(a, b) { SwappedFound(a, b); }
      } else if |a| + 1 == |b| {
        OneLongerExact(a, b);
      } else if |b| + 1 == |a| {
        OneLongerExact(b, a);
      }
    }
  }

  lemma SwappedBack(a: string, b: string)
    requires Swapped(a, b)
    ensures Swapped(b, a)
  {
    var i :| 0 <= i < |a| - 1 && a[i] != a[i + 1] && b == a[i := a[i + 1]][i + 1 := a[i]];
    assert a == b[i := b[i + 1]][i + 1 := b[i]];
  }

  lemma SubstitutedBack(a: string, b: string)
    requires Substituted(a, b)
    ensures Substituted(b, a)
  {
    var i :| 0 <= i < |a| && a[i] != b[i] && b == a[i := b[i]];
    assert a == b[i := a[i]];
  }

  /** One slip away is one slip back. */
  lemma OneSlipBack(a: string, b: string)
    ensures OneSlipApart(a, b) <==> OneSlipApart(b, a)
  {
    hide OneSlipApart, Inserted, Substituted, Swapped;
    OneSlipExact(a, b);
    OneSlipExact(b, a);
    if Swapped(a, b) { SwappedBack(a, b); }
    if Swapped(b, a) { SwappedBack(b, a); }
    if Substituted(a, b) { SubstitutedBack(a, b); }
    if Substituted(b, a) { SubstitutedBack(b, a); }
  }

  // Suggestions.

  function FirstSlip(listed: seq<string>, typed: string): Option<string> {
    if listed == [] then None
    else if OneSlipApart(typed, listed[0]) then Some(listed[0])
    else FirstSlip(listed[1..], typed)
  }

  function Suggestion(w: World, address: Address): Option<Address> {
    if address.domain in w.listed then None
    else
      match FirstSlip(w.listed, address.domain)
      case Some(domain) => Some(Address(address.local, domain))
      case None => None
  }

  function OnContinue(w: World, typed: string, declined: Option<Address>): Continue {
    match Parse(w, typed)
    case None => Say
    case Some(address) =>
      if declined == Some(address) then Look(address)
      else
        match Suggestion(w, address)
        case Some(better) => Suggest(better)
        case None => Look(address)
  }

  /** Letters behave: lowering twice is lowering once, and no letter or digit is
      whitespace or a mark of an address. */
  ghost predicate LettersBehave(w: World) {
    && (forall s: string :: w.lower(w.lower(s)) == w.lower(s))
    && (forall c :: w.alphanumeric(c) ==> !White(c) && c != '@' && c != '.')
  }

  /** Each listed domain reads as itself. */
  ghost predicate ListedRead(w: World) {
    forall d :: d in w.listed ==> DomainOk(w, d) && w.lower(d) == d
  }

  /** The first listed domain a slip away, in the table's order. */
  ghost predicate FirstListed(listed: seq<string>, typed: string, k: nat) {
    k < |listed| && OneEdit(typed, listed[k]) && forall j :: 0 <= j < k ==> !OneEdit(typed, listed[j])
  }

  lemma {:induction false} FirstSlipIs(listed: seq<string>, typed: string)
    ensures match FirstSlip(listed, typed)
            case Some(domain) =>
              && domain in listed && OneSlipApart(typed, domain)
              && exists k :: 0 <= k < |listed| && listed[k] == domain
                             && forall j :: 0 <= j < k ==> !OneSlipApart(typed, listed[j])
            case None => forall domain :: domain in listed ==> !OneSlipApart(typed, domain)
  {
    hide OneSlipApart;
    if listed != [] {
      FirstSlipIs(listed[1..], typed);
      assert listed == [listed[0]] + listed[1..];
      var found := FirstSlip(listed, typed);
      if found.Some? && !OneSlipApart(typed, listed[0]) {
        var k :| 0 <= k < |listed[1..]| && listed[1..][k] == found.value
                 && forall j :: 0 <= j < k ==> !OneSlipApart(typed, listed[1..][j]);
        assert listed[k + 1] == found.value;
        forall j | 0 <= j < k + 1 ensures !OneSlipApart(typed, listed[j]) {
          assert j > 0 ==> listed[j] == listed[1..][j - 1];
        }
      }
    }
  }

  /** The characters of a domain that reads are letters, digits, hyphens and dots. */
  lemma {:induction false} LabelsHold(s: string, i: nat)
    requires i < |s| && s[i] != '.'
    ensures exists k :: 0 <= k < |Labels(s)| && s[i] in Labels(s)[k]
  {
    var rest := Labels(s[1..]);
    if i == 0 {
      assert s[0] in Labels(s)[0];
    } else {
      LabelsHold(s[1..], i - 1);
      var k :| 0 <= k < |rest| && s[i] in rest[k];
      if s[0] == '.' {
        assert Labels(s)[k + 1] == rest[k];
      } else {
        assert s[i] in Labels(s)[k];
      }
    }
  }

  lemma {:induction false} LastLabel(s: string)
    ensures var parts := Labels(s); s != "" && s[|s| - 1] == '.' ==> parts[|parts| - 1] == ""
  {
    if |s| > 1 {
      LastLabel(s[1..]);
      NoDots(s[1..]);
      assert s[1..][|s| - 2] == s[|s| - 1];
      assert s[|s| - 1] in s[1..];
    } else if |s| == 1 {
      assert s[1..] == "";
    }
  }

  /** One part alone is the whole text. */
  lemma {:induction false} NoDots(s: string)
    ensures |Labels(s)| == 1 ==> Labels(s)[0] == s && '.' !in s
  {
    if s != "" {
      NoDots(s[1..]);
      assert s == [s[0]] + s[1..];
    }
  }

  lemma {:induction false} AfterLastUnique(local: string, domain: string)
    requires '@' !in domain
    ensures AfterLast(local + "@" + domain, '@') == Some(|local| + 1)
  {
    var s := local + "@" + domain;
    if domain != "" {
      assert domain[|domain| - 1] in domain;
      assert s[..|s| - 1] == local + "@" + domain[..|domain| - 1];
      AfterLastUnique(local, domain[..|domain| - 1]);
    } else {
      assert s == local + "@";
    }
  }

  /** A local part and a domain that both read make an address that reads as itself. */
  lemma FullReads(w: World, local: string, domain: string)
    requires LettersBehave(w) && LocalOk(local) && DomainOk(w, domain) && w.lower(domain) == domain
    ensures Parse(w, Full(Address(local, domain))) == Some(Address(local, domain))
  {
    hide Labels, Trim, AfterLast, TrimDots;
    var full := Full(Address(local, domain));
    forall i | 0 <= i < |domain| ensures !White(domain[i]) && domain[i] != '@' {
      if domain[i] != '.' {
        LabelsHold(domain, i);
      }
    }
    NotTrimmed(full);
    AfterLastUnique(local, domain);
    assert full[..|local|] == local && full[|local| + 1..] == domain;
    DotKept(w, domain);
  }

  lemma DotKept(w: World, domain: string)
    requires DomainOk(w, domain)
    ensures TrimDots(domain) == domain
  {
    LastLabel(domain);
    assert LabelOk(w, Labels(domain)[|Labels(domain)| - 1]);
  }

  lemma NotTrimmed(s: string)
    requires s != "" && !White(s[0]) && !White(s[|s| - 1])
    ensures Trim(s) == s
  {
    assert TrimEnd(s) == s && TrimStart(s) == s;
  }

  /** An address read from what was typed reads as itself again. */
  lemma ReadTwice(w: World, typed: string)
    requires LettersBehave(w) && Parse(w, typed).Some?
    ensures Parse(w, Full(Parse(w, typed).value)) == Parse(w, typed)
  {
    hide Labels, Trim, AfterLast, TrimDots, DomainOk, LocalOk;
    AfterLastIs(Trim(typed), '@');
    var address := Parse(w, typed).value;
    FullReads(w, address.local, address.domain);
  }

  /** A suggestion is a listed domain one edit away for the same local part, made exactly when
      the typed domain is not listed and such a domain is; and it reads as itself, and
      nothing better is suggested for it. */
  lemma SuggestionExact(w: World, address: Address)
    ensures Suggestion(w, address).Some?
            <==> address.domain !in w.listed && exists d :: d in w.listed && OneEdit(address.domain, d)
    ensures Suggestion(w, address).Some? ==>
              var better := Suggestion(w, address).value;
              && better.local == address.local && better.domain in w.listed
              && Suggestion(w, better) == None
              && exists k: nat :: FirstListed(w.listed, address.domain, k) && w.listed[k] == better.domain
  {
    hide OneEdit, OneSlipApart;
    FirstSlipIs(w.listed, address.domain);
    forall d | d in w.listed && d != address.domain
      ensures OneSlipApart(address.domain, d) <==> OneEdit(address.domain, d) {
      OneSlipExact(address.domain, d);
    }
  }

  /** Continue on an address that reads looks it up, or suggests one; and then Continue looks
      up the suggested address when it is taken, whatever was declined before, and the
      typed one when it is kept. */
  lemma OneSuggestionAtMost(w: World, typed: string, declined: Option<Address>)
    requires LettersBehave(w) && ListedRead(w) && Parse(w, typed).Some?
    ensures var address := Parse(w, typed).value;
            match OnContinue(w, typed, declined)
            case Say => false
            case Look(found) => found == address
            case Suggest(better) =>
              && (forall d :: OnContinue(w, Full(better), d) == Look(better))
              && OnContinue(w, typed, Some(address)) == Look(address)
              && OnContinue(w, Full(address), Some(address)) == Look(address)
  {
    hide Labels, Trim, AfterLast, TrimDots, DomainOk, LocalOk, OneEdit, FirstSlip;
    var address := Parse(w, typed).value;
    AfterLastIs(Trim(typed), '@');
    SuggestionExact(w, address);
    ReadTwice(w, typed);
    match OnContinue(w, typed, declined)
    case Suggest(better) => FullReads(w, better.local, better.domain);
    case _ =>
  }
}
