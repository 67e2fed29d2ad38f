/** Copying into the app every library it is linked to, however the links run in circles. */
module Relocation {
  import opened Text

  /** The build machine: its files, and for each what it links to, the system versions it
      asks for, and where it searches; `resolve` gives the file a link name of a file
      leads to, or none. */
  datatype Machine = Machine(files: set<string>, links: string -> seq<string>, versions: string -> seq<seq<nat>>,
                             rpaths: string -> seq<string>, resolve: (string, string) -> Option<string>)

  /** Where an image is rewritten: the executable in place, a library in its copy. */
  datatype Place = InPlace | InFrameworks(name: string)

  datatype Edit = Change(link: string, copy: string) | SetId(name: string) | DeleteRpath(folder: string)

  datatype Bundle = Bundle(copied: map<string, string>, sources: map<string, string>, minimum: seq<nat>,
                           tool: map<Place, seq<Edit>>)

  const OLDEST: seq<nat> := [14, 0]

  predicate SystemLibrary(name: string) {
    StartsWith(name, "/System/Library/") || StartsWith(name, "/usr/lib/")
  }

  function NameOf(path: string): string {
    if path == "" || path[|path| - 1] == '/' then "" else NameOf(path[..|path| - 1]) + [path[|path| - 1]]
  }

  /** Version numbers in order, the first difference deciding. */
  predicate AtMost(a: seq<nat>, b: seq<nat>) {
    a == [] || (b != [] && (a[0] < b[0] || (a[0] == b[0] && AtMost(a[1..], b[1..]))))
  }

  lemma {:induction false} AtMostOrder(a: seq<nat>, b: seq<nat>, c: seq<nat>)
    ensures AtMost(a, a) && (AtMost(a, b) || AtMost(b, a))
    ensures AtMost(a, b) && AtMost(b, a) ==> a == b
    ensures AtMost(a, b) && AtMost(b, c) ==> AtMost(a, c)
  {
    if a != [] {
      AtMostOrder(a[1..], if b == [] then [] else b[1..], if c == [] then [] else c[1..]);
      if b != [] && a[0] == b[0] && a[1..] == b[1..] {
        assert a == [a[0]] + a[1..] == b;
      }
    }
  }

  /** A list of numbers is at most another exactly when it begins it, or the first number
      they differ in is the smaller one. */
  lemma {:induction false} AtMostExact(a: seq<nat>, b: seq<nat>)
    ensures AtMost(a, b)
            <==> a <= b || exists i :: 0 <= i < |a| && i < |b| && a[..i] == b[..i] && a[i] < b[i]
  {
    if a != [] && b != [] {
      AtMostExact(a[1..], b[1..]);
      if a[0] < b[0] {
        assert a[..0] == b[..0] && a[0] < b[0];
      } else if a[0] == b[0] {
        assert a <= b <==> a[1..] <= b[1..];
        forall i | 0 <= i < |a[1..]| && i < |b[1..]| && a[1..][..i] == b[1..][..i] && a[1..][i] < b[1..][i]
          ensures exists j :: 0 <= j < |a| && j < |b| && a[..j] == b[..j] && a[j] < b[j] {
          assert a[..i + 1] == [a[0]] + a[1..][..i] && b[..i + 1] == [b[0]] + b[1..][..i];
        }
        forall i | 0 <= i < |a| && i < |b| && a[..i] == b[..i] && a[i] < b[i]
          ensures exists j :: 0 <= j < |a[1..]| && j < |b[1..]| && a[1..][..j] == b[1..][..j] && a[1..][j] < b[1..][j] {
          assert a[1..][..i - 1] == a[..i][1..] == b[..i][1..] == b[1..][..i - 1];
          assert a[1..][i - 1] < b[1..][i - 1];
        }
      }
    }
  }

  // What the app reaches.

  /** Link `i` of `a` is followed, and leads to `b`. */
  predicate Follows(m: Machine, a: string, i: nat, b: string) {
    i < |m.links(a)| && !SystemLibrary(m.links(a)[i]) && m.resolve(m.links(a)[i], a) == Some(b)
  }

  ghost predicate Edge(m: Machine, a: string, b: string) {
    a != b && exists i :: Follows(m, a, i, b)
  }

  ghost predicate Trail(m: Machine, executable: string, modules: seq<string>, trail: seq<string>) {
    && trail != [] && (trail[0] in modules || Edge(m, executable, trail[0]))
    && forall i :: 0 <= i < |trail| - 1 ==> Edge(m, trail[i], trail[i + 1])
  }

  /** Links not the system's lead to `file` from the executable or from a module. */
  ghost predicate Reachable(m: Machine, executable: string, modules: seq<string>, file: string) {
    exists trail :: Trail(m, executable, modules, trail) && trail[|trail| - 1] == file
  }

  ghost predicate Visited(m: Machine, executable: string, modules: seq<string>, file: string) {
    file == executable || Reachable(m, executable, modules, file)
  }

  /** A link that leads nowhere. */
  predicate Dangles(m: Machine, a: string, i: nat) {
    i < |m.links(a)| && !SystemLibrary(m.links(a)[i]) && m.resolve(m.links(a)[i], a) == None
  }

  /** What keeps an app from being made whole: a link that leads nowhere, or two libraries
      of one name. */
  ghost predicate Flawed(m: Machine, executable: string, modules: seq<string>) {
    || (exists a, i :: Visited(m, executable, modules, a) && Dangles(m, a, i))
    || (exists a, b :: Reachable(m, executable, modules, a) && Reachable(m, executable, modules, b)
                       && a != b && NameOf(a) == NameOf(b))
  }

  lemma ReachableNext(m: Machine, executable: string, modules: seq<string>, a: string, b: string)
    requires Visited(m, executable, modules, a) && Edge(m, a, b)
    ensures Reachable(m, executable, modules, b)
  {
    if Reachable(m, executable, modules, a) {
      var trail :| Trail(m, executable, modules, trail) && trail[|trail| - 1] == a;
      var longer := trail + [b];
      assert Trail(m, executable, modules, longer);
    } else {
      assert Trail(m, executable, modules, [b]);
    }
  }

  /** A set every module and every followed link stays in. */
  ghost predicate Closed(m: Machine, executable: string, modules: seq<string>, files: set<string>) {
    && (forall s :: s in modules ==> s in files)
    && (forall a, b :: (a == executable || a in files) && Edge(m, a, b) ==> b in files)
  }

  lemma {:induction false} TrailStays(m: Machine, executable: string, modules: seq<string>, files: set<string>,
                                      trail: seq<string>)
    requires Closed(m, executable, modules, files) && Trail(m, executable, modules, trail)
    ensures trail[|trail| - 1] in files
    decreases |trail|
  {
    if |trail| > 1 {
      var shorter := trail[..|trail| - 1];
      TrailStays(m, executable, modules, files, shorter);
      assert Edge(m, trail[|trail| - 2], trail[|trail| - 2 + 1]);
    }
  }

  // What is run on an image.

  function LinkEdits(m: Machine, a: string, links: seq<string>): seq<Edit> {
    if links == [] then []
    else
      var rest := LinkEdits(m, a, links[..|links| - 1]);
      var name := links[|links| - 1];
      if SystemLibrary(name) then rest
      else
        match m.resolve(name, a)
        case None => rest
        case Some(b) => if a == b then rest else rest + [Change(name, NameOf(b))]
  }

  function RpathEdits(folders: seq<string>): seq<Edit> {
    seq(|folders|, i requires 0 <= i < |folders| => DeleteRpath(folders[i]))
  }

  function Edits(m: Machine, a: string, place: Place): seq<Edit> {
    LinkEdits(m, a, m.links(a))
    + (if place.InFrameworks? then [SetId(place.name)] else [])
    + RpathEdits(m.rpaths(a))
  }

  /** What the tool was run with on a place, if it was. */
  function Ran(b: Bundle, place: Place): seq<Edit> {
    if place in b.tool then b.tool[place] else []
  }

  // What copying keeps.

  ghost predicate Counted(m: Machine, minimum: seq<nat>, a: string) {
    forall i :: 0 <= i < |m.versions(a)| ==> AtMost(m.versions(a)[i], minimum)
  }

  ghost predicate AsksFor(m: Machine, executable: string, modules: seq<string>, version: seq<nat>) {
    exists a :: Visited(m, executable, modules, a) && version in m.versions(a)
  }

  /** Names give each copied file a copy of its own. */
  ghost predicate NamesSound(b: Bundle) {
    && (forall s :: s in b.copied ==>
          b.copied[s] == NameOf(s) && NameOf(s) in b.sources && b.sources[NameOf(s)] == s)
    && (forall name :: name in b.sources ==> b.sources[name] in b.copied && NameOf(b.sources[name]) == name)
  }

  ghost predicate Sound(m: Machine, executable: string, modules: seq<string>, b: Bundle) {
    && NamesSound(b)
    && (forall s :: s in b.copied ==> s in m.files && Reachable(m, executable, modules, s))
    && AtMost(OLDEST, b.minimum)
    && (b.minimum == OLDEST || AsksFor(m, executable, modules, b.minimum))
  }

  /** Every followed link of `a` leads to a copied file, and `a` is rewritten to say so. */
  ghost predicate Handled(m: Machine, b: Bundle, a: string, place: Place) {
    && (forall i :: !Dangles(m, a, i))
    && (forall i, d :: Follows(m, a, i, d) && d != a ==> d in b.copied)
    && Counted(m, b.minimum, a)
    && Ran(b, place) == Edits(m, a, place)
  }

  ghost predicate Grows(before: Bundle, after: Bundle) {
    && (forall s :: s in before.copied ==> s in after.copied)
    && (forall name :: name in before.sources ==> name in after.sources)
    && AtMost(before.minimum, after.minimum)
  }

  /** Rewriting leaves alone the executable and the libraries already named. */
  ghost predicate ToolKept(before: Bundle, after: Bundle, names: set<string>, place: Option<Place>) {
    forall p: Place :: Some(p) != place && (p.InPlace? || p.name in names) ==> Ran(after, p) == Ran(before, p)
  }

  ghost predicate NewHandled(m: Machine, before: Bundle, after: Bundle) {
    forall s :: s in after.copied && s !in before.copied ==> Handled(m, after, s, InFrameworks(NameOf(s)))
  }

  lemma HandledStays(m: Machine, before: Bundle, after: Bundle, a: string, place: Place)
    requires Handled(m, before, a, place) && Grows(before, after) && Ran(after, place) == Ran(before, place)
    ensures Handled(m, after, a, place)
  {
    hide AtMost;
    CountedMore(m, before.minimum, after.minimum, a);
  }

  function Recorded(b: Bundle, source: string): Bundle {
    b.(sources := b.sources[NameOf(source) := source], copied := b.copied[source := NameOf(source)])
  }

  /** Recording a file under a name not taken. */
  lemma RecordKeeps(m: Machine, executable: string, modules: seq<string>, b: Bundle, source: string)
    requires Sound(m, executable, modules, b) && source in m.files && Reachable(m, executable, modules, source)
    requires source !in b.copied && (NameOf(source) in b.sources ==> b.sources[NameOf(source)] == source)
    ensures Sound(m, executable, modules, Recorded(b, source)) && Grows(b, Recorded(b, source))
    ensures NameOf(source) !in b.sources
  {
    hide NameOf, Reachable, AtMost, AsksFor;
    AtMostOrder(b.minimum, b.minimum, b.minimum);
  }

  /** Two libraries of one name. */
  lemma NameTaken(m: Machine, executable: string, modules: seq<string>, b: Bundle, source: string)
    requires Sound(m, executable, modules, b) && Reachable(m, executable, modules, source)
    requires NameOf(source) in b.sources && b.sources[NameOf(source)] != source
    ensures Flawed(m, executable, modules)
  {
    hide NameOf, Reachable, AtMost, AsksFor, Visited;
  }

  /** A file recorded, then handled, is copied with all it needs. */
  lemma CopyDone(m: Machine, start: Bundle, after: Bundle, source: string)
    requires NamesSound(start) && NamesSound(after)
    requires source !in start.copied && NameOf(source) !in start.sources
    requires var before := Recorded(start, source);
             && Grows(before, after) && NewHandled(m, before, after)
             && ToolKept(before, after, before.sources.Keys, Some(InFrameworks(NameOf(source))))
             && Handled(m, after, source, InFrameworks(NameOf(source)))
    ensures Grows(start, after) && NewHandled(m, start, after) && ToolKept(start, after, start.sources.Keys, None)
    ensures source in after.copied && after.copied[source] == NameOf(source)
  {
    hide NameOf, AtMost, Handled;
  }

  /** The image whose links all lead to copied files, once the tool has run on it. */
  lemma PlaceHandled(m: Machine, minimum: seq<nat>, b: Bundle, source: string, place: Place)
    requires (forall i :: !Dangles(m, source, i)) && Counted(m, minimum, source) && AtMost(minimum, b.minimum)
    requires forall i, d :: Follows(m, source, i, d) && d != source ==> d in b.copied
    requires Ran(b, place) == Edits(m, source, place)
    ensures Handled(m, b, source, place)
  {
    hide AtMost, Counted, Follows, Dangles, Edits, Ran;
    CountedMore(m, minimum, b.minimum, source);
  }

  /** An image rewritten, and what was copied for it handled. */
  lemma RewriteDone(m: Machine, start: Bundle, raised: Bundle, before: Bundle, after: Bundle, source: string,
                    place: Place)
    requires raised == start.(minimum := raised.minimum) && AtMost(start.minimum, raised.minimum)
    requires Grows(raised, before) && NewHandled(m, raised, before)
    requires ToolKept(raised, before, raised.sources.Keys, None)
    requires place.InPlace? || place.name in start.sources
    requires NamesSound(raised) && NamesSound(before)
    requires after == before.(tool := after.tool) && forall p :: p != place ==> Ran(after, p) == Ran(before, p)
    ensures Grows(start, after) && NewHandled(m, start, after) && AtMost(raised.minimum, after.minimum)
    ensures ToolKept(start, after, start.sources.Keys, Some(place))
  {
    hide AtMost, Handled, NamesSound;
    assert forall p :: Ran(raised, p) == Ran(start, p);
    hide Ran;
    assert Grows(start, after) by { AtMostOrder(start.minimum, raised.minimum, before.minimum); }
    OthersDone(m, raised, before, after, place);
  }

  /** Running the tool on one place leaves what was handled before. */
  lemma OthersDone(m: Machine, raised: Bundle, before: Bundle, after: Bundle, place: Place)
    requires Grows(raised, before) && NewHandled(m, raised, before) && NamesSound(raised) && NamesSound(before)
    requires place.InPlace? || place.name in raised.sources
    requires after == before.(tool := after.tool) && forall p :: p != place ==> Ran(after, p) == Ran(before, p)
    ensures NewHandled(m, raised, after)
  {
    hide NameOf, AtMost, Handled, Ran, NamesSound;
    AtMostOrder(before.minimum, before.minimum, before.minimum);
    forall s | s in after.copied && s !in raised.copied ensures Handled(m, after, s, InFrameworks(NameOf(s))) {
      NewName(raised, before, s);
      HandledStays(m, before, after, s, InFrameworks(NameOf(s)));
    }
  }

  lemma CountedMore(m: Machine, minimum: seq<nat>, more: seq<nat>, a: string)
    requires Counted(m, minimum, a) && AtMost(minimum, more)
    ensures Counted(m, more, a)
  {
    forall i | 0 <= i < |m.versions(a)| ensures AtMost(m.versions(a)[i], more) {
      AtMostOrder(m.versions(a)[i], minimum, more);
    }
  }

  /** A file newly copied has a name of its own. */
  lemma NewName(first: Bundle, next: Bundle, s: string)
    requires NamesSound(first) && NamesSound(next) && Grows(first, next)
    requires s in next.copied && s !in first.copied
    ensures NameOf(s) !in first.sources
  {
    hide NameOf, AtMost;
  }

  lemma NothingYet(m: Machine, b: Bundle)
    ensures Grows(b, b) && NewHandled(m, b, b) && ToolKept(b, b, b.sources.Keys, None)
  {
    AtMostOrder(b.minimum, b.minimum, b.minimum);
  }

  class Bundler {
    const m: Machine
    const executable: string
    ghost const modules: seq<string>
    var copied: map<string, string>
    var sources: map<string, string>
    var minimum: seq<nat>
    var tool: map<Place, seq<Edit>>

    function Contents(): Bundle
      reads this
    {
      Bundle(copied, sources, minimum, tool)
    }

    ghost predicate Valid()
      reads this
    {
      && Sound(m, executable, modules, Contents())
      && forall name, a :: m.resolve(name, a).Some? ==> m.resolve(name, a).value in m.files
    }

    constructor (m: Machine, executable: string, modules: seq<string>)
      requires forall name, a :: m.resolve(name, a).Some? ==> m.resolve(name, a).value in m.files
      ensures Valid() && this.m == m && this.executable == executable && this.modules == modules
      ensures Contents() == Bundle(map[], map[], OLDEST, map[])
    {
      this.m, this.executable, this.modules := m, executable, modules;
      copied, sources, minimum, tool := map[], map[], OLDEST, map[];
      new;
      AtMostOrder(OLDEST, OLDEST, OLDEST);
    }

    /** Copies `source` and all it needs, and answers the name of its copy; none when the
        app is flawed. */
    method Copy(source: string) returns (copy: Option<string>)
      requires Valid() && source in m.files && Reachable(m, executable, modules, source)
      modifies this
      ensures copy.None? ==> Flawed(m, executable, modules)
      ensures copy.Some? ==>
                && Valid() && Grows(old(Contents()), Contents()) && NewHandled(m, old(Contents()), Contents())
                && ToolKept(old(Contents()), Contents(), old(sources).Keys, None)
                && source in copied && copy == Some(copied[source]) && copied[source] == NameOf(source)
      decreases m.files - copied.Keys, 0
    {
      hide Sound, Grows, NewHandled, ToolKept, Handled, NameOf, Reachable, Flawed, AtMost;
      ghost var start := Contents();
      ToolSound(m, executable, modules, start, start.tool);
      if source in copied {
        NothingYet(m, start);
        return Some(copied[source]);
      }
      var name := NameOf(source);
      if name in sources && sources[name] != source {
        NameTaken(m, executable, modules, start, source);
        return None;
      }
      RecordKeeps(m, executable, modules, start, source);
      sources := sources[name := source];
      copied := copied[source := name];
      ghost var before := Contents();
      assert source in m.files - start.copied.Keys && copied.Keys == start.copied.Keys + {source};
      var whole := Rewrite(source, InFrameworks(name));
      if !whole {
        return None;
      }
      ToolSound(m, executable, modules, Contents(), tool);
      CopyDone(m, start, Contents(), source);
      copy := Some(name);
    }

    /** Copies what the image of `source` links to, and answers how its links change. */
    method CopyLinks(source: string) returns (changes: Option<seq<Edit>>)
      requires Valid() && Visited(m, executable, modules, source)
      modifies this
      ensures changes.None? ==> Flawed(m, executable, modules)
      ensures changes.Some? ==>
                && Valid() && Grows(old(Contents()), Contents()) && NewHandled(m, old(Contents()), Contents())
                && ToolKept(old(Contents()), Contents(), old(sources).Keys, None)
                && changes.value == LinkEdits(m, source, m.links(source))
                && (forall i :: !Dangles(m, source, i))
                && (forall i, d :: Follows(m, source, i, d) && d != source ==> d in copied)
      decreases m.files - copied.Keys, 1
    {
      hide Sound, Grows, NewHandled, ToolKept, Handled, NameOf, Reachable, Flawed, AtMost, Counted, Visited,
           SystemLibrary;
      ghost var start := Contents();
      NothingYet(m, start);
      var links := m.links(source);
      var edits: seq<Edit> := [];
      var i := 0;
      while i < |links|
        invariant 0 <= i <= |links| && Valid()
        invariant Grows(start, Contents()) && NewHandled(m, start, Contents())
        invariant ToolKept(start, Contents(), start.sources.Keys, None)
        invariant edits == LinkEdits(m, source, links[..i])
        invariant forall j :: 0 <= j < i ==> !Dangles(m, source, j)
        invariant forall j, d :: 0 <= j < i && Follows(m, source, j, d) && d != source ==> d in copied
        invariant m.files - copied.Keys <= m.files - start.copied.Keys
      {
        var name := links[i];
        assert links[..i + 1][..i] == links[..i];
        if SystemLibrary(name) {
          i := i + 1;
          continue;
        }
        var dependency := m.resolve(name, source);
        if dependency.None? {
          Dangling(m, executable, modules, source, i);
          return None;
        }
        if dependency.value == source {
          i := i + 1;
          continue;
        }
        assert Follows(m, source, i, dependency.value);
        ReachableNext(m, executable, modules, source, dependency.value);
        ghost var before := Contents();
        var bundled := Copy(dependency.value);
        if bundled.None? {
          return None;
        }
        CopyMore(m, executable, modules, start, before, Contents());
        edits := edits + [Change(name, bundled.value)];
        i := i + 1;
      }
      assert links[..i] == links;
      changes := Some(edits);
    }

    /** Rewrites the image of `source` at `place`, copying what it links to first. */
    method Rewrite(source: string, place: Place) returns (whole: bool)
      requires Valid() && Visited(m, executable, modules, source)
      requires if place.InPlace? then Ran(Contents(), place) == [] else place.name in sources
      modifies this
      ensures !whole ==> Flawed(m, executable, modules)
      ensures whole ==>
                && Valid() && Grows(old(Contents()), Contents()) && NewHandled(m, old(Contents()), Contents())
                && ToolKept(old(Contents()), Contents(), old(sources).Keys, Some(place))
                && Handled(m, Contents(), source, place)
      decreases m.files - copied.Keys, 2
    {
      hide Sound, Grows, NewHandled, ToolKept, Handled, NameOf, Reachable, Flawed, AtMost, Counted, Visited,
           Dangles, Follows, LinkEdits, RpathEdits;
      ghost var start := Contents();
      RaiseMinimum(source);
      ghost var raised := Contents();
      var copies := CopyLinks(source);
      if copies.None? {
        return false;
      }
      var changes := copies.value;
      if place.InFrameworks? {
        changes := changes + [SetId(place.name)];
      }
      changes := changes + RpathEdits(m.rpaths(source));
      ghost var before := Contents();
      KeptInPlace(raised, before, raised.sources.Keys);
      assert changes == [] ==> place.InPlace? && Ran(before, place) == [];
      if changes != [] {
        tool := tool[place := changes];
      }
      GrowsMinimum(start, raised);
      ToolSound(m, executable, modules, raised, raised.tool);
      ToolSound(m, executable, modules, before, tool);
      assert changes == Edits(m, source, place);
      hide Edits;
      RewriteDone(m, start, raised, before, Contents(), source, place);
      PlaceHandled(m, raised.minimum, Contents(), source, place);
      whole := true;
    }

    method RaiseMinimum(source: string)
      requires Valid() && Visited(m, executable, modules, source)
      modifies this`minimum
      ensures Valid() && Grows(old(Contents()), Contents()) && Counted(m, minimum, source)
    {
      hide Visited, AtMost, AsksFor, NamesSound, Reachable;
      AtMostOrder(minimum, minimum, minimum);
      var versions := m.versions(source);
      var i := 0;
      while i < |versions|
        invariant 0 <= i <= |versions| && Valid() && Grows(old(Contents()), Contents())
        invariant forall j :: 0 <= j < i ==> AtMost(versions[j], minimum)
      {
        RaiseOne(m, executable, modules, old(Contents()), Contents(), source, i);
        if !AtMost(versions[i], minimum) {
          minimum := versions[i];
        }
        i := i + 1;
      }
    }
  }

  /** The larger of the minimum and a version an image asks for. */
  lemma RaiseOne(m: Machine, executable: string, modules: seq<string>, start: Bundle, b: Bundle, a: string, i: nat)
    requires Sound(m, executable, modules, b) && Visited(m, executable, modules, a) && Grows(start, b)
    requires i < |m.versions(a)| && forall j :: 0 <= j < i ==> AtMost(m.versions(a)[j], b.minimum)
    ensures var version := m.versions(a)[i];
            var raised := b.(minimum := if AtMost(version, b.minimum) then b.minimum else version);
            && Sound(m, executable, modules, raised) && Grows(start, raised)
            && forall j :: 0 <= j <= i ==> AtMost(m.versions(a)[j], raised.minimum)
  {
    hide NameOf, Reachable, AtMost, Visited;
    var version := m.versions(a)[i];
    assert AsksFor(m, executable, modules, version);
    var raised := if AtMost(version, b.minimum) then b.minimum else version;
    AtMostOrder(version, b.minimum, version);
    AtMostOrder(start.minimum, b.minimum, raised);
    AtMostOrder(OLDEST, b.minimum, raised);
    forall j | 0 <= j <= i ensures AtMost(m.versions(a)[j], raised) {
      AtMostOrder(m.versions(a)[j], b.minimum, raised);
    }
  }

  /** Where the tool ran says nothing about what is copied. */
  lemma ToolSound(m: Machine, executable: string, modules: seq<string>, b: Bundle, tool: map<Place, seq<Edit>>)
    requires Sound(m, executable, modules, b)
    ensures NamesSound(b) && Sound(m, executable, modules, b.(tool := tool))
  {
    hide NameOf, Reachable, AtMost, AsksFor;
  }

  lemma KeptInPlace(before: Bundle, after: Bundle, names: set<string>)
    requires ToolKept(before, after, names, None)
    ensures Ran(after, InPlace) == Ran(before, InPlace)
  {
  }

  lemma GrowsMinimum(before: Bundle, after: Bundle)
    requires Grows(before, after)
    ensures AtMost(before.minimum, after.minimum)
  {
  }

  lemma ModuleReachable(m: Machine, executable: string, modules: seq<string>, file: string)
    requires file in modules
    ensures Reachable(m, executable, modules, file)
  {
    var trail := [file];
    assert Trail(m, executable, modules, trail);
  }

  lemma Dangling(m: Machine, executable: string, modules: seq<string>, a: string, i: nat)
    requires Visited(m, executable, modules, a) && Dangles(m, a, i)
    ensures Flawed(m, executable, modules)
  {
  }

  lemma CopyMore(m: Machine, executable: string, modules: seq<string>, first: Bundle, before: Bundle, after: Bundle)
    requires Sound(m, executable, modules, before) && Grows(first, before) && NewHandled(m, first, before)
    requires ToolKept(first, before, first.sources.Keys, None)
    requires Grows(before, after) && NewHandled(m, before, after) && ToolKept(before, after, before.sources.Keys, None)
    ensures Grows(first, after) && NewHandled(m, first, after) && ToolKept(first, after, first.sources.Keys, None)
    ensures forall s :: s in before.copied ==> s in after.copied
    ensures m.files - after.copied.Keys <= m.files - before.copied.Keys
  {
    hide NameOf, AtMost, Reachable, Handled;
    AtMostOrder(first.minimum, before.minimum, after.minimum);
    forall s | s in after.copied && s !in first.copied
      ensures Handled(m, after, s, InFrameworks(NameOf(s))) {
      if s in before.copied {
        HandledStays(m, before, after, s, InFrameworks(NameOf(s)));
      }
    }
  }

  // The whole app.

  /** The app made whole: the files copied are those the executable and the modules reach,
      each under a name of its own; every image is rewritten so that each followed link
      leads to its copy; and the minimum is the largest version any of them asks for. */
  ghost predicate Whole(m: Machine, executable: string, modules: seq<string>, b: Bundle) {
    && (forall s :: s in b.copied <==> Reachable(m, executable, modules, s))
    && (forall s :: s in b.copied ==> b.copied[s] == NameOf(s))
    && (forall s, t :: s in b.copied && t in b.copied && b.copied[s] == b.copied[t] ==> s == t)
    && Handled(m, b, executable, InPlace)
    && (forall s :: s in b.copied ==> Handled(m, b, s, InFrameworks(NameOf(s))))
    && AtMost(OLDEST, b.minimum) && (b.minimum == OLDEST || AsksFor(m, executable, modules, b.minimum))
  }

  /** Every change sends a followed link to its copy, and every followed link has its change. */
  lemma ChangesExact(m: Machine, a: string, place: Place, link: string, copy: string)
    ensures Change(link, copy) in Edits(m, a, place)
            <==> exists i: nat, b :: Follows(m, a, i, b) && b != a && m.links(a)[i] == link && NameOf(b) == copy
  {
    hide NameOf, SystemLibrary;
    var links := m.links(a);
    LinkEditsIs(m, a, |links|, link, copy);
    assert Changes(m, a, |links|, link, copy)
      <==> exists i: nat, b :: Follows(m, a, i, b) && b != a && m.links(a)[i] == link && NameOf(b) == copy;
    assert links[..|links|] == links;
    forall e | e in RpathEdits(m.rpaths(a)) ensures e.DeleteRpath? {
    }
  }

  /** The library's own name is set in its copy, with the name of the copy, and in nothing else,
      and exactly the folders the image searched on the build machine are taken out. */
  lemma OwnEditsExact(m: Machine, a: string, place: Place, name: string, folder: string)
    ensures SetId(name) in Edits(m, a, place) <==> place == InFrameworks(name)
    ensures DeleteRpath(folder) in Edits(m, a, place) <==> folder in m.rpaths(a)
  {
    var links, folders := LinkEdits(m, a, m.links(a)), RpathEdits(m.rpaths(a));
    OnlyChanges(m, a, m.links(a));
    assert forall i :: 0 <= i < |folders| ==> folders[i] == DeleteRpath(m.rpaths(a)[i]);
    if folder in m.rpaths(a) {
      var i :| 0 <= i < |m.rpaths(a)| && m.rpaths(a)[i] == folder;
      assert folders[i] in folders;
    }
    assert Edits(m, a, place) == links + (if place.InFrameworks? then [SetId(place.name)] else []) + folders;
  }

  lemma {:induction false} OnlyChanges(m: Machine, a: string, links: seq<string>)
    ensures forall e :: e in LinkEdits(m, a, links) ==> e.Change?
  {
    hide NameOf, SystemLibrary;
    if links != [] {
      OnlyChanges(m, a, links[..|links| - 1]);
    }
  }

  ghost predicate Changes(m: Machine, a: string, n: nat, link: string, copy: string) {
    exists i: nat, b :: i < n && Follows(m, a, i, b) && b != a && m.links(a)[i] == link && NameOf(b) == copy
  }

  lemma {:induction false} LinkEditsIs(m: Machine, a: string, n: nat, link: string, copy: string)
    requires n <= |m.links(a)|
    ensures Change(link, copy) in LinkEdits(m, a, m.links(a)[..n]) <==> Changes(m, a, n, link, copy)
  {
    hide NameOf, SystemLibrary;
    if n > 0 {
      var links := m.links(a)[..n];
      assert links[..n - 1] == m.links(a)[..n - 1] && links[n - 1] == m.links(a)[n - 1];
      LinkEditsIs(m, a, n - 1, link, copy);
      var b := m.resolve(links[n - 1], a);
      if b.Some? && !SystemLibrary(links[n - 1]) && b.value != a {
        assert Follows(m, a, n - 1, b.value);
        if Changes(m, a, n, link, copy) {
          var i: nat, c :| i < n && Follows(m, a, i, c) && c != a && m.links(a)[i] == link && NameOf(c) == copy;
          assert i < n - 1 || c == b.value;
        }
      } else {
        assert Changes(m, a, n, link, copy) ==> Changes(m, a, n - 1, link, copy) by {
          if Changes(m, a, n, link, copy) {
            var i: nat, c :| i < n && Follows(m, a, i, c) && c != a && m.links(a)[i] == link && NameOf(c) == copy;
            assert i < n - 1;
          }
        }
      }
    }
  }

  // What the words mean, written out.

  /** What comes with the system is what lies under one of its two folders. */
  lemma SystemExact(name: string)
    ensures SystemLibrary(name) <==> exists rest :: name == "/System/Library/" + rest || name == "/usr/lib/" + rest
  {
    var system, usr := "/System/Library/", "/usr/lib/";
    if StartsWith(name, system) {
      assert name == system + name[|system|..];
    }
    if StartsWith(name, usr) {
      assert name == usr + name[|usr|..];
    }
    StartsExact(name, system);
    StartsExact(name, usr);
  }

  lemma StartsExact(s: string, head: string)
    ensures StartsWith(s, head) <==> exists rest :: s == head + rest
  {
    if StartsWith(s, head) {
      assert s == head + s[|head|..];
    }
  }

  /** The name of a file is all of its path under the last slash. */
  lemma {:induction false} NameOfExact(path: string, folder: string, name: string)
    requires path == folder + name && '/' !in name && (folder == "" || folder[|folder| - 1] == '/')
    ensures NameOf(path) == name
  {
    if name != "" {
      var shorter := name[..|name| - 1];
      assert path[..|path| - 1] == folder + shorter;
      NameOfExact(folder + shorter, folder, shorter);
    }
  }

  /** An app is flawed exactly when an image it visits has a link, not the system's, that
      resolves to nothing, or when it reaches two files of one name. */
  lemma FlawedExact(m: Machine, executable: string, modules: seq<string>)
    ensures Flawed(m, executable, modules)
            <==> || (exists a, link :: (a == executable || Reachable(m, executable, modules, a))
                                       && link in m.links(a) && !SystemLibrary(link) && m.resolve(link, a) == None)
                 || (exists a, b :: Reachable(m, executable, modules, a) && Reachable(m, executable, modules, b)
                                    && a != b && NameOf(a) == NameOf(b))
  {
    hide NameOf, SystemLibrary, Reachable;
    forall a, i: nat | Visited(m, executable, modules, a) && Dangles(m, a, i)
      ensures exists b, link :: (b == executable || Reachable(m, executable, modules, b))
                                && link in m.links(b) && !SystemLibrary(link) && m.resolve(link, b) == None {
      assert m.links(a)[i] in m.links(a);
    }
    forall a, link | (a == executable || Reachable(m, executable, modules, a))
                     && link in m.links(a) && !SystemLibrary(link) && m.resolve(link, a) == None
      ensures Flawed(m, executable, modules) {
      var i :| 0 <= i < |m.links(a)| && m.links(a)[i] == link;
      assert Visited(m, executable, modules, a) && Dangles(m, a, i);
    }
  }

  /** The minimum of a whole app is 14.0 or a version one of its images asks for, and it is
      at least each of them. */
  lemma MinimumExact(m: Machine, executable: string, modules: seq<string>, b: Bundle, a: string, version: seq<nat>)
    requires Whole(m, executable, modules, b)
    ensures AtMost([14, 0], b.minimum)
    ensures (a == executable || a in b.copied) && version in m.versions(a) ==> AtMost(version, b.minimum)
    ensures b.minimum == [14, 0]
            || exists c :: (c == executable || c in b.copied) && b.minimum in m.versions(c)
  {
    hide NameOf, AtMost, Reachable, Dangles, Follows, Edits, Ran;
    if (a == executable || a in b.copied) && version in m.versions(a) {
      var place := if a == executable then InPlace else InFrameworks(NameOf(a));
      assert Handled(m, b, a, place);
      var i :| 0 <= i < |m.versions(a)| && m.versions(a)[i] == version;
      assert AtMost(m.versions(a)[i], b.minimum);
    }
  }

  /** What a whole app holds is the least set with every module and every followed link. */
  lemma WholeIsLeast(m: Machine, executable: string, modules: seq<string>, b: Bundle, files: set<string>)
    requires Whole(m, executable, modules, b)
    ensures Closed(m, executable, modules, b.copied.Keys)
    ensures Closed(m, executable, modules, files) ==> b.copied.Keys <= files
  {
    forall s | s in modules ensures s in b.copied {
      assert Trail(m, executable, modules, [s]);
      assert [s][|[s]| - 1] == s;
    }
    forall a, c | (a == executable || a in b.copied) && Edge(m, a, c) ensures c in b.copied {
      ReachableNext(m, executable, modules, a, c);
    }
    forall s | Closed(m, executable, modules, files) && s in b.copied ensures s in files {
      var trail :| Trail(m, executable, modules, trail) && trail[|trail| - 1] == s;
      TrailStays(m, executable, modules, files, trail);
    }
  }

  lemma WholeNotFlawed(m: Machine, executable: string, modules: seq<string>, b: Bundle)
    requires Whole(m, executable, modules, b)
    ensures !Flawed(m, executable, modules)
  {
    hide NameOf, AtMost, Reachable, Dangles, Counted, Edits, Ran;
  }

  lemma HandledCloses(m: Machine, b: Bundle, a: string, place: Place, c: string)
    requires Handled(m, b, a, place) && Edge(m, a, c)
    ensures c in b.copied
  {
    hide Dangles, Counted, Edits, Ran;
    var i :| Follows(m, a, i, c);
  }

  /** All the executable and the modules need is copied once both are handled. */
  lemma AllCopied(m: Machine, executable: string, modules: seq<string>, b: Bundle)
    requires Sound(m, executable, modules, b) && Handled(m, b, executable, InPlace)
    requires forall s :: s in modules ==> s in b.copied
    requires forall s :: s in b.copied ==> Handled(m, b, s, InFrameworks(NameOf(s)))
    ensures Whole(m, executable, modules, b)
  {
    hide NameOf, AtMost, AsksFor, Handled, Edge;
    forall a, c | (a == executable || a in b.copied) && Edge(m, a, c) ensures c in b.copied {
      HandledCloses(m, b, a, if a == executable then InPlace else InFrameworks(NameOf(a)), c);
    }
    forall s | Reachable(m, executable, modules, s) ensures s in b.copied {
      var trail :| Trail(m, executable, modules, trail) && trail[|trail| - 1] == s;
      TrailStays(m, executable, modules, b.copied.Keys, trail);
    }
  }

  /** Makes the app whole, unless it is flawed. */
  method Relocate(m: Machine, executable: string, modules: seq<string>) returns (bundle: Option<Bundle>)
    requires forall name, a :: m.resolve(name, a).Some? ==> m.resolve(name, a).value in m.files
    requires forall s :: s in modules ==> s in m.files
    ensures bundle.None? <==> Flawed(m, executable, modules)
    ensures bundle.Some? ==> Whole(m, executable, modules, bundle.value)
  {
    hide NameOf, AtMost, Flawed, Handled, Sound, Reachable, ToolKept, Grows, NewHandled, Whole;
    var bundler := new Bundler(m, executable, modules);
    ghost var empty := bundler.Contents();
    var whole := bundler.Rewrite(executable, InPlace);
    if !whole {
      return None;
    }
    ghost var first := bundler.Contents();
    NothingYet(m, first);
    ToolSound(m, executable, modules, first, first.tool);
    var i := 0;
    while i < |modules|
      invariant 0 <= i <= |modules|
      invariant bundler.Valid() && Grows(first, bundler.Contents()) && NewHandled(m, first, bundler.Contents())
      invariant ToolKept(first, bundler.Contents(), first.sources.Keys, None)
      invariant forall j :: 0 <= j < i ==> modules[j] in bundler.copied
    {
      ghost var before := bundler.Contents();
      ModuleReachable(m, executable, modules, modules[i]);
      var copy := bundler.Copy(modules[i]);
      if copy.None? {
        return None;
      }
      CopyMore(m, executable, modules, first, before, bundler.Contents());
      i := i + 1;
    }
    bundle := Some(bundler.Contents());
    AllHandled(m, empty, first, bundle.value);
    AllCopied(m, executable, modules, bundle.value);
    WholeNotFlawed(m, executable, modules, bundle.value);
  }

  lemma AllHandled(m: Machine, empty: Bundle, first: Bundle, last: Bundle)
    requires empty.copied == map[] && Grows(first, last) && NewHandled(m, empty, first) && NewHandled(m, first, last)
    requires NamesSound(first) && ToolKept(first, last, first.sources.Keys, None)
    ensures forall s :: s in last.copied ==> Handled(m, last, s, InFrameworks(NameOf(s)))
    ensures forall a :: Handled(m, first, a, InPlace) ==> Handled(m, last, a, InPlace)
  {
    hide NameOf, AtMost, Handled, Ran;
    forall a | Handled(m, first, a, InPlace) ensures Handled(m, last, a, InPlace) {
      HandledStays(m, first, last, a, InPlace);
    }
    forall s | s in last.copied ensures Handled(m, last, s, InFrameworks(NameOf(s))) {
      if s in first.copied {
        HandledStays(m, first, last, s, InFrameworks(NameOf(s)));
      }
    }
  }
}
