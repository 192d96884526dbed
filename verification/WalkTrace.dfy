/** What a walk over a capability graph hands over, and where. */
module WalkTrace {
  import opened Basics
  import opened Sorting
  import opened Caps
  import opened Nodes

  /** The children of a directory node, as listing it gives them; the same on every listing. */
  type Listing = Node -> map<string, Node>

  /** `get_verify_cap` of a node: unknown and literal objects have none. */
  function Verifier(p: Primitives, n: Node): Option<Cap> {
    if n.Unknown? || !IsCreatable(n.cap) then None else VerifyCap(p, n.cap)
  }

  predicate IsLiteral(n: Node) {
    !n.Unknown? && n.cap.f.LIT?
  }

  function LiteralLength(n: Node): nat {
    if IsLiteral(n) then |n.cap.f.data| else 0
  }

  /**
   * A finite graph of nodes, closed under listing, in which a literal directory
   * inside a literal directory is shorter than it (its text is part of the
   * other's). Cycles through other directories are allowed.
   */
  ghost predicate IsGraph(g: Listing, all: set<Node>) {
    && (forall n :: n in all && !n.Unknown? ==> IsCreatable(n.cap))
    && (forall n, name :: n in all && IsDirectoryNode(n) && name in g(n) ==> g(n)[name] in all)
    && (forall n, name :: n in all && IsDirectoryNode(n) && name in g(n) ==> NestsShorter(n, g(n)[name]))
  }

  predicate NestsShorter(outer: Node, inner: Node) {
    IsDirectoryNode(outer) && IsLiteral(outer) && IsDirectoryNode(inner) && IsLiteral(inner) ==>
      LiteralLength(inner) < LiteralLength(outer)
  }

  /** Follow a path of names from a node. */
  function Resolve(g: Listing, n: Node, path: seq<string>): Option<Node>
    decreases |path|
  {
    if path == [] then Some(n)
    else if IsDirectoryNode(n) && path[0] in g(n) then Resolve(g, g(n)[path[0]], path[1..])
    else None
  }

  lemma {:induction false} ResolveStep(g: Listing, n: Node, path: seq<string>, name: string)
    ensures Resolve(g, n, path + [name]) ==
      match Resolve(g, n, path)
      case None => None
      case Some(d) => if IsDirectoryNode(d) && name in g(d) then Some(g(d)[name]) else None
    decreases |path|
  {
    if path == [] {
      assert [name][1..] == [];
    } else {
      assert (path + [name])[1..] == path[1..] + [name];
      if IsDirectoryNode(n) && path[0] in g(n) {
        ResolveStep(g, g(n)[path[0]], path[1..], name);
      }
    }
  }

  // ---- What the walker is told --------------------------------------------

  datatype Event = AddNode(node: Node, path: seq<string>) | EnterDirectory(node: Node)

  /** The verify caps of the nodes added, in order. */
  function Reported(p: Primitives, events: seq<Event>): seq<Cap> {
    if events == [] then []
    else Reported(p, events[..|events| - 1]) + ReportedBy(p, events[|events| - 1])
  }

  function ReportedBy(p: Primitives, event: Event): seq<Cap> {
    if event.AddNode? && Verifier(p, event.node).Some? then [Verifier(p, event.node).value] else []
  }

  lemma {:induction false} ReportedConcat(p: Primitives, a: seq<Event>, b: seq<Event>)
    ensures Reported(p, a + b) == Reported(p, a) + Reported(p, b)
    decreases |b|
  {
    if b == [] {
      assert a + b == a;
    } else {
      var front := b[..|b| - 1];
      assert (a + b)[..|a + b| - 1] == a + front;
      ReportedConcat(p, a, front);
    }
  }

  lemma ReportedOne(p: Primitives, event: Event)
    ensures Reported(p, [event]) == ReportedBy(p, event)
  {
    assert [event][..0] == [];
  }

  lemma {:induction false} ReportedHasEvent(p: Primitives, events: seq<Event>, v: Cap)
    requires v in Reported(p, events)
    ensures exists i :: 0 <= i < |events| && ReportedBy(p, events[i]) == [v]
    decreases |events|
  {
    var front := events[..|events| - 1];
    if v in Reported(p, front) {
      ReportedHasEvent(p, front, v);
      var i :| 0 <= i < |front| && ReportedBy(p, front[i]) == [v];
      assert events[i] == front[i];
    } else {
      assert ReportedBy(p, events[|events| - 1]) == [v];
    }
  }

  /** The verify caps in the `found` set, which also gets a None for literal objects. */
  function CapsIn(found: set<Option<Cap>>): set<Cap> {
    set o | o in found && o.Some? :: o.value
  }

  /** Every node is handed over under a path that leads to it from the root. */
  ghost predicate PathsResolve(g: Listing, root: Node, events: seq<Event>) {
    forall i :: 0 <= i < |events| && events[i].AddNode? ==> Resolve(g, root, events[i].path) == Some(events[i].node)
  }

  /** A child of a visited directory has been found, or, having no verify cap, has been handed over right here. */
  ghost predicate ChildSeen(p: Primitives, child: Node, path: seq<string>, found: set<Option<Cap>>, events: seq<Event>) {
    if Verifier(p, child).None? then AddNode(child, path) in events
    else Verifier(p, child) in found
  }

  ghost predicate ChildrenSeen(p: Primitives, g: Listing, d: Node, path: seq<string>, found: set<Option<Cap>>, events: seq<Event>) {
    forall name :: name in g(d) ==> ChildSeen(p, g(d)[name], path + [name], found, events)
  }

  /** Every directory handed over is entered at once, and all its children are accounted for. */
  ghost predicate DirectoriesDone(p: Primitives, g: Listing, found: set<Option<Cap>>, events: seq<Event>) {
    forall i :: 0 <= i < |events| && events[i].AddNode? && IsDirectoryNode(events[i].node) ==>
      && ChildrenSeen(p, g, events[i].node, events[i].path, found, events)
      && EnteredNext(events, i)
  }

  predicate EnteredNext(events: seq<Event>, i: nat)
    requires i < |events|
  {
    i + 1 < |events| && events[i + 1] == EnterDirectory(events[i].node)
  }

  // ---- Where things are handed over ---------------------------------------

  /** No two nodes are handed over under the same path. */
  ghost predicate DistinctPaths(events: seq<Event>) {
    forall i, j :: 0 <= i < j < |events| && events[i].AddNode? && events[j].AddNode? ==> events[i].path != events[j].path
  }

  ghost predicate HasPath(events: seq<Event>, path: seq<string>) {
    exists i :: 0 <= i < |events| && events[i].AddNode? && events[i].path == path
  }

  function Init(path: seq<string>): seq<string>
    requires path != []
  {
    path[..|path| - 1]
  }

  /** Strictly below `path`. */
  predicate Below(path: seq<string>, x: Event) {
    x.AddNode? && |path| < |x.path| && path <= x.path
  }

  /** The name under which `x` branches off `path`. */
  function Head(path: seq<string>, x: Event): string
    requires Below(path, x)
  {
    x.path[|path|]
  }

  /** Everything handed over lies below `path`, in a directory handed over too or at `path` itself. */
  ghost predicate Hangs(path: seq<string>, events: seq<Event>) {
    forall i :: 0 <= i < |events| && events[i].AddNode? ==>
      Below(path, events[i]) && (Init(events[i].path) == path || HasPath(events, Init(events[i].path)))
  }

  /** A child of the directory at `path`. */
  predicate IsKid(path: seq<string>, x: Event) {
    Below(path, x) && Init(x.path) == path
  }

  /** Of the children under `names`, those in `kids` are still to come, and nothing was handed over below them. */
  ghost predicate Apart(path: seq<string>, names: seq<string>, events: seq<Event>, kids: seq<Event>) {
    && DistinctPaths(events) && Hangs(path, events)
    && (forall i :: 0 <= i < |events| && events[i].AddNode? ==> Below(path, events[i]) && Head(path, events[i]) in names)
    && (forall k :: 0 <= k < |kids| ==> IsKid(path, kids[k]) && Head(path, kids[k]) in names)
    && (forall i, k :: 0 <= i < |events| && 0 <= k < |kids| && events[i].AddNode? ==> Head(path, events[i]) != Head(path, kids[k]))
    && (forall j, k :: 0 <= j < k < |kids| ==> Head(path, kids[j]) != Head(path, kids[k]))
  }

  lemma StartApart(path: seq<string>, parent: Node)
    ensures Apart(path, [], [EnterDirectory(parent)], [])
  {
  }

  lemma HangsConcat(path: seq<string>, e1: seq<Event>, e2: seq<Event>)
    requires Hangs(path, e1) && Hangs(path, e2)
    ensures Hangs(path, e1 + e2)
  {
    var e := e1 + e2;
    forall i | 0 <= i < |e| && e[i].AddNode?
      ensures Below(path, e[i]) && (Init(e[i].path) == path || HasPath(e, Init(e[i].path)))
    {
      if i < |e1| {
        assert Below(path, e1[i]);
        HasPathStill(e1, e2, Init(e1[i].path));
      } else {
        assert Below(path, e2[i - |e1|]);
        HasPathStill(e1, e2, Init(e2[i - |e1|].path));
      }
    }
  }

  lemma HasPathStill(e1: seq<Event>, e2: seq<Event>, path: seq<string>)
    ensures HasPath(e1, path) || HasPath(e2, path) ==> HasPath(e1 + e2, path)
  {
    if HasPath(e1, path) {
      var i :| 0 <= i < |e1| && e1[i].AddNode? && e1[i].path == path;
      assert (e1 + e2)[i] == e1[i];
    } else if HasPath(e2, path) {
      var i :| 0 <= i < |e2| && e2[i].AddNode? && e2[i].path == path;
      assert (e1 + e2)[|e1| + i] == e2[i];
    }
  }

  lemma DistinctConcat(path: seq<string>, e1: seq<Event>, e2: seq<Event>)
    requires DistinctPaths(e1) && DistinctPaths(e2)
    requires forall i :: 0 <= i < |e1| && e1[i].AddNode? ==> Below(path, e1[i])
    requires forall j :: 0 <= j < |e2| && e2[j].AddNode? ==> Below(path, e2[j])
    requires forall i, j :: 0 <= i < |e1| && 0 <= j < |e2| && e1[i].AddNode? && e2[j].AddNode? ==> Head(path, e1[i]) != Head(path, e2[j])
    ensures DistinctPaths(e1 + e2)
  {
    var e := e1 + e2;
    forall i, j | 0 <= i < j < |e| && e[i].AddNode? && e[j].AddNode?
      ensures e[i].path != e[j].path
    {
      if j < |e1| {
        assert e1[i].path != e1[j].path;
      } else if i >= |e1| {
        assert e2[i - |e1|].path != e2[j - |e1|].path;
      } else {
        assert Head(path, e1[i]) != Head(path, e2[j - |e1|]);
      }
    }
  }

  /** More is handed over, all of it below names of its own. */
  lemma ApartConcat(path: seq<string>, names: seq<string>, e1: seq<Event>, e2: seq<Event>, kids: seq<Event>)
    requires Apart(path, names, e1, kids) && DistinctPaths(e2) && Hangs(path, e2)
    requires forall j :: 0 <= j < |e2| && e2[j].AddNode? ==> Below(path, e2[j]) && Head(path, e2[j]) in names
    requires forall i, j :: 0 <= i < |e1| && 0 <= j < |e2| && e1[i].AddNode? && e2[j].AddNode? ==> Head(path, e1[i]) != Head(path, e2[j])
    requires forall j, k :: 0 <= j < |e2| && 0 <= k < |kids| && e2[j].AddNode? ==> Head(path, e2[j]) != Head(path, kids[k])
    ensures Apart(path, names, e1 + e2, kids)
  {
    HangsConcat(path, e1, e2);
    DistinctConcat(path, e1, e2);
    hide DistinctPaths, Hangs;
    var e := e1 + e2;
    forall i | 0 <= i < |e| && e[i].AddNode?
      ensures Below(path, e[i]) && Head(path, e[i]) in names
      ensures forall k :: 0 <= k < |kids| ==> Head(path, e[i]) != Head(path, kids[k])
    {
      assert e[i] == if i < |e1| then e1[i] else e2[i - |e1|];
    }
  }

  /** One more name is looked at and needs nothing. */
  lemma ApartSkip(path: seq<string>, names: seq<string>, events: seq<Event>, kids: seq<Event>, name: string)
    requires Apart(path, names, events, kids)
    ensures Apart(path, names + [name], events, kids)
  {
    hide DistinctPaths, Hangs;
  }

  lemma KidBelow(path: seq<string>, child: Node, name: string)
    ensures IsKid(path, AddNode(child, path + [name])) && Head(path, AddNode(child, path + [name])) == name
  {
    assert Init(path + [name]) == path;
  }

  lemma OneHangs(path: seq<string>, kid: Event)
    requires IsKid(path, kid)
    ensures DistinctPaths([kid]) && Hangs(path, [kid])
  {
  }

  /** One more child is handed over at once. */
  lemma ApartUnknown(path: seq<string>, names: seq<string>, events: seq<Event>, kids: seq<Event>, child: Node, name: string)
    requires Apart(path, names, events, kids) && name !in names
    ensures Apart(path, names + [name], events + [AddNode(child, path + [name])], kids)
  {
    var kid := AddNode(child, path + [name]);
    ApartSkip(path, names, events, kids, name);
    KidBelow(path, child, name);
    OneHangs(path, kid);
    NewHead(path, names, events, kids, name);
    hide Apart, DistinctPaths, Hangs;
    ApartConcat(path, names + [name], events, [kid], kids);
  }

  lemma NewHead(path: seq<string>, names: seq<string>, events: seq<Event>, kids: seq<Event>, name: string)
    requires Apart(path, names, events, kids) && name !in names
    ensures forall i :: 0 <= i < |events| && events[i].AddNode? ==> Below(path, events[i]) && Head(path, events[i]) != name
    ensures forall k :: 0 <= k < |kids| ==> Below(path, kids[k]) && Head(path, kids[k]) != name
  {
    hide DistinctPaths, Hangs;
  }

  /** The heads of some children stay different with a new one between them. */
  lemma OneMoreHead(path: seq<string>, before: seq<Event>, behind: seq<Event>, kid: Event)
    requires Below(path, kid) && forall k :: 0 <= k < |before + behind| ==> Below(path, (before + behind)[k])
    requires forall j, k :: 0 <= j < k < |before + behind| ==> Head(path, (before + behind)[j]) != Head(path, (before + behind)[k])
    requires forall k :: 0 <= k < |before + behind| ==> Head(path, (before + behind)[k]) != Head(path, kid)
    ensures forall k :: 0 <= k < |before + [kid] + behind| ==> Below(path, (before + [kid] + behind)[k])
    ensures forall j, k :: 0 <= j < k < |before + [kid] + behind| ==>
      Head(path, (before + [kid] + behind)[j]) != Head(path, (before + [kid] + behind)[k])
  {
    hide Below, Head;
    var others, kids := before + behind, before + [kid] + behind;
    forall k | 0 <= k < |kids|
      ensures kids[k] == if k < |before| then others[k] else if k == |before| then kid else others[k - 1]
      ensures Below(path, kids[k])
    {
    }
    forall j, k | 0 <= j < k < |kids|
      ensures Head(path, kids[j]) != Head(path, kids[k])
    {
      if j == |before| {
        assert Head(path, others[k - 1]) != Head(path, kid);
      } else if k == |before| {
        assert Head(path, others[j]) != Head(path, kid);
      } else {
        var j', k' := if j < |before| then j else j - 1, if k < |before| then k else k - 1;
        assert Head(path, others[j']) != Head(path, others[k']);
      }
    }
  }

  /** One more child is kept for later, behind some of the others. */
  lemma ApartKid(path: seq<string>, names: seq<string>, events: seq<Event>, before: seq<Event>, behind: seq<Event>, child: Node, name: string)
    requires Apart(path, names, events, before + behind) && name !in names
    ensures Apart(path, names + [name], events, before + [AddNode(child, path + [name])] + behind)
  {
    hide DistinctPaths, Hangs, Below, Head, IsKid;
    var kid := AddNode(child, path + [name]);
    var others, kids := before + behind, before + [kid] + behind;
    KidBelow(path, child, name);
    KidsAreBelow(path, others);
    KidsAreBelow(path, [kid]);
    assert [kid][0] == kid;
    NewHead(path, names, events, others, name);
    OneMoreHead(path, before, behind, kid);
    forall k | 0 <= k < |kids|
      ensures IsKid(path, kids[k]) && Head(path, kids[k]) in names + [name]
      ensures forall i :: 0 <= i < |events| && events[i].AddNode? ==> Head(path, events[i]) != Head(path, kids[k])
    {
      assert kids[k] == if k < |before| then others[k] else if k == |before| then kid else others[k - 1];
    }
  }

  lemma KidsAreBelow(path: seq<string>, kids: seq<Event>)
    ensures forall k :: 0 <= k < |kids| && IsKid(path, kids[k]) ==> Below(path, kids[k])
  {
  }

  /** The next child is handed over, with everything below it. */
  lemma ApartNext(path: seq<string>, names: seq<string>, events: seq<Event>, kids: seq<Event>, more: seq<Event>)
    requires Apart(path, names, events, kids) && kids != []
    requires DistinctPaths(more) && WalksFrom(kids[0].path, more)
    ensures Apart(path, names, events + more, kids[1..])
  {
    var kid := kids[0];
    forall j | 0 <= j < |more| && more[j].AddNode?
      ensures Below(path, more[j]) && Head(path, more[j]) == Head(path, kid)
      ensures Init(more[j].path) == path || HasPath(more, Init(more[j].path))
    {
      assert more[j].path == kid.path || Below(kid.path, more[j]);
    }
    hide DistinctPaths, HasPath;
    ApartConcat(path, names, events, more, kids[1..]);
  }

  lemma ApartHangs(path: seq<string>, names: seq<string>, events: seq<Event>, kids: seq<Event>)
    requires Apart(path, names, events, kids)
    ensures Hangs(path, events) && DistinctPaths(events)
  {
  }

  lemma OneWalks(kid: Event)
    requires kid.AddNode?
    ensures DistinctPaths([kid]) && WalksFrom(kid.path, [kid])
  {
  }

  lemma NotListedBefore(names: seq<string>, i: nat)
    requires Increasing(names) && i < |names|
    ensures names[i] !in names[..i]
  {
    forall j | 0 <= j < i
      ensures names[..i][j] != names[i]
    {
      assert LexLess(names[j], names[i]);
    }
  }

  /** Everything handed over lies at or below `path`, in a directory handed over too unless it is at `path` itself. */
  ghost predicate WalksFrom(path: seq<string>, events: seq<Event>) {
    forall i :: 0 <= i < |events| && events[i].AddNode? ==>
      events[i].path == path || (Below(path, events[i]) && HasPath(events, Init(events[i].path)))
  }

  /** A directory itself and what hangs below it. */
  lemma WalksFromHere(node: Node, path: seq<string>, events: seq<Event>)
    requires Hangs(path, events) && DistinctPaths(events)
    ensures WalksFrom(path, [AddNode(node, path)] + events) && DistinctPaths([AddNode(node, path)] + events)
  {
    var first := AddNode(node, path);
    var e := [first] + events;
    assert HasPath(e, path) by { assert e[0] == first; }
    forall i | 0 <= i < |e| && e[i].AddNode?
      ensures e[i].path == path || (Below(path, e[i]) && HasPath(e, Init(e[i].path)))
    {
      if i > 0 {
        assert Below(path, events[i - 1]);
        HasPathStill([first], events, Init(events[i - 1].path));
      }
    }
    forall i, j | 0 <= i < j < |e| && e[i].AddNode? && e[j].AddNode?
      ensures e[i].path != e[j].path
    {
      assert e[j] == events[j - 1];
      if i == 0 {
        assert Below(path, events[j - 1]);
      } else {
        assert events[i - 1].path != events[j - 1].path;
      }
    }
  }

  // ---- Two links to one object --------------------------------------------

  /** Two names in a directory for one object with a verify cap. */
  ghost predicate SameTarget(p: Primitives, g: Listing, d: Node, n1: string, n2: string) {
    n1 in g(d) && n2 in g(d) && Verifier(p, g(d)[n1]).Some? && Verifier(p, g(d)[n1]) == Verifier(p, g(d)[n2])
  }

  /** Nothing is handed over at or below that name. */
  ghost predicate NoneAt(path: seq<string>, name: string, events: seq<Event>) {
    forall i :: 0 <= i < |events| && Below(path, events[i]) ==> Head(path, events[i]) != name
  }

  /** Of two names for one object the second is not followed. */
  ghost predicate SecondSkipped(p: Primitives, g: Listing, d: Node, path: seq<string>, events: seq<Event>) {
    forall n1, n2 :: SameTarget(p, g, d, n1, n2) && LexLess(n1, n2) ==> NoneAt(path, n2, events)
  }

  /** That is so in every directory handed over. */
  ghost predicate FirstWins(p: Primitives, g: Listing, events: seq<Event>) {
    forall i :: 0 <= i < |events| && events[i].AddNode? && IsDirectoryNode(events[i].node) ==>
      SecondSkipped(p, g, events[i].node, events[i].path, events)
  }

  /** The same for names that are listed in order. */
  ghost predicate NotTwice(p: Primitives, g: Listing, d: Node, path: seq<string>, names: seq<string>, xs: seq<Event>) {
    forall j, k :: 0 <= j < k < |names| && SameTarget(p, g, d, names[j], names[k]) ==> NoneAt(path, names[k], xs)
  }

  /** One more name is looked at: it is not followed, or no name before it is for the same object. */
  lemma NotTwiceStep(p: Primitives, g: Listing, d: Node, path: seq<string>, names: seq<string>, xs: seq<Event>, name: string, xs': seq<Event>)
    requires NotTwice(p, g, d, path, names, xs) && name !in names
    requires forall x :: x in xs' && Below(path, x) ==> x in xs || Head(path, x) == name
    requires NoneAt(path, name, xs') || forall j :: 0 <= j < |names| ==> !SameTarget(p, g, d, names[j], name)
    ensures NotTwice(p, g, d, path, names + [name], xs')
  {
    hide SameTarget, Below, Head;
    var all := names + [name];
    forall j, k | 0 <= j < k < |all| && SameTarget(p, g, d, all[j], all[k])
      ensures NoneAt(path, all[k], xs')
    {
      if k < |names| {
        assert NoneAt(path, names[k], xs);
        NoneAtFewer(path, names[k], xs, name, xs');
      }
    }
  }

  lemma NoneAtFewer(path: seq<string>, n: string, xs: seq<Event>, name: string, xs': seq<Event>)
    requires NoneAt(path, n, xs) && n != name
    requires forall x :: x in xs' && Below(path, x) ==> x in xs || Head(path, x) == name
    ensures NoneAt(path, n, xs')
  {
    hide Below, Head;
    forall i | 0 <= i < |xs'| && Below(path, xs'[i])
      ensures Head(path, xs'[i]) != n
    {
      assert xs'[i] in xs';
    }
  }

  /** The next child is handed over with what is below it: no new names appear. */
  lemma NotTwiceNext(p: Primitives, g: Listing, d: Node, path: seq<string>, names: seq<string>, events: seq<Event>, kids: seq<Event>, more: seq<Event>)
    requires NotTwice(p, g, d, path, names, events + kids) && Apart(path, names, events, kids) && kids != []
    requires WalksFrom(kids[0].path, more)
    ensures NotTwice(p, g, d, path, names, events + more + kids[1..])
  {
    var xs, xs' := events + kids, events + more + kids[1..];
    assert xs[|events|] == kids[0];
    NextHeads(path, kids[0], more);
    hide SameTarget, Below, Head, Apart, WalksFrom;
    forall j, k | 0 <= j < k < |names| && SameTarget(p, g, d, names[j], names[k])
      ensures NoneAt(path, names[k], xs')
    {
      assert NoneAt(path, names[k], xs);
      assert Head(path, xs[|events|]) != names[k];
      forall i | 0 <= i < |xs'| && Below(path, xs'[i])
        ensures Head(path, xs'[i]) != names[k]
      {
        if i < |events| {
          assert xs'[i] == xs[i];
        } else if i < |events| + |more| {
          assert xs'[i] == more[i - |events|];
        } else {
          assert xs'[i] == xs[i - |more| + 1];
        }
      }
    }
  }

  lemma NextHeads(path: seq<string>, kid: Event, more: seq<Event>)
    requires IsKid(path, kid) && WalksFrom(kid.path, more)
    ensures Below(path, kid)
    ensures forall j :: 0 <= j < |more| && Below(path, more[j]) ==> Head(path, more[j]) == Head(path, kid)
  {
    forall j | 0 <= j < |more| && Below(path, more[j])
      ensures Head(path, more[j]) == Head(path, kid)
    {
      assert more[j].path == kid.path || Below(kid.path, more[j]);
    }
  }

  /** Once all names are listed in order, of any two for one object the second is skipped. */
  lemma NotTwiceSkips(p: Primitives, g: Listing, d: Node, path: seq<string>, names: seq<string>, xs: seq<Event>)
    requires NotTwice(p, g, d, path, names, xs) && IsSortedListing(names, g(d).Keys)
    ensures SecondSkipped(p, g, d, path, xs)
  {
    hide NoneAt, LexLeq;
    forall n1, n2 | SameTarget(p, g, d, n1, n2) && LexLess(n1, n2)
      ensures NoneAt(path, n2, xs)
    {
      assert n1 in names && n2 in names;
      var j :| 0 <= j < |names| && names[j] == n1;
      var k :| 0 <= k < |names| && names[k] == n2;
      LexTotal(n1, n2);
      assert names[k] == n2 && names[j] == n1;
    }
  }

  lemma FirstWinsConcat(p: Primitives, g: Listing, path: seq<string>, e1: seq<Event>, e2: seq<Event>)
    requires FirstWins(p, g, e1) && FirstWins(p, g, e2)
    requires forall i :: 0 <= i < |e1| && e1[i].AddNode? ==> Below(path, e1[i])
    requires forall j :: 0 <= j < |e2| && e2[j].AddNode? ==> Below(path, e2[j])
    requires forall i, j :: 0 <= i < |e1| && 0 <= j < |e2| && e1[i].AddNode? && e2[j].AddNode? ==> Head(path, e1[i]) != Head(path, e2[j])
    ensures FirstWins(p, g, e1 + e2)
  {
    hide SameTarget;
    var e := e1 + e2;
    forall i | 0 <= i < |e| && e[i].AddNode? && IsDirectoryNode(e[i].node)
      ensures SecondSkipped(p, g, e[i].node, e[i].path, e)
    {
      var q := e[i].path;
      if i < |e1| {
        NotBelowOther(path, e1[i], e2);
        SkippedStill(p, g, e[i].node, q, e1, e2);
      } else {
        NotBelowOther(path, e2[i - |e1|], e1);
        SkippedStill(p, g, e[i].node, q, e1, e2);
      }
    }
  }

  /** What branches off under another name is not below. */
  lemma NotBelowOther(path: seq<string>, x: Event, others: seq<Event>)
    requires Below(path, x)
    requires forall j :: 0 <= j < |others| && others[j].AddNode? ==> Below(path, others[j]) && Head(path, others[j]) != Head(path, x)
    ensures forall j :: 0 <= j < |others| ==> !Below(x.path, others[j])
  {
  }

  lemma SkippedStill(p: Primitives, g: Listing, d: Node, q: seq<string>, e1: seq<Event>, e2: seq<Event>)
    requires || (SecondSkipped(p, g, d, q, e1) && forall j :: 0 <= j < |e2| ==> !Below(q, e2[j]))
             || (SecondSkipped(p, g, d, q, e2) && forall j :: 0 <= j < |e1| ==> !Below(q, e1[j]))
    ensures SecondSkipped(p, g, d, q, e1 + e2)
  {
    hide SameTarget, Below, Head, LexLess;
    var e := e1 + e2;
    forall n1, n2 | SameTarget(p, g, d, n1, n2) && LexLess(n1, n2)
      ensures NoneAt(q, n2, e)
    {
      assert NoneAt(q, n2, e1) || NoneAt(q, n2, e2);
      forall i | 0 <= i < |e| && Below(q, e[i])
        ensures Head(q, e[i]) != n2
      {
        assert e[i] == if i < |e1| then e1[i] else e2[i - |e1|];
      }
    }
  }

  lemma FirstWinsHere(p: Primitives, g: Listing, node: Node, path: seq<string>, events: seq<Event>)
    requires FirstWins(p, g, events) && SecondSkipped(p, g, node, path, events) && Hangs(path, events)
    ensures FirstWins(p, g, [AddNode(node, path)] + events)
  {
    hide SameTarget, SecondSkipped;
    var first := AddNode(node, path);
    var e := [first] + events;
    forall i | 0 <= i < |e| && e[i].AddNode? && IsDirectoryNode(e[i].node)
      ensures SecondSkipped(p, g, e[i].node, e[i].path, e)
    {
      if i > 0 {
        assert Below(path, events[i - 1]);
      }
      assert !Below(e[i].path, first);
      SkippedStill(p, g, e[i].node, e[i].path, [first], events);
    }
  }

  /** Handing over the next child with what is below it. */
  lemma FirstWinsNext(p: Primitives, g: Listing, path: seq<string>, names: seq<string>, events: seq<Event>, kids: seq<Event>, more: seq<Event>)
    requires FirstWins(p, g, events) && FirstWins(p, g, more) && Apart(path, names, events, kids) && kids != []
    requires WalksFrom(kids[0].path, more)
    ensures FirstWins(p, g, events + more)
  {
    NextHeads(path, kids[0], more);
    forall j | 0 <= j < |more| && more[j].AddNode?
      ensures Below(path, more[j])
    {
      assert more[j].path == kids[0].path || Below(kids[0].path, more[j]);
    }
    hide FirstWins, WalksFrom, HasPath;
    FirstWinsConcat(p, g, path, events, more);
  }

  lemma NoDirectoryWins(p: Primitives, g: Listing, events: seq<Event>)
    requires forall i :: 0 <= i < |events| && events[i].AddNode? ==> !IsDirectoryNode(events[i].node)
    ensures FirstWins(p, g, events)
  {
  }

  /** Only unknown nodes have been handed over. */
  ghost predicate AllUnknown(events: seq<Event>) {
    forall i :: 0 <= i < |events| && events[i].AddNode? ==> events[i].node.Unknown?
  }

  lemma UnknownsWin(p: Primitives, g: Listing, events: seq<Event>)
    requires AllUnknown(events)
    ensures FirstWins(p, g, events)
  {
  }

  lemma UnknownHasNone(p: Primitives, n: Node)
    requires n.Unknown?
    ensures Verifier(p, n).None? && !IsDirectoryNode(n)
  {
  }
}
