/** In which order a walk hands things over, and under which of several links. */
module WalkOrder {
  import opened Basics
  import opened Sorting
  import opened Caps
  import opened Nodes
  import opened WalkTrace

  // ---- The order of the children of one directory -------------------------

  /** Unknown children come first, then files, then directories. */
  function Rank(n: Node): nat {
    if n.Unknown? then 0 else if IsDirectoryNode(n) then 2 else 1
  }

  /** The child under `n1` comes before the one under `n2`: by rank, then by name. */
  predicate ComesFirst(g: Listing, d: Node, n1: string, n2: string) {
    && n1 in g(d) && n2 in g(d)
    && (Rank(g(d)[n1]) < Rank(g(d)[n2]) || (Rank(g(d)[n1]) == Rank(g(d)[n2]) && LexLess(n1, n2)))
  }

  /** Everything at or below one child of `d` comes before everything at or below the next. */
  ghost predicate InOrder(g: Listing, d: Node, path: seq<string>, xs: seq<Event>) {
    forall a, b :: 0 <= a < b < |xs| && Below(path, xs[a]) && Below(path, xs[b]) ==>
      Head(path, xs[a]) == Head(path, xs[b]) || ComesFirst(g, d, Head(path, xs[a]), Head(path, xs[b]))
  }

  /** What is below a directory comes after it. */
  ghost predicate NoneBefore(events: seq<Event>, i: nat)
    requires i < |events| && events[i].AddNode?
  {
    forall a :: 0 <= a < i ==> !Below(events[i].path, events[a])
  }

  /** That is so in every directory handed over. */
  ghost predicate Ordered(g: Listing, events: seq<Event>) {
    forall i :: 0 <= i < |events| && events[i].AddNode? && IsDirectoryNode(events[i].node) ==>
      InOrder(g, events[i].node, events[i].path, events) && NoneBefore(events, i)
  }

  // ---- Sorting the children -----------------------------------------------

  /** What is below `path` is under some of these names, all of one rank. */
  ghost predicate AllRanked(g: Listing, d: Node, path: seq<string>, names: seq<string>, xs: seq<Event>, rank: nat) {
    forall i :: 0 <= i < |xs| && Below(path, xs[i]) ==>
      Head(path, xs[i]) in names && Head(path, xs[i]) in g(d) && Rank(g(d)[Head(path, xs[i])]) == rank
  }

  /** The children looked at so far, in the order in which they will be handed over. */
  ghost predicate Queued(g: Listing, d: Node, path: seq<string>, names: seq<string>, events: seq<Event>, files: seq<Event>, dirs: seq<Event>) {
    && InOrder(g, d, path, events + (files + dirs))
    && AllRanked(g, d, path, names, events, 0) && AllRanked(g, d, path, names, files, 1) && AllRanked(g, d, path, names, dirs, 2)
  }

  lemma StartQueued(g: Listing, d: Node, path: seq<string>)
    ensures Queued(g, d, path, [], [EnterDirectory(d)], [], []) && AllUnknown([EnterDirectory(d)])
  {
  }

  lemma RankedLonger(g: Listing, d: Node, path: seq<string>, names: seq<string>, xs: seq<Event>, rank: nat, name: string)
    requires AllRanked(g, d, path, names, xs, rank)
    ensures AllRanked(g, d, path, names + [name], xs, rank)
  {
    hide Below, Head;
  }

  lemma RankedMore(g: Listing, d: Node, path: seq<string>, names: seq<string>, xs: seq<Event>, name: string)
    requires name in g(d) && AllRanked(g, d, path, names, xs, Rank(g(d)[name]))
    ensures AllRanked(g, d, path, names + [name], xs + [AddNode(g(d)[name], path + [name])], Rank(g(d)[name]))
  {
    KidBelow(path, g(d)[name], name);
    hide Below, Head, Rank;
    var kid := AddNode(g(d)[name], path + [name]);
    forall i | 0 <= i < |xs + [kid]| && Below(path, (xs + [kid])[i])
      ensures Head(path, (xs + [kid])[i]) in names + [name] && Head(path, (xs + [kid])[i]) in g(d)
      ensures Rank(g(d)[Head(path, (xs + [kid])[i])]) == Rank(g(d)[name])
    {
      assert (xs + [kid])[i] == if i < |xs| then xs[i] else kid;
    }
  }

  /** A name behind all those looked at so far. */
  ghost predicate IsNext(names: seq<string>, name: string) {
    forall n :: n in names ==> LexLess(n, name)
  }

  lemma NextListed(names: seq<string>, i: nat)
    requires Increasing(names) && i < |names|
    ensures IsNext(names[..i], names[i])
  {
    hide LexLess;
  }

  /** One more child takes its place behind some and before others. */
  lemma InOrderInsert(g: Listing, d: Node, path: seq<string>, before: seq<Event>, behind: seq<Event>, name: string)
    requires InOrder(g, d, path, before + behind) && name in g(d)
    requires forall i :: 0 <= i < |before| && Below(path, before[i]) ==> ComesFirst(g, d, Head(path, before[i]), name)
    requires forall i :: 0 <= i < |behind| && Below(path, behind[i]) ==> ComesFirst(g, d, name, Head(path, behind[i]))
    ensures InOrder(g, d, path, before + [AddNode(g(d)[name], path + [name])] + behind)
  {
    KidBelow(path, g(d)[name], name);
    hide Below, Head, ComesFirst;
    var kid := AddNode(g(d)[name], path + [name]);
    var xs, ys := before + behind, before + [kid] + behind;
    forall a, b | 0 <= a < b < |ys| && Below(path, ys[a]) && Below(path, ys[b])
      ensures Head(path, ys[a]) == Head(path, ys[b]) || ComesFirst(g, d, Head(path, ys[a]), Head(path, ys[b]))
    {
      var k := |before|;
      if a == k {
        assert ys[b] == behind[b - k - 1];
      } else if b == k {
        assert ys[a] == before[a];
      } else {
        assert ys[a] == xs[if a < k then a else a - 1] && ys[b] == xs[if b < k then b else b - 1];
      }
    }
  }

  lemma QueuedSkip(g: Listing, d: Node, path: seq<string>, names: seq<string>, events: seq<Event>, files: seq<Event>, dirs: seq<Event>, name: string)
    requires Queued(g, d, path, names, events, files, dirs)
    ensures Queued(g, d, path, names + [name], events, files, dirs)
  {
    hide InOrder, AllRanked;
    RankedLonger(g, d, path, names, events, 0, name);
    RankedLonger(g, d, path, names, files, 1, name);
    RankedLonger(g, d, path, names, dirs, 2, name);
  }

  lemma QueuedUnknown(g: Listing, d: Node, path: seq<string>, names: seq<string>, events: seq<Event>, files: seq<Event>, dirs: seq<Event>, name: string)
    requires Queued(g, d, path, names, events, files, dirs) && IsNext(names, name) && name in g(d) && g(d)[name].Unknown?
    requires AllUnknown(events)
    ensures var kid := AddNode(g(d)[name], path + [name]);
      Queued(g, d, path, names + [name], events + [kid], files, dirs) && AllUnknown(events + [kid])
  {
    hide InOrder, Below, Head;
    var kid := AddNode(g(d)[name], path + [name]);
    InOrderInsert(g, d, path, events, files + dirs, name);
    assert events + [kid] + (files + dirs) == (events + [kid]) + (files + dirs);
    RankedMore(g, d, path, names, events, name);
    RankedLonger(g, d, path, names, files, 1, name);
    RankedLonger(g, d, path, names, dirs, 2, name);
  }

  lemma QueuedKid(g: Listing, d: Node, path: seq<string>, names: seq<string>, events: seq<Event>, files: seq<Event>, dirs: seq<Event>, name: string)
    requires Queued(g, d, path, names, events, files, dirs) && IsNext(names, name) && name in g(d) && !g(d)[name].Unknown?
    ensures var kid := AddNode(g(d)[name], path + [name]);
      if IsDirectoryNode(g(d)[name]) then Queued(g, d, path, names + [name], events, files, dirs + [kid])
      else Queued(g, d, path, names + [name], events, files + [kid], dirs)
  {
    hide InOrder, Below, Head, IsDirectoryNode;
    var kid := AddNode(g(d)[name], path + [name]);
    RankedLonger(g, d, path, names, events, 0, name);
    RankedLonger(g, d, path, names, files, 1, name);
    RankedLonger(g, d, path, names, dirs, 2, name);
    if IsDirectoryNode(g(d)[name]) {
      var all := events + (files + dirs);
      assert all + [] == all && all + [kid] + [] == events + (files + (dirs + [kid]));
      forall i | 0 <= i < |all| && Below(path, all[i])
        ensures ComesFirst(g, d, Head(path, all[i]), name)
      {
        assert all[i] == if i < |events| then events[i] else if i < |events| + |files| then files[i - |events|] else dirs[i - |events| - |files|];
      }
      InOrderInsert(g, d, path, all, [], name);
      RankedMore(g, d, path, names, dirs, name);
    } else {
      var front := events + files;
      assert front + dirs == events + (files + dirs) && front + [kid] + dirs == events + (files + [kid] + dirs);
      forall i | 0 <= i < |front| && Below(path, front[i])
        ensures ComesFirst(g, d, Head(path, front[i]), name)
      {
        assert front[i] == if i < |events| then events[i] else files[i - |events|];
      }
      InOrderInsert(g, d, path, front, dirs, name);
      RankedMore(g, d, path, names, files, name);
    }
  }

  // ---- Which of several links counts --------------------------------------

  ghost predicate LinksTo(p: Primitives, g: Listing, d: Node, v: Cap) {
    exists n :: n in g(d) && Verifier(p, g(d)[n]) == Some(v)
  }

  /** `events[x]` is not in the directory `events[k]`, or that directory is not behind `events[j]` if the latter links to it too. */
  ghost predicate NotLater(p: Primitives, g: Listing, events: seq<Event>, x: nat, j: nat, k: nat)
    requires x < |events| && j < |events| && k < |events|
  {
    && events[x].AddNode? && events[x].path != [] && Verifier(p, events[x].node).Some?
    && events[j].AddNode? && IsDirectoryNode(events[j].node) && LinksTo(p, g, events[j].node, Verifier(p, events[x].node).value)
    && events[k].AddNode? && events[k].path == Init(events[x].path)
    ==> k <= j
  }

  /** An object is handed over in a directory that comes no later than any other that links to it. */
  ghost predicate Earliest(p: Primitives, g: Listing, events: seq<Event>) {
    forall x, j, k :: 0 <= x < |events| && 0 <= j < |events| && 0 <= k < |events| ==> NotLater(p, g, events, x, j, k)
  }

  /** Not found before. */
  predicate IsFresh(p: Primitives, f: set<Option<Cap>>, x: Event) {
    x.AddNode? && Verifier(p, x.node).Some? ==> Verifier(p, x.node) !in f
  }

  /** What is handed over below `path` was not found before. */
  ghost predicate FreshBelow(p: Primitives, path: seq<string>, f: set<Option<Cap>>, events: seq<Event>) {
    forall i :: 0 <= i < |events| && Below(path, events[i]) ==> IsFresh(p, f, events[i])
  }

  /** The children of `d` have been found. */
  ghost predicate ParentSeen(p: Primitives, g: Listing, d: Node, f: set<Option<Cap>>) {
    forall n :: n in g(d) && Verifier(p, g(d)[n]).Some? ==> Verifier(p, g(d)[n]) in f
  }

  /** Nothing that `d` links to is handed over deeper than its children. */
  ghost predicate NoneDeeper(p: Primitives, g: Listing, d: Node, path: seq<string>, events: seq<Event>) {
    forall i :: 0 <= i < |events| && Below(path, events[i]) && Init(events[i].path) != path && Verifier(p, events[i].node).Some? ==>
      !LinksTo(p, g, d, Verifier(p, events[i].node).value)
  }

  /** What is true of the part of a walk at and below `path`. */
  ghost predicate WellOrdered(p: Primitives, g: Listing, path: seq<string>, f0: set<Option<Cap>>, events: seq<Event>) {
    Ordered(g, events) && Earliest(p, g, events) && FreshBelow(p, path, f0, events)
  }

  /** What is true of the part of a walk below the directory `d` when `kids` are still to come. */
  ghost predicate Lined(p: Primitives, g: Listing, d: Node, path: seq<string>, f0: set<Option<Cap>>, events: seq<Event>, kids: seq<Event>) {
    && InOrder(g, d, path, events + kids)
    && WellOrdered(p, g, path, f0, events) && NoneDeeper(p, g, d, path, events)
  }

  // ---- Handing over the next child ----------------------------------------

  /** All of `more` lies under the name of `kid`. */
  lemma InOrderExpand(g: Listing, d: Node, path: seq<string>, events: seq<Event>, kids: seq<Event>, more: seq<Event>)
    requires InOrder(g, d, path, events + kids) && kids != [] && IsKid(path, kids[0]) && WalksFrom(kids[0].path, more)
    ensures InOrder(g, d, path, events + more + kids[1..])
  {
    NextHeads(path, kids[0], more);
    hide Below, Head, ComesFirst, IsKid, WalksFrom;
    var xs, ys := events + kids, events + more + kids[1..];
    var k, m := |events|, |more|;
    assert xs[k] == kids[0];
    forall i | 0 <= i < |ys|
      ensures i < k ==> ys[i] == xs[i]
      ensures k <= i < k + m ==> ys[i] == more[i - k]
      ensures k + m <= i ==> ys[i] == xs[i - m + 1]
    {
    }
    forall a, b | 0 <= a < b < |ys| && Below(path, ys[a]) && Below(path, ys[b])
      ensures Head(path, ys[a]) == Head(path, ys[b]) || ComesFirst(g, d, Head(path, ys[a]), Head(path, ys[b]))
    {
      var a' := if a < k then a else if a < k + m then k else a - m + 1;
      var b' := if b < k then b else if b < k + m then k else b - m + 1;
      assert Below(path, xs[a']) && Head(path, xs[a']) == Head(path, ys[a]);
      assert Below(path, xs[b']) && Head(path, xs[b']) == Head(path, ys[b]);
    }
  }

  /** Two parts of a walk below different names of one directory. */
  ghost predicate Branches(path: seq<string>, e1: seq<Event>, e2: seq<Event>) {
    && (forall i :: 0 <= i < |e1| && e1[i].AddNode? ==> Below(path, e1[i]))
    && (forall j :: 0 <= j < |e2| && e2[j].AddNode? ==> Below(path, e2[j]))
    && (forall i, j :: 0 <= i < |e1| && 0 <= j < |e2| && e1[i].AddNode? && e2[j].AddNode? ==> Head(path, e1[i]) != Head(path, e2[j]))
  }

  lemma NextBranches(path: seq<string>, names: seq<string>, events: seq<Event>, kids: seq<Event>, more: seq<Event>)
    requires Apart(path, names, events, kids) && kids != [] && WalksFrom(kids[0].path, more)
    ensures Branches(path, events, more)
  {
    hide DistinctPaths, Hangs, HasPath;
    NextHeads(path, kids[0], more);
    forall j | 0 <= j < |more| && more[j].AddNode?
      ensures Below(path, more[j])
    {
      assert more[j].path == kids[0].path || Below(kids[0].path, more[j]);
    }
  }

  /** Order is not disturbed by what is not below. */
  lemma InOrderConcat(g: Listing, d: Node, q: seq<string>, e1: seq<Event>, e2: seq<Event>)
    requires || (InOrder(g, d, q, e1) && forall j :: 0 <= j < |e2| ==> !Below(q, e2[j]))
             || (InOrder(g, d, q, e2) && forall j :: 0 <= j < |e1| ==> !Below(q, e1[j]))
    ensures InOrder(g, d, q, e1 + e2)
  {
    hide Below, Head, ComesFirst;
    var e, k := e1 + e2, |e1|;
    forall a, b | 0 <= a < b < |e| && Below(q, e[a]) && Below(q, e[b])
      ensures Head(q, e[a]) == Head(q, e[b]) || ComesFirst(g, d, Head(q, e[a]), Head(q, e[b]))
    {
      assert e[a] == if a < k then e1[a] else e2[a - k];
      assert e[b] == if b < k then e1[b] else e2[b - k];
    }
  }

  lemma OrderedConcat(g: Listing, path: seq<string>, e1: seq<Event>, e2: seq<Event>)
    requires Ordered(g, e1) && Ordered(g, e2) && Branches(path, e1, e2)
    ensures Ordered(g, e1 + e2)
  {
    hide ComesFirst, InOrder;
    var e, k := e1 + e2, |e1|;
    forall i | 0 <= i < |e| && e[i].AddNode? && IsDirectoryNode(e[i].node)
      ensures InOrder(g, e[i].node, e[i].path, e) && NoneBefore(e, i)
    {
      if i < k {
        NotBelowOther(path, e1[i], e2);
        InOrderConcat(g, e[i].node, e[i].path, e1, e2);
        assert NoneBefore(e1, i);
      } else {
        NotBelowOther(path, e2[i - k], e1);
        InOrderConcat(g, e[i].node, e[i].path, e1, e2);
        assert NoneBefore(e2, i - k);
        forall a | 0 <= a < i
          ensures !Below(e[i].path, e[a])
        {
          assert e[a] == if a < k then e1[a] else e2[a - k];
        }
      }
    }
  }

  /** A directory before everything below it. */
  lemma OrderedHere(g: Listing, node: Node, path: seq<string>, events: seq<Event>)
    requires Ordered(g, events) && InOrder(g, node, path, events) && Hangs(path, events)
    ensures Ordered(g, [AddNode(node, path)] + events)
  {
    hide ComesFirst, InOrder, HasPath;
    var first := AddNode(node, path);
    var e := [first] + events;
    forall i | 0 <= i < |e| && e[i].AddNode? && IsDirectoryNode(e[i].node)
      ensures InOrder(g, e[i].node, e[i].path, e) && NoneBefore(e, i)
    {
      if i > 0 {
        assert Below(path, events[i - 1]);
      }
      assert !Below(e[i].path, first);
      InOrderConcat(g, e[i].node, e[i].path, [first], events);
      if i > 0 {
        assert NoneBefore(events, i - 1);
        forall a | 0 <= a < i
          ensures !Below(e[i].path, e[a])
        {
          assert e[a] == if a == 0 then first else events[a - 1];
        }
      }
    }
  }

  // ---- The directory that counts ------------------------------------------

  lemma DoneNotFresh(p: Primitives, g: Listing, f: set<Option<Cap>>, events: seq<Event>, j: nat, v: Cap)
    requires DirectoriesDone(p, g, f, events) && j < |events| && events[j].AddNode? && IsDirectoryNode(events[j].node)
    requires LinksTo(p, g, events[j].node, v)
    ensures Some(v) in f
  {
    hide Verifier;
    var d := events[j].node;
    var n :| n in g(d) && Verifier(p, g(d)[n]) == Some(v);
    assert ChildrenSeen(p, g, d, events[j].path, f, events);
    assert ChildSeen(p, g(d)[n], events[j].path + [n], f, events);
  }

  /** The directory of something below `path` is on the same branch, unless it is at `path`. */
  lemma SameBranch(path: seq<string>, x: Event, y: Event)
    requires Below(path, x) && Below(path, y) && y.path == Init(x.path)
    ensures Head(path, x) == Head(path, y) && Init(x.path) != path
  {
  }

  lemma EarliestConcat(p: Primitives, g: Listing, path: seq<string>, f1: set<Option<Cap>>, e1: seq<Event>, e2: seq<Event>)
    requires Earliest(p, g, e1) && Earliest(p, g, e2) && Branches(path, e1, e2) && DirectoriesDone(p, g, f1, e1)
    requires forall i :: 0 <= i < |e2| && Below(path, e2[i]) && Init(e2[i].path) != path ==> IsFresh(p, f1, e2[i])
    ensures Earliest(p, g, e1 + e2)
  {
    hide Verifier, LinksTo, DirectoriesDone, Below, Head, IsDirectoryNode;
    var e, m := e1 + e2, |e1|;
    forall x, j, k | 0 <= x < |e| && 0 <= j < |e| && 0 <= k < |e|
      ensures NotLater(p, g, e, x, j, k)
    {
      assert e[x] == if x < m then e1[x] else e2[x - m];
      assert e[j] == if j < m then e1[j] else e2[j - m];
      assert e[k] == if k < m then e1[k] else e2[k - m];
      if e[x].AddNode? && e[x].path != [] && e[k].AddNode? && e[k].path == Init(e[x].path) {
        SameBranch(path, e[x], e[k]);
        if x < m {
          assert k < m;
          if j < m {
            assert NotLater(p, g, e1, x, j, k);
          }
        } else {
          assert k >= m;
          if j >= m {
            assert NotLater(p, g, e2, x - m, j - m, k - m);
          } else if e[j].AddNode? && IsDirectoryNode(e[j].node) && Verifier(p, e[x].node).Some?
                    && LinksTo(p, g, e[j].node, Verifier(p, e[x].node).value) {
            assert IsFresh(p, f1, e2[x - m]);
            DoneNotFresh(p, g, f1, e1, j, Verifier(p, e[x].node).value);
          }
        }
      }
    }
  }

  lemma EarliestHere(p: Primitives, g: Listing, node: Node, path: seq<string>, events: seq<Event>)
    requires Earliest(p, g, events) && NoneDeeper(p, g, node, path, events) && Hangs(path, events)
    ensures Earliest(p, g, [AddNode(node, path)] + events)
  {
    hide Verifier, LinksTo, IsDirectoryNode, HasPath;
    var first := AddNode(node, path);
    var e := [first] + events;
    forall x, j, k | 0 <= x < |e| && 0 <= j < |e| && 0 <= k < |e|
      ensures NotLater(p, g, e, x, j, k)
    {
      assert e[x] == if x == 0 then first else events[x - 1];
      assert e[j] == if j == 0 then first else events[j - 1];
      assert e[k] == if k == 0 then first else events[k - 1];
      if k > 0 && e[x].AddNode? && e[x].path != [] && e[k].AddNode? && e[k].path == Init(e[x].path) {
        assert Below(path, events[k - 1]);
        assert x > 0 && Below(path, events[x - 1]);
        if j > 0 {
          assert NotLater(p, g, events, x - 1, j - 1, k - 1);
        }
      }
    }
  }

  // ---- Both together ------------------------------------------------------

  lemma UnknownsLined(p: Primitives, g: Listing, d: Node, path: seq<string>, names: seq<string>, f0: set<Option<Cap>>,
                      events: seq<Event>, files: seq<Event>, dirs: seq<Event>)
    requires Queued(g, d, path, names, events, files, dirs) && AllUnknown(events)
    ensures Lined(p, g, d, path, f0, events, files + dirs)
  {
    hide InOrder, AllRanked;
    assert forall i :: 0 <= i < |events| && events[i].AddNode? ==> Verifier(p, events[i].node).None?;
  }

  /** A file is a walk of its own. */
  lemma FileLined(p: Primitives, g: Listing, file: Event, f: set<Option<Cap>>)
    requires file.AddNode? && !IsDirectoryNode(file.node)
    ensures WellOrdered(p, g, file.path, f, [file])
  {
  }

  /** Everything handed over with the next child is new, and not linked from `d` unless it is the child itself. */
  lemma MoreIsFresh(p: Primitives, g: Listing, d: Node, path: seq<string>, f0: set<Option<Cap>>, f1: set<Option<Cap>>, kid: Event, more: seq<Event>)
    requires IsKid(path, kid) && WalksFrom(kid.path, more) && DistinctPaths(more) && kid in more
    requires FreshBelow(p, kid.path, f1, more) && IsFresh(p, f0, kid) && f0 <= f1 && ParentSeen(p, g, d, f1)
    ensures FreshBelow(p, path, f0, more) && NoneDeeper(p, g, d, path, more)
    ensures forall i :: 0 <= i < |more| && Below(path, more[i]) && Init(more[i].path) != path ==> IsFresh(p, f1, more[i])
  {
    hide Verifier, HasPath;
    forall i | 0 <= i < |more| && more[i].AddNode?
      ensures more[i] == kid || Below(kid.path, more[i])
    {
      if more[i].path == kid.path {
        var k :| 0 <= k < |more| && more[k] == kid;
      }
    }
  }

  lemma LinedNext(p: Primitives, g: Listing, d: Node, path: seq<string>, names: seq<string>, f0: set<Option<Cap>>, f1: set<Option<Cap>>,
                  events: seq<Event>, kids: seq<Event>, more: seq<Event>)
    requires Lined(p, g, d, path, f0, events, kids) && kids != [] && Apart(path, names, events, kids)
    requires WalksFrom(kids[0].path, more) && DistinctPaths(more) && kids[0] in more && WellOrdered(p, g, kids[0].path, f1, more)
    requires DirectoriesDone(p, g, f1, events) && f0 <= f1 && ParentSeen(p, g, d, f1) && IsFresh(p, f0, kids[0])
    ensures Lined(p, g, d, path, f0, events + more, kids[1..])
  {
    FirstIsKid(path, names, events, kids);
    NextBranches(path, names, events, kids, more);
    InOrderExpand(g, d, path, events, kids, more);
    MoreIsFresh(p, g, d, path, f0, f1, kids[0], more);
    OrderedConcat(g, path, events, more);
    EarliestConcat(p, g, path, f1, events, more);
    BelowConcat(p, g, d, path, f0, events, more);
  }

  lemma FirstIsKid(path: seq<string>, names: seq<string>, events: seq<Event>, kids: seq<Event>)
    requires Apart(path, names, events, kids) && kids != []
    ensures IsKid(path, kids[0])
  {
  }

  lemma BelowConcat(p: Primitives, g: Listing, d: Node, path: seq<string>, f0: set<Option<Cap>>, e1: seq<Event>, e2: seq<Event>)
    requires FreshBelow(p, path, f0, e1) && FreshBelow(p, path, f0, e2)
    requires NoneDeeper(p, g, d, path, e1) && NoneDeeper(p, g, d, path, e2)
    ensures FreshBelow(p, path, f0, e1 + e2) && NoneDeeper(p, g, d, path, e1 + e2)
  {
    hide Below, IsFresh, LinksTo, Verifier;
    assert forall i :: 0 <= i < |e1 + e2| ==> (e1 + e2)[i] == if i < |e1| then e1[i] else e2[i - |e1|];
  }

  lemma WellOrderedHere(p: Primitives, g: Listing, node: Node, path: seq<string>, f0: set<Option<Cap>>, events: seq<Event>)
    requires Lined(p, g, node, path, f0, events, []) && Hangs(path, events)
    ensures WellOrdered(p, g, path, f0, [AddNode(node, path)] + events)
  {
    hide Ordered, Earliest, InOrder, NoneDeeper, Hangs, IsFresh;
    assert events + [] == events;
    OrderedHere(g, node, path, events);
    EarliestHere(p, g, node, path, events);
  }
}
