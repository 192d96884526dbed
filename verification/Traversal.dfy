/** `deep_traverse`: a walk over a capability graph that may contain cycles. */
module Traversal {
  import opened Basics
  import opened Sorting
  import opened Caps
  import opened Nodes
  import opened WalkTrace
  import opened WalkOrder

  // ---- The invariant of the walk ------------------------------------------

  function AllCaps(p: Primitives, all: set<Node>): set<Cap> {
    set n | n in all && Verifier(p, n).Some? :: Verifier(p, n).value
  }

  /**
   * From `f0` to `f1` the walk has handed over `events`. What it has reported,
   * together with what it has noted but not handed over yet, is exactly what it
   * has found, each verify cap once, plus `extra` found before.
   */
  ghost predicate Walked(p: Primitives, g: Listing, root: Node, all: set<Node>, f0: set<Option<Cap>>, f1: set<Option<Cap>>,
                         events: seq<Event>, noted: multiset<Cap>, extra: multiset<Cap>)
  {
    && f0 <= f1 && CapsIn(f1) - CapsIn(f0) <= AllCaps(p, all)
    && multiset(Reported(p, events)) + noted == multiset(CapsIn(f1) - CapsIn(f0)) + extra
    && PathsResolve(g, root, events)
    && DirectoriesDone(p, g, f1, events)
  }

  lemma NewCapsSplit(f0: set<Option<Cap>>, f1: set<Option<Cap>>, f2: set<Option<Cap>>)
    requires f0 <= f1 <= f2
    ensures CapsIn(f0) <= CapsIn(f1) <= CapsIn(f2)
    ensures multiset(CapsIn(f2) - CapsIn(f0)) == multiset(CapsIn(f1) - CapsIn(f0)) + multiset(CapsIn(f2) - CapsIn(f1))
  {
    assert CapsIn(f2) - CapsIn(f0) == (CapsIn(f1) - CapsIn(f0)) + (CapsIn(f2) - CapsIn(f1));
  }

  lemma SeenLater(p: Primitives, g: Listing, d: Node, path: seq<string>, f1: set<Option<Cap>>, f2: set<Option<Cap>>,
                  e1: seq<Event>, e2: seq<Event>)
    requires ChildrenSeen(p, g, d, path, f1, e1)
    requires f1 <= f2 && forall x :: x in e1 ==> x in e2
    ensures ChildrenSeen(p, g, d, path, f2, e2)
  {
    forall name | name in g(d)
      ensures ChildSeen(p, g(d)[name], path + [name], f2, e2)
    {
      assert ChildSeen(p, g(d)[name], path + [name], f1, e1);
    }
  }

  lemma DoneConcat(p: Primitives, g: Listing, f1: set<Option<Cap>>, f2: set<Option<Cap>>, e1: seq<Event>, e2: seq<Event>)
    requires DirectoriesDone(p, g, f1, e1) && DirectoriesDone(p, g, f2, e2) && f1 <= f2
    ensures DirectoriesDone(p, g, f2, e1 + e2)
  {
    hide ChildrenSeen;
    var e := e1 + e2;
    forall i | 0 <= i < |e| && e[i].AddNode? && IsDirectoryNode(e[i].node)
      ensures ChildrenSeen(p, g, e[i].node, e[i].path, f2, e) && EnteredNext(e, i)
    {
      if i < |e1| {
        assert EnteredNext(e1, i);
        SeenLater(p, g, e1[i].node, e1[i].path, f1, f2, e1, e);
      } else {
        assert EnteredNext(e2, i - |e1|);
        SeenLater(p, g, e2[i - |e1|].node, e2[i - |e1|].path, f2, f2, e2, e);
      }
    }
  }

  lemma AddUp(r1: multiset<Cap>, r2: multiset<Cap>, n1: multiset<Cap>, n2: multiset<Cap>,
              c1: multiset<Cap>, c2: multiset<Cap>, x1: multiset<Cap>, x2: multiset<Cap>)
    requires r1 + n1 == c1 + x1 && r2 + n2 == c2 + x2
    ensures r1 + r2 + (n1 + n2) == c1 + c2 + (x1 + x2)
  {
    assert r1 + r2 + (n1 + n2) == (r1 + n1) + (r2 + n2);
    assert c1 + c2 + (x1 + x2) == (c1 + x1) + (c2 + x2);
  }

  /** Two stretches of a walk make one. */
  lemma WalkedThen(p: Primitives, g: Listing, root: Node, all: set<Node>,
                   f0: set<Option<Cap>>, f1: set<Option<Cap>>, f2: set<Option<Cap>>,
                   e1: seq<Event>, e2: seq<Event>, n1: multiset<Cap>, n2: multiset<Cap>, x1: multiset<Cap>, x2: multiset<Cap>)
    requires Walked(p, g, root, all, f0, f1, e1, n1, x1)
    requires Walked(p, g, root, all, f1, f2, e2, n2, x2)
    ensures Walked(p, g, root, all, f0, f2, e1 + e2, n1 + n2, x1 + x2)
  {
    hide DirectoriesDone, Reported;
    NewCapsSplit(f0, f1, f2);
    ReportedConcat(p, e1, e2);
    DoneConcat(p, g, f1, f2, e1, e2);
    assert CapsIn(f2) - CapsIn(f0) == (CapsIn(f1) - CapsIn(f0)) + (CapsIn(f2) - CapsIn(f1));
    AddUp(multiset(Reported(p, e1)), multiset(Reported(p, e2)), n1, n2,
          multiset(CapsIn(f1) - CapsIn(f0)), multiset(CapsIn(f2) - CapsIn(f1)), x1, x2);
    assert multiset(Reported(p, e1 + e2)) == multiset(Reported(p, e1)) + multiset(Reported(p, e2));
    forall i | 0 <= i < |e1 + e2| && (e1 + e2)[i].AddNode?
      ensures Resolve(g, root, (e1 + e2)[i].path) == Some((e1 + e2)[i].node)
    {
      assert (e1 + e2)[i] == if i < |e1| then e1[i] else e2[i - |e1|];
    }
  }

  /** One event about something that is not a directory. */
  lemma WalkedOne(p: Primitives, g: Listing, root: Node, all: set<Node>, f: set<Option<Cap>>, event: Event)
    requires event.AddNode? ==> !IsDirectoryNode(event.node) && Resolve(g, root, event.path) == Some(event.node)
    ensures Walked(p, g, root, all, f, f, [event], multiset{}, multiset(ReportedBy(p, event)))
  {
    ReportedOne(p, event);
  }

  /** What is noted now may be matched later. */
  lemma WalkedMatch(p: Primitives, g: Listing, root: Node, all: set<Node>, f0: set<Option<Cap>>, f1: set<Option<Cap>>,
                    events: seq<Event>, noted: multiset<Cap>, both: multiset<Cap>, extra: multiset<Cap>)
    requires Walked(p, g, root, all, f0, f1, events, noted + both, extra + both)
    ensures Walked(p, g, root, all, f0, f1, events, noted, extra)
  {
    var reported, newCaps := multiset(Reported(p, events)), multiset(CapsIn(f1) - CapsIn(f0));
    forall c: Cap
      ensures (reported + noted)[c] == (newCaps + extra)[c]
    {
      assert (reported + (noted + both))[c] == (newCaps + (extra + both))[c];
    }
  }

  /** A child is noted in the `found` set and kept for later. */
  lemma NoteKid(p: Primitives, g: Listing, root: Node, all: set<Node>, f0: set<Option<Cap>>, f1: set<Option<Cap>>,
                events: seq<Event>, noted: multiset<Cap>, extra: multiset<Cap>, kid: Event)
    requires Walked(p, g, root, all, f0, f1, events, noted, extra)
    requires kid.AddNode? && kid.node in all
    requires Verifier(p, kid.node).Some? ==> Verifier(p, kid.node) !in f1
    ensures Walked(p, g, root, all, f0, f1 + {Verifier(p, kid.node)}, events, noted + multiset(ReportedBy(p, kid)), extra)
  {
    var o := Verifier(p, kid.node);
    var f2 := f1 + {o};
    DoneLater(p, g, f1, f2, events);
    if o.Some? {
      assert CapsIn(f2) == CapsIn(f1) + {o.value};
      assert o.value !in CapsIn(f1);
      assert CapsIn(f2) - CapsIn(f0) == (CapsIn(f1) - CapsIn(f0)) + {o.value} by { assert CapsIn(f0) <= CapsIn(f1); }
      var reported, newCaps, c := multiset(Reported(p, events)), multiset(CapsIn(f1) - CapsIn(f0)), multiset{o.value};
      assert multiset(CapsIn(f2) - CapsIn(f0)) == newCaps + c;
      assert reported + (noted + c) == (reported + noted) + c;
      assert newCaps + c + extra == (newCaps + extra) + c;
    } else {
      assert CapsIn(f2) == CapsIn(f1);
    }
  }

  lemma DoneLater(p: Primitives, g: Listing, f1: set<Option<Cap>>, f2: set<Option<Cap>>, events: seq<Event>)
    requires DirectoriesDone(p, g, f1, events) && f1 <= f2
    ensures DirectoriesDone(p, g, f2, events)
  {
    assert events + [] == events;
    DoneConcat(p, g, f1, f2, events, []);
  }

  // ---- The walk -----------------------------------------------------------

  /** A child kept for later: where it is, and that it was new when it was noted. */
  ghost predicate GoodKid(p: Primitives, g: Listing, root: Node, all: set<Node>, f0: set<Option<Cap>>, f1: set<Option<Cap>>, kid: Event) {
    && kid.AddNode? && kid.node in all && Resolve(g, root, kid.path) == Some(kid.node)
    && (Verifier(p, kid.node).Some? ==> Verifier(p, kid.node) in f1 && Verifier(p, kid.node) !in f0)
  }

  ghost predicate GoodFile(p: Primitives, g: Listing, root: Node, all: set<Node>, f0: set<Option<Cap>>, f1: set<Option<Cap>>, kid: Event) {
    GoodKid(p, g, root, all, f0, f1, kid) && !IsDirectoryNode(kid.node)
  }

  ghost predicate GoodDir(p: Primitives, g: Listing, root: Node, all: set<Node>, f0: set<Option<Cap>>, f1: set<Option<Cap>>,
                          parent: Node, kid: Event)
  {
    GoodKid(p, g, root, all, f0, f1, kid) && IsDirectoryNode(kid.node) && NestsShorter(parent, kid.node)
  }

  /** Literal directories come last in the measure of the walk. */
  function Tier(n: Node): nat {
    if IsLiteral(n) then 0 else 1
  }

  lemma NoVerifierIsLiteral(p: Primitives, g: Listing, all: set<Node>, n: Node)
    requires IsGraph(g, all) && n in all && IsDirectoryNode(n) && Verifier(p, n).None?
    ensures IsLiteral(n)
  {
  }

  /** Entering a kept directory lowers the measure: a verify cap more was found, or the literals get shorter. */
  lemma KidIsSmaller(p: Primitives, g: Listing, root: Node, all: set<Node>, f0: set<Option<Cap>>, f1: set<Option<Cap>>,
                     parent: Node, kid: Event)
    requires IsGraph(g, all) && GoodDir(p, g, root, all, f0, f1, parent, kid) && IsDirectoryNode(parent) && f0 <= f1
    ensures
      var s0, s1 := AllCaps(p, all) - CapsIn(f0), AllCaps(p, all) - CapsIn(f1);
      s1 < s0 || (s1 == s0 && Tier(kid.node) < Tier(parent)) ||
      (s1 == s0 && Tier(kid.node) == Tier(parent) && LiteralLength(kid.node) < LiteralLength(parent))
  {
    var o := Verifier(p, kid.node);
    assert CapsIn(f0) <= CapsIn(f1);
    if o.Some? {
      assert o.value in AllCaps(p, all) - CapsIn(f0);
      assert o.value in CapsIn(f1);
    } else {
      NoVerifierIsLiteral(p, g, all, kid.node);
    }
  }

  class Walk {
    const p: Primitives
    const g: Listing
    var found: set<Option<Cap>>
    var trace: seq<Event>

    constructor (p: Primitives, g: Listing)
      ensures this.p == p && this.g == g && trace == []
    {
      this.p, this.g := p, g;
      found, trace := {}, [];
    }

    /** Sorts the children into those to be handed over now and those kept for later. */
    method SortChildren(parent: Node, path: seq<string>, ghost root: Node, ghost all: set<Node>)
        returns (dirkids: seq<Event>, filekids: seq<Event>, ghost events: seq<Event>, ghost names: seq<string>)
      requires IsGraph(g, all) && parent in all && IsDirectoryNode(parent) && Resolve(g, root, path) == Some(parent)
      modifies this
      ensures trace == old(trace) + events
      ensures forall name :: name in g(parent) <==> name in names
      ensures SortedOut(p, g, root, all, parent, path, names, old(found), found, events, filekids, dirkids)
      ensures Apart(path, names, events, filekids + dirkids)
      ensures NotTwice(p, g, parent, path, names, events + (filekids + dirkids)) && IsSortedListing(names, g(parent).Keys)
      ensures AllUnknown(events) && Queued(g, parent, path, names, events, filekids, dirkids)
    {
      hide SortedOut, IsGraph, Resolve, Verifier, IsDirectoryNode, SortedNames, Apart, NotTwice, IsSortedListing, AllUnknown, Queued, IsNext;
      trace := trace + [EnterDirectory(parent)];
      events := [EnterDirectory(parent)];
      dirkids, filekids := [], [];
      var listed := SortNames(g(parent).Keys);
      StartSorting(p, g, root, all, parent, path, found);
      StartApart(path, parent);
      StartQueued(g, parent, path);
      ListedInOrder(listed, g(parent).Keys);
      assert listed[..0] == [] && filekids + dirkids == [];
      assert NotTwice(p, g, parent, path, [], events + (filekids + dirkids)) by { NothingTwice(p, g, parent, path, events + (filekids + dirkids)); }
      var i := 0;
      while i < |listed|
        invariant 0 <= i <= |listed|
        invariant trace == old(trace) + events
        invariant SortedOut(p, g, root, all, parent, path, listed[..i], old(found), found, events, filekids, dirkids)
        invariant Apart(path, listed[..i], events, filekids + dirkids)
        invariant NotTwice(p, g, parent, path, listed[..i], events + (filekids + dirkids))
        invariant AllUnknown(events) && Queued(g, parent, path, listed[..i], events, filekids, dirkids)
      {
        var name := listed[i];
        var child := g(parent)[name];
        var kid := AddNode(child, path + [name]);
        assert listed[..i + 1] == listed[..i] + [name];
        NotListedBefore(listed, i);
        NextListed(listed, i);
        if child.Unknown? {
          UnknownHasNone(p, child);
          QueuedUnknown(g, parent, path, listed[..i], events, filekids, dirkids, name);
          TwiceUnknown(p, g, parent, path, listed[..i], events, filekids + dirkids, name);
          ApartUnknown(path, listed[..i], events, filekids + dirkids, child, name);
          SortUnknown(p, g, root, all, parent, path, listed[..i], old(found), found, events, filekids, dirkids, name);
          trace := trace + [kid];
          events := events + [kid];
        } else {
          var verifier := Verifier(p, child);
          if verifier.Some? && verifier in found {
            QueuedSkip(g, parent, path, listed[..i], events, filekids, dirkids, name);
            TwiceSkip(p, g, parent, path, listed[..i], events, filekids + dirkids, name);
            ApartSkip(path, listed[..i], events, filekids + dirkids, name);
            SortKnown(p, g, root, all, parent, path, listed[..i], old(found), found, events, filekids, dirkids, name);
          } else {
            QueuedKid(g, parent, path, listed[..i], events, filekids, dirkids, name);
            TwiceNew(p, g, root, all, parent, path, listed[..i], old(found), found, events, filekids, dirkids, name);
            SortNew(p, g, root, all, parent, path, listed[..i], old(found), found, events, filekids, dirkids, name);
            found := found + {verifier};
            if IsDirectoryNode(child) {
              assert filekids + dirkids == filekids + dirkids + [];
              ApartKid(path, listed[..i], events, filekids + dirkids, [], child, name);
              assert filekids + dirkids + [kid] + [] == filekids + (dirkids + [kid]);
              dirkids := dirkids + [kid];
            } else {
              ApartKid(path, listed[..i], events, filekids, dirkids, child, name);
              filekids := filekids + [kid];
            }
          }
        }
        i := i + 1;
      }
      names := listed;
      assert listed[..i] == listed;
    }

    /** `_deep_traverse_dirnode_children`: unknown and file-like children first, then the directories. */
    method TraverseChildren(parent: Node, path: seq<string>, ghost root: Node, ghost all: set<Node>) returns (ghost events: seq<Event>)
      requires IsGraph(g, all) && parent in all && IsDirectoryNode(parent) && Resolve(g, root, path) == Some(parent)
      modifies this
      ensures trace == old(trace) + events
      ensures Walked(p, g, root, all, old(found), found, events, multiset{}, multiset{})
      ensures ChildrenSeen(p, g, parent, path, found, events)
      ensures events != [] && events[0] == EnterDirectory(parent)
      ensures Hangs(path, events) && DistinctPaths(events)
      ensures FirstWins(p, g, events) && SecondSkipped(p, g, parent, path, events)
      ensures Lined(p, g, parent, path, old(found), events, [])
      decreases AllCaps(p, all) - CapsIn(found), Tier(parent), LiteralLength(parent), 0
    {
      hide Queued, Lined, WellOrdered, AllUnknown, DirectoriesDone, ParentSeen, NotTwice, FirstWins, SecondSkipped;
      hide IsSortedListing, Apart, DistinctPaths, WalksFrom, Hangs, SortedOut, IsGraph, Resolve, Walked, Reported;
      hide ChildrenSeen, GoodDir, GoodKid, GoodFile, ReportedBy;
      var dirkids, filekids;
      ghost var names;
      ghost var f0 := found;
      dirkids, filekids, events, names := SortChildren(parent, path, root, all);
      UnknownsWin(p, g, events);
      UnknownsLined(p, g, parent, path, names, f0, events, filekids, dirkids);
      var i := 0;
      assert filekids[0..] == filekids;
      while i < |filekids|
        invariant 0 <= i <= |filekids|
        invariant trace == old(trace) + events
        invariant SortedOut(p, g, root, all, parent, path, names, f0, found, events, filekids[i..], dirkids)
        invariant Apart(path, names, events, filekids[i..] + dirkids)
        invariant NotTwice(p, g, parent, path, names, events + (filekids[i..] + dirkids)) && FirstWins(p, g, events)
        invariant Lined(p, g, parent, path, f0, events, filekids[i..] + dirkids)
      {
        assert filekids[i..][1..] == filekids[i + 1..];
        assert (filekids[i..] + dirkids)[1..] == filekids[i + 1..] + dirkids;
        assert filekids[i].AddNode? by { NextFile(p, g, root, all, parent, path, names, f0, found, events, filekids[i..], dirkids); }
        OneWalks(filekids[i]);
        assert !IsDirectoryNode(filekids[i].node) by { NextFile(p, g, root, all, parent, path, names, f0, found, events, filekids[i..], dirkids); }
        NoDirectoryWins(p, g, [filekids[i]]);
        NotTwiceNext(p, g, parent, path, names, events, filekids[i..] + dirkids, [filekids[i]]);
        FirstWinsNext(p, g, path, names, events, filekids[i..] + dirkids, [filekids[i]]);
        SortedLines(p, g, root, all, parent, path, names, f0, found, events, filekids[i..], dirkids);
        FileLined(p, g, filekids[i], found);
        LinedNext(p, g, parent, path, names, f0, found, events, filekids[i..] + dirkids, [filekids[i]]);
        ApartNext(path, names, events, filekids[i..] + dirkids, [filekids[i]]);
        HandOverFile(p, g, root, all, parent, path, names, f0, found, events, filekids[i..], dirkids);
        trace := trace + [filekids[i]];
        events := events + [filekids[i]];
        i := i + 1;
      }
      assert filekids[i..] == [];
      i := 0;
      assert dirkids[0..] == dirkids && [] + dirkids == dirkids;
      while i < |dirkids|
        invariant 0 <= i <= |dirkids|
        invariant trace == old(trace) + events
        invariant SortedOut(p, g, root, all, parent, path, names, f0, found, events, [], dirkids[i..])
        invariant Apart(path, names, events, dirkids[i..])
        invariant NotTwice(p, g, parent, path, names, events + dirkids[i..]) && FirstWins(p, g, events)
        invariant Lined(p, g, parent, path, f0, events, dirkids[i..])
      {
        ghost var f1 := found;
        assert dirkids[i..][1..] == dirkids[i + 1..];
        NextDirectory(p, g, root, all, parent, path, names, f0, f1, events, dirkids[i..]);
        SortedLines(p, g, root, all, parent, path, names, f0, f1, events, [], dirkids[i..]);
        ghost var more := TraverseDirnode(dirkids[i].node, dirkids[i].path, root, all);
        DirectoryDone(p, g, root, all, parent, path, names, f0, f1, found, events, more, dirkids[i..]);
        NotTwiceNext(p, g, parent, path, names, events, dirkids[i..], more);
        FirstWinsNext(p, g, path, names, events, dirkids[i..], more);
        LinedNext(p, g, parent, path, names, f0, f1, events, dirkids[i..], more);
        ApartNext(path, names, events, dirkids[i..], more);
        events := events + more;
        i := i + 1;
      }
      assert dirkids[i..] == [];
      assert Hangs(path, events) && DistinctPaths(events) by { ApartHangs(path, names, events, []); }
      assert events + [] == events;
      NotTwiceSkips(p, g, parent, path, names, events);
      AllHandedOver(p, g, root, all, parent, path, names, f0, found, events);
    }

    /** `_deep_traverse_dirnode`. */
    method TraverseDirnode(node: Node, path: seq<string>, ghost root: Node, ghost all: set<Node>) returns (ghost events: seq<Event>)
      requires IsGraph(g, all) && node in all && IsDirectoryNode(node) && Resolve(g, root, path) == Some(node)
      modifies this
      ensures trace == old(trace) + events && AddNode(node, path) in events
      ensures Walked(p, g, root, all, old(found), found, events, multiset{}, multiset(ReportedBy(p, AddNode(node, path))))
      ensures WalksFrom(path, events) && DistinctPaths(events) && FirstWins(p, g, events)
      ensures WellOrdered(p, g, path, old(found), events)
      decreases AllCaps(p, all) - CapsIn(found), Tier(node), LiteralLength(node), 1
    {
      hide Lined, WellOrdered, FirstWins, SecondSkipped, WalksFrom, DistinctPaths, Hangs, IsGraph, Resolve, Walked;
      hide Reported, ChildrenSeen, ReportedBy;
      ghost var f0 := found;
      trace := trace + [AddNode(node, path)];
      events := TraverseChildren(node, path, root, all);
      DirectoryWalked(p, g, root, all, f0, found, events, node, path);
      WalksFromHere(node, path, events);
      FirstWinsHere(p, g, node, path, events);
      WellOrderedHere(p, g, node, path, f0, events);
      events := [AddNode(node, path)] + events;
    }
  }

  /** What sorting says of the next child and of everything before it. */
  lemma SortedLines(p: Primitives, g: Listing, root: Node, all: set<Node>, parent: Node, path: seq<string>, names: seq<string>,
                    f0: set<Option<Cap>>, f1: set<Option<Cap>>, events: seq<Event>, files: seq<Event>, dirs: seq<Event>)
    requires SortedOut(p, g, root, all, parent, path, names, f0, f1, events, files, dirs) && files + dirs != []
    requires IsSortedListing(names, g(parent).Keys)
    ensures DirectoriesDone(p, g, f1, events) && f0 <= f1 && ParentSeen(p, g, parent, f1)
    ensures IsFresh(p, f0, (files + dirs)[0])
  {
    hide Reported, Resolve, Verifier, NestsShorter, DirectoriesDone, PathsResolve;
    if files != [] {
      assert GoodFile(p, g, root, all, f0, f1, files[0]);
    } else {
      assert GoodDir(p, g, root, all, f0, f1, parent, dirs[0]);
    }
    forall n | n in g(parent) && Verifier(p, g(parent)[n]).Some?
      ensures Verifier(p, g(parent)[n]) in f1
    {
      assert n in names;
      assert ChildSeen(p, g(parent)[n], path + [n], f1, events + files + dirs);
    }
  }

  lemma ListedInOrder(names: seq<string>, keys: set<string>)
    requires IsSortedListing(names, keys)
    ensures Increasing(names) && forall name :: name in names <==> name in keys
  {
  }

  lemma NothingTwice(p: Primitives, g: Listing, d: Node, path: seq<string>, xs: seq<Event>)
    ensures NotTwice(p, g, d, path, [], xs)
  {
  }

  /** Before the next name is looked at, nothing is handed over or kept under it. */
  lemma NoneYet(path: seq<string>, names: seq<string>, events: seq<Event>, kids: seq<Event>, name: string)
    requires Apart(path, names, events, kids) && name !in names
    ensures NoneAt(path, name, events + kids)
  {
    hide DistinctPaths, Hangs;
    NewHead(path, names, events, kids, name);
    var xs := events + kids;
    forall i | 0 <= i < |xs| && Below(path, xs[i])
      ensures Head(path, xs[i]) != name
    {
      assert xs[i] == if i < |events| then events[i] else kids[i - |events|];
    }
  }

  lemma TwiceSkip(p: Primitives, g: Listing, d: Node, path: seq<string>, names: seq<string>, events: seq<Event>, kids: seq<Event>, name: string)
    requires NotTwice(p, g, d, path, names, events + kids) && Apart(path, names, events, kids) && name !in names
    ensures NotTwice(p, g, d, path, names + [name], events + kids)
  {
    hide NotTwice, Apart;
    NoneYet(path, names, events, kids, name);
    NotTwiceStep(p, g, d, path, names, events + kids, name, events + kids);
  }

  lemma TwiceUnknown(p: Primitives, g: Listing, d: Node, path: seq<string>, names: seq<string>, events: seq<Event>, kids: seq<Event>, name: string)
    requires NotTwice(p, g, d, path, names, events + kids) && name !in names && name in g(d) && g(d)[name].Unknown?
    ensures NotTwice(p, g, d, path, names + [name], events + [AddNode(g(d)[name], path + [name])] + kids)
  {
    hide NotTwice;
    KidBelow(path, g(d)[name], name);
    NotTwiceStep(p, g, d, path, names, events + kids, name, events + [AddNode(g(d)[name], path + [name])] + kids);
  }

  /** A name for an object that was not found before: no name before it is for that object. */
  lemma TwiceNew(p: Primitives, g: Listing, root: Node, all: set<Node>, d: Node, path: seq<string>, names: seq<string>,
                 f0: set<Option<Cap>>, f1: set<Option<Cap>>, events: seq<Event>, filekids: seq<Event>, dirkids: seq<Event>, name: string)
    requires SortedOut(p, g, root, all, d, path, names, f0, f1, events, filekids, dirkids)
    requires NotTwice(p, g, d, path, names, events + (filekids + dirkids)) && name !in names && name in g(d)
    requires Verifier(p, g(d)[name]).Some? ==> Verifier(p, g(d)[name]) !in f1
    ensures var kid := AddNode(g(d)[name], path + [name]);
      && NotTwice(p, g, d, path, names + [name], events + (filekids + (dirkids + [kid])))
      && NotTwice(p, g, d, path, names + [name], events + (filekids + [kid] + dirkids))
  {
    hide NotTwice, Walked, Reported, GoodFile, GoodDir, Verifier;
    var kid := AddNode(g(d)[name], path + [name]);
    KidBelow(path, g(d)[name], name);
    forall j | 0 <= j < |names|
      ensures !SameTarget(p, g, d, names[j], name)
    {
      if names[j] in g(d) {
        assert ChildSeen(p, g(d)[names[j]], path + [names[j]], f1, events + filekids + dirkids);
      }
    }
    hide SameTarget, SortedOut;
    NotTwiceStep(p, g, d, path, names, events + (filekids + dirkids), name, events + (filekids + (dirkids + [kid])));
    NotTwiceStep(p, g, d, path, names, events + (filekids + dirkids), name, events + (filekids + [kid] + dirkids));
  }

  lemma NextFile(p: Primitives, g: Listing, root: Node, all: set<Node>, parent: Node, path: seq<string>, names: seq<string>,
                 f0: set<Option<Cap>>, f1: set<Option<Cap>>, events: seq<Event>, files: seq<Event>, dirs: seq<Event>)
    requires SortedOut(p, g, root, all, parent, path, names, f0, f1, events, files, dirs) && files != []
    ensures files[0].AddNode? && !IsDirectoryNode(files[0].node)
  {
    assert GoodFile(p, g, root, all, f0, f1, files[0]);
  }

  lemma HandOverFile(p: Primitives, g: Listing, root: Node, all: set<Node>, parent: Node, path: seq<string>, names: seq<string>,
                     f0: set<Option<Cap>>, f1: set<Option<Cap>>, events: seq<Event>, files: seq<Event>, dirs: seq<Event>)
    requires SortedOut(p, g, root, all, parent, path, names, f0, f1, events, files, dirs) && files != []
    ensures SortedOut(p, g, root, all, parent, path, names, f0, f1, events + [files[0]], files[1..], dirs)
  {
    hide Walked, Reported, Resolve, ReportedBy, Verifier, NestsShorter;
    var kid := files[0];
    assert GoodFile(p, g, root, all, f0, f1, kid);
    WalkedOne(p, g, root, all, f1, kid);
    WalkedAway(p, g, root, all, f0, f1, f1, events, [kid], files, dirs, kid);
    assert events + [kid] + files[1..] + dirs == events + files + dirs;
  }

  /** A stretch of the walk that hands over `kid` settles what was noted for it. */
  lemma WalkedAway(p: Primitives, g: Listing, root: Node, all: set<Node>, f0: set<Option<Cap>>, f1: set<Option<Cap>>, f2: set<Option<Cap>>,
                   events: seq<Event>, more: seq<Event>, kids: seq<Event>, others: seq<Event>, kid: Event)
    requires kids != [] && kids[0] == kid
    requires Walked(p, g, root, all, f0, f1, events, multiset(Reported(p, kids)) + multiset(Reported(p, others)), multiset{})
    requires Walked(p, g, root, all, f1, f2, more, multiset{}, multiset(ReportedBy(p, kid)))
    ensures Walked(p, g, root, all, f0, f2, events + more, multiset(Reported(p, kids[1..])) + multiset(Reported(p, others)), multiset{})
  {
    hide Walked, Reported, ReportedBy;
    var a, b, c := multiset(Reported(p, kids[1..])), multiset(Reported(p, others)), multiset(ReportedBy(p, kid));
    assert kids == [kid] + kids[1..];
    ReportedConcat(p, [kid], kids[1..]);
    ReportedOne(p, kid);
    assert multiset(Reported(p, kids)) == c + a;
    WalkedThen(p, g, root, all, f0, f1, f2, events, more, multiset(Reported(p, kids)) + b, multiset{}, multiset{}, c);
    assert multiset(Reported(p, kids)) + b + multiset{} == (a + b) + c;
    assert multiset{} + c == c;
    WalkedMatch(p, g, root, all, f0, f2, events + more, a + b, c, multiset{});
  }

  /** The next directory may be entered. */
  lemma NextDirectory(p: Primitives, g: Listing, root: Node, all: set<Node>, parent: Node, path: seq<string>, names: seq<string>,
                      f0: set<Option<Cap>>, f1: set<Option<Cap>>, events: seq<Event>, dirs: seq<Event>)
    requires SortedOut(p, g, root, all, parent, path, names, f0, f1, events, [], dirs) && dirs != []
    requires IsGraph(g, all) && IsDirectoryNode(parent)
    ensures dirs[0].AddNode? && dirs[0].node in all && IsDirectoryNode(dirs[0].node)
    ensures Resolve(g, root, dirs[0].path) == Some(dirs[0].node)
    ensures
      var s0, s1 := AllCaps(p, all) - CapsIn(f0), AllCaps(p, all) - CapsIn(f1);
      s1 < s0 || (s1 == s0 && Tier(dirs[0].node) < Tier(parent)) ||
      (s1 == s0 && Tier(dirs[0].node) == Tier(parent) && LiteralLength(dirs[0].node) < LiteralLength(parent))
  {
    hide Reported, Resolve, Verifier, NestsShorter, DirectoriesDone, PathsResolve, AllSeen;
    assert GoodDir(p, g, root, all, f0, f1, parent, dirs[0]);
    KidIsSmaller(p, g, root, all, f0, f1, parent, dirs[0]);
  }

  lemma DirectoryDone(p: Primitives, g: Listing, root: Node, all: set<Node>, parent: Node, path: seq<string>, names: seq<string>,
                      f0: set<Option<Cap>>, f1: set<Option<Cap>>, f2: set<Option<Cap>>,
                      events: seq<Event>, more: seq<Event>, dirs: seq<Event>)
    requires SortedOut(p, g, root, all, parent, path, names, f0, f1, events, [], dirs) && dirs != []
    requires Walked(p, g, root, all, f1, f2, more, multiset{}, multiset(ReportedBy(p, dirs[0]))) && dirs[0] in more
    ensures SortedOut(p, g, root, all, parent, path, names, f0, f2, events + more, [], dirs[1..])
  {
    hide Reported, Resolve, ReportedBy, Verifier, NestsShorter, DirectoriesDone, PathsResolve, AllSeen;
    var none: seq<Event> := [];
    var a, b := multiset(Reported(p, none)), multiset(Reported(p, dirs));
    assert a + b == b + a;
    WalkedAway(p, g, root, all, f0, f1, f2, events, more, dirs, none, dirs[0]);
    assert multiset(Reported(p, dirs[1..])) + a == a + multiset(Reported(p, dirs[1..]));
    assert events + none + dirs == events + dirs && events + more + none + dirs[1..] == events + more + dirs[1..];
    assert dirs == [dirs[0]] + dirs[1..];
    SeenStill(p, g, parent, path, names, f1, f2, events + dirs, events + more + dirs[1..]);
  }

  lemma SeenStill(p: Primitives, g: Listing, parent: Node, path: seq<string>, names: seq<string>,
                  f1: set<Option<Cap>>, f2: set<Option<Cap>>, e1: seq<Event>, e2: seq<Event>)
    requires AllSeen(p, g, parent, path, names, f1, e1)
    requires f1 <= f2 && forall x :: x in e1 ==> x in e2
    ensures AllSeen(p, g, parent, path, names, f2, e2)
  {
    hide Verifier;
  }

  lemma AllHandedOver(p: Primitives, g: Listing, root: Node, all: set<Node>, parent: Node, path: seq<string>, names: seq<string>,
                      f0: set<Option<Cap>>, f1: set<Option<Cap>>, events: seq<Event>)
    requires SortedOut(p, g, root, all, parent, path, names, f0, f1, events, [], [])
    requires forall name :: name in g(parent) <==> name in names
    ensures Walked(p, g, root, all, f0, f1, events, multiset{}, multiset{})
    ensures ChildrenSeen(p, g, parent, path, f1, events)
    ensures events != [] && events[0] == EnterDirectory(parent)
  {
    hide Walked, ChildSeen;
    var none: seq<Event> := [];
    assert multiset(Reported(p, none)) + multiset(Reported(p, none)) == multiset{};
    assert events + none + none == events;
  }

  lemma DirectoryWalked(p: Primitives, g: Listing, root: Node, all: set<Node>, f0: set<Option<Cap>>, f1: set<Option<Cap>>,
                        events: seq<Event>, node: Node, path: seq<string>)
    requires Walked(p, g, root, all, f0, f1, events, multiset{}, multiset{})
    requires ChildrenSeen(p, g, node, path, f1, events) && Resolve(g, root, path) == Some(node)
    requires events != [] && events[0] == EnterDirectory(node)
    ensures Walked(p, g, root, all, f0, f1, [AddNode(node, path)] + events, multiset{}, multiset(ReportedBy(p, AddNode(node, path))))
  {
    hide Reported, Resolve, ReportedBy, ChildrenSeen;
    var first := AddNode(node, path);
    var whole := [first] + events;
    ReportedConcat(p, [first], events);
    ReportedOne(p, first);
    assert forall i :: 0 <= i < |whole| ==> whole[i] == if i == 0 then first else events[i - 1];
    var c := multiset(ReportedBy(p, first));
    assert multiset(Reported(p, whole)) == c + multiset(Reported(p, events));
    assert multiset(Reported(p, events)) == multiset(CapsIn(f1) - CapsIn(f0)) by {
      assert multiset(Reported(p, events)) + multiset{} == multiset(Reported(p, events));
      assert multiset(CapsIn(f1) - CapsIn(f0)) + multiset{} == multiset(CapsIn(f1) - CapsIn(f0));
    }
    assert c + multiset(Reported(p, events)) + multiset{} == multiset(CapsIn(f1) - CapsIn(f0)) + c;
    forall i | 0 <= i < |whole| && whole[i].AddNode? && IsDirectoryNode(whole[i].node)
      ensures ChildrenSeen(p, g, whole[i].node, whole[i].path, f1, whole) && EnteredNext(whole, i)
    {
      assert i > 0 ==> EnteredNext(events, i - 1);
      SeenLater(p, g, whole[i].node, whole[i].path, f1, f1, events, whole);
    }
  }

  /** The children under `names` have been sorted. */
  ghost predicate SortedOut(p: Primitives, g: Listing, root: Node, all: set<Node>, parent: Node, path: seq<string>, names: seq<string>,
                          f0: set<Option<Cap>>, f1: set<Option<Cap>>, events: seq<Event>, filekids: seq<Event>, dirkids: seq<Event>)
  {
    && events != [] && events[0] == EnterDirectory(parent)
    && Walked(p, g, root, all, f0, f1, events, multiset(Reported(p, filekids)) + multiset(Reported(p, dirkids)), multiset{})
    && AllSeen(p, g, parent, path, names, f1, events + filekids + dirkids)
    && (forall k :: 0 <= k < |filekids| ==> GoodFile(p, g, root, all, f0, f1, filekids[k]))
    && (forall k :: 0 <= k < |dirkids| ==> GoodDir(p, g, root, all, f0, f1, parent, dirkids[k]))
  }

  ghost predicate AllSeen(p: Primitives, g: Listing, parent: Node, path: seq<string>, names: seq<string>,
                          found: set<Option<Cap>>, events: seq<Event>)
  {
    forall name :: name in names && name in g(parent) ==> ChildSeen(p, g(parent)[name], path + [name], found, events)
  }

  lemma OneMoreSeen(p: Primitives, g: Listing, parent: Node, path: seq<string>, names: seq<string>, name: string,
                    f1: set<Option<Cap>>, f2: set<Option<Cap>>, e1: seq<Event>, e2: seq<Event>)
    requires AllSeen(p, g, parent, path, names, f1, e1)
    requires f1 <= f2 && forall x :: x in e1 ==> x in e2
    requires name in g(parent) ==> ChildSeen(p, g(parent)[name], path + [name], f2, e2)
    ensures AllSeen(p, g, parent, path, names + [name], f2, e2)
  {
    hide Verifier;
  }

  lemma SortUnknown(p: Primitives, g: Listing, root: Node, all: set<Node>, parent: Node, path: seq<string>, names: seq<string>,
                    f0: set<Option<Cap>>, f1: set<Option<Cap>>, events: seq<Event>, filekids: seq<Event>, dirkids: seq<Event>, name: string)
    requires SortedOut(p, g, root, all, parent, path, names, f0, f1, events, filekids, dirkids)
    requires IsDirectoryNode(parent) && Resolve(g, root, path) == Some(parent)
    requires name in g(parent) && g(parent)[name].Unknown?
    ensures SortedOut(p, g, root, all, parent, path, names + [name], f0, f1,
                    events + [AddNode(g(parent)[name], path + [name])], filekids, dirkids)
  {
    hide Walked, Reported, Resolve, AllSeen, GoodFile, GoodDir;
    var kid := AddNode(g(parent)[name], path + [name]);
    ResolveStep(g, root, path, name);
    UnknownWalked(p, g, root, all, f0, f1, events, multiset(Reported(p, filekids)) + multiset(Reported(p, dirkids)), kid);
    var e1, e2 := events + filekids + dirkids, events + [kid] + filekids + dirkids;
    assert e2[|events|] == kid;
    OneMoreSeen(p, g, parent, path, names, name, f1, f1, e1, e2);
  }

  lemma SortKnown(p: Primitives, g: Listing, root: Node, all: set<Node>, parent: Node, path: seq<string>, names: seq<string>,
                  f0: set<Option<Cap>>, f1: set<Option<Cap>>, events: seq<Event>, filekids: seq<Event>, dirkids: seq<Event>, name: string)
    requires SortedOut(p, g, root, all, parent, path, names, f0, f1, events, filekids, dirkids)
    requires name in g(parent) && Verifier(p, g(parent)[name]).Some? && Verifier(p, g(parent)[name]) in f1
    ensures SortedOut(p, g, root, all, parent, path, names + [name], f0, f1, events, filekids, dirkids)
  {
    hide Walked, Reported, AllSeen, GoodFile, GoodDir, Verifier;
    var e := events + filekids + dirkids;
    OneMoreSeen(p, g, parent, path, names, name, f1, f1, e, e);
  }

  lemma SortNew(p: Primitives, g: Listing, root: Node, all: set<Node>, parent: Node, path: seq<string>, names: seq<string>,
                f0: set<Option<Cap>>, f1: set<Option<Cap>>, events: seq<Event>, filekids: seq<Event>, dirkids: seq<Event>, name: string)
    requires SortedOut(p, g, root, all, parent, path, names, f0, f1, events, filekids, dirkids)
    requires IsGraph(g, all) && parent in all && IsDirectoryNode(parent) && Resolve(g, root, path) == Some(parent)
    requires name in g(parent) && !g(parent)[name].Unknown?
    requires Verifier(p, g(parent)[name]).Some? ==> Verifier(p, g(parent)[name]) !in f1
    ensures
      var child := g(parent)[name];
      var kid := AddNode(child, path + [name]);
      var f2 := f1 + {Verifier(p, child)};
      if IsDirectoryNode(child)
      then SortedOut(p, g, root, all, parent, path, names + [name], f0, f2, events, filekids, dirkids + [kid])
      else SortedOut(p, g, root, all, parent, path, names + [name], f0, f2, events, filekids + [kid], dirkids)
  {
    hide Walked, Reported, Resolve, AllSeen, Verifier, NestsShorter, IsDirectoryNode;
    var child := g(parent)[name];
    var kid := AddNode(child, path + [name]);
    var f2 := f1 + {Verifier(p, child)};
    assert child in all && NestsShorter(parent, child);
    ResolveStep(g, root, path, name);
    KidNoted(p, g, root, all, f0, f1, events, filekids, dirkids, kid);
    assert GoodKid(p, g, root, all, f0, f2, kid);
    var e1 := events + filekids + dirkids;
    var e2 := if IsDirectoryNode(child) then events + filekids + (dirkids + [kid]) else events + (filekids + [kid]) + dirkids;
    assert kid in e2;
    OneMoreSeen(p, g, parent, path, names, name, f1, f2, e1, e2);
  }

  lemma StartSorting(p: Primitives, g: Listing, root: Node, all: set<Node>, parent: Node, path: seq<string>, f: set<Option<Cap>>)
    ensures SortedOut(p, g, root, all, parent, path, [], f, f, [EnterDirectory(parent)], [], [])
  {
    hide Walked;
    WalkedOne(p, g, root, all, f, EnterDirectory(parent));
    assert multiset(Reported(p, [])) + multiset(Reported(p, [])) == multiset{};
  }

  lemma UnknownWalked(p: Primitives, g: Listing, root: Node, all: set<Node>, f0: set<Option<Cap>>, f1: set<Option<Cap>>,
                      events: seq<Event>, noted: multiset<Cap>, kid: Event)
    requires Walked(p, g, root, all, f0, f1, events, noted, multiset{})
    requires kid.AddNode? && kid.node.Unknown? && Resolve(g, root, kid.path) == Some(kid.node)
    ensures Walked(p, g, root, all, f0, f1, events + [kid], noted, multiset{})
  {
    hide Walked, Resolve, Reported;
    WalkedOne(p, g, root, all, f1, kid);
    assert ReportedBy(p, kid) == [];
    WalkedThen(p, g, root, all, f0, f1, f1, events, [kid], noted, multiset{}, multiset{}, multiset{});
    assert noted + multiset{} == noted;
    assert multiset{} + multiset(ReportedBy(p, kid)) == multiset{};
  }

  lemma KidNoted(p: Primitives, g: Listing, root: Node, all: set<Node>, f0: set<Option<Cap>>, f1: set<Option<Cap>>,
                 events: seq<Event>, filekids: seq<Event>, dirkids: seq<Event>, kid: Event)
    requires Walked(p, g, root, all, f0, f1, events, multiset(Reported(p, filekids)) + multiset(Reported(p, dirkids)), multiset{})
    requires kid.AddNode? && kid.node in all
    requires Verifier(p, kid.node).Some? ==> Verifier(p, kid.node) !in f1
    ensures var f2 := f1 + {Verifier(p, kid.node)};
      && Walked(p, g, root, all, f0, f2, events, multiset(Reported(p, filekids + [kid])) + multiset(Reported(p, dirkids)), multiset{})
      && Walked(p, g, root, all, f0, f2, events, multiset(Reported(p, filekids)) + multiset(Reported(p, dirkids + [kid])), multiset{})
      && f0 <= f2 && (Verifier(p, kid.node).Some? ==> Verifier(p, kid.node) !in f0)
  {
    hide Reported, DirectoriesDone, Verifier;
    var a, b, c := multiset(Reported(p, filekids)), multiset(Reported(p, dirkids)), multiset(ReportedBy(p, kid));
    NoteKid(p, g, root, all, f0, f1, events, a + b, multiset{}, kid);
    ReportedConcat(p, filekids, [kid]);
    ReportedConcat(p, dirkids, [kid]);
    ReportedOne(p, kid);
    assert a + b + c == (a + c) + b;
    assert a + b + c == a + (b + c);
  }

  // ---- What a finished walk has done --------------------------------------

  /**
   * Two nodes for one object (a write cap and a read cap of the same file, say)
   * are the same kind of node, and listing the two gives, name by name, nodes
   * for the same objects.
   */
  ghost predicate ObjectsAgree(p: Primitives, g: Listing, all: set<Node>) {
    forall a, b :: a in all && b in all && Verifier(p, a).Some? && Verifier(p, a) == Verifier(p, b) ==>
      && (IsDirectoryNode(a) <==> IsDirectoryNode(b))
      && (IsDirectoryNode(a) ==> forall name :: name in g(a) && !g(a)[name].Unknown? ==>
            name in g(b) && SameObject(p, g(a)[name], g(b)[name]))
  }

  ghost predicate SameObject(p: Primitives, a: Node, b: Node) {
    && !b.Unknown?
    && Verifier(p, a) == Verifier(p, b)
    && (Verifier(p, a).None? ==> a == b)
  }

  /** An object has been handed over; a literal one as exactly this node. */
  ghost predicate Covered(p: Primitives, events: seq<Event>, n: Node) {
    exists i :: 0 <= i < |events| && events[i].AddNode? &&
      (if Verifier(p, n).Some? then Verifier(p, events[i].node) == Verifier(p, n) else events[i].node == n)
  }

  /** A whole walk from `root`. */
  ghost predicate Finished(p: Primitives, g: Listing, root: Node, found: set<Option<Cap>>, events: seq<Event>) {
    && PathsResolve(g, root, events)
    && DirectoriesDone(p, g, found, events)
    && multiset(Reported(p, events)) == multiset(CapsIn(found))
    && AddNode(root, []) in events
    && WalksFrom([], events) && DistinctPaths(events) && FirstWins(p, g, events)
    && Ordered(g, events) && Earliest(p, g, events)
  }

  /** What a visited directory's children come to: without a verify cap handed over right here, otherwise reported somewhere. */
  ghost predicate ChildrenGiven(p: Primitives, g: Listing, d: Node, path: seq<string>, events: seq<Event>) {
    forall name :: name in g(d) ==>
      if Verifier(p, g(d)[name]).None? then AddNode(g(d)[name], path + [name]) in events
      else Verifier(p, g(d)[name]).value in Reported(p, events)
  }

  /**
   * What is true of every walk. The root is handed over. Each node comes with a
   * path that leads to it; no path comes twice, and what is at the path before
   * the last name has been handed over too. A directory is entered at once, and
   * all its children are accounted for. No verify cap is reported twice, and of
   * two links of one directory to one object the second is not followed. In each
   * directory everything under one child comes before everything under the next:
   * unknown children, then files, then directories, each in the order of their
   * names. Of several links to one object, one from the directory that is handed
   * over first is the one that counts.
   */
  ghost predicate WalkIs(p: Primitives, g: Listing, root: Node, events: seq<Event>) {
    && AddNode(root, []) in events
    && PathsResolve(g, root, events) && DistinctPaths(events) && WalksFrom([], events)
    && (forall i :: 0 <= i < |events| && events[i].AddNode? && IsDirectoryNode(events[i].node) ==>
          EnteredNext(events, i) && ChildrenGiven(p, g, events[i].node, events[i].path, events))
    && (forall v :: multiset(Reported(p, events))[v] <= 1)
    && FirstWins(p, g, events)
    && Ordered(g, events) && Earliest(p, g, events)
  }

  lemma FinishedIs(p: Primitives, g: Listing, root: Node, found: set<Option<Cap>>, events: seq<Event>)
    requires Finished(p, g, root, found, events)
    ensures WalkIs(p, g, root, events)
  {
    hide Reported, Verifier, PathsResolve, WalksFrom, DistinctPaths, FirstWins, Ordered, Earliest;
    forall v
      ensures multiset(Reported(p, events))[v] <= 1
    {
    }
    forall i | 0 <= i < |events| && events[i].AddNode? && IsDirectoryNode(events[i].node)
      ensures EnteredNext(events, i) && ChildrenGiven(p, g, events[i].node, events[i].path, events)
    {
      ChildrenSeenAreGiven(p, g, events[i].node, events[i].path, found, events);
    }
  }

  lemma ChildrenSeenAreGiven(p: Primitives, g: Listing, d: Node, path: seq<string>, found: set<Option<Cap>>, events: seq<Event>)
    requires ChildrenSeen(p, g, d, path, found, events) && multiset(Reported(p, events)) == multiset(CapsIn(found))
    ensures ChildrenGiven(p, g, d, path, events)
  {
    hide Reported, Verifier;
    forall name | name in g(d) && Verifier(p, g(d)[name]).Some?
      ensures Verifier(p, g(d)[name]).value in Reported(p, events)
    {
      assert ChildSeen(p, g(d)[name], path + [name], found, events);
      assert Verifier(p, g(d)[name]).value in CapsIn(found);
      assert Verifier(p, g(d)[name]).value in multiset(Reported(p, events));
    }
  }

  /** Whatever a path reaches is in the graph. */
  lemma {:induction false} ReachedInGraph(g: Listing, all: set<Node>, n: Node, path: seq<string>)
    requires IsGraph(g, all) && n in all && Resolve(g, n, path).Some?
    ensures Resolve(g, n, path).value in all
    decreases |path|
  {
    if path != [] {
      ReachedInGraph(g, all, g(n)[path[0]], path[1..]);
    }
  }

  /** Every known object that some path reaches is handed over. */
  lemma {:induction false} ReachedIsCovered(p: Primitives, g: Listing, all: set<Node>, root: Node, found: set<Option<Cap>>,
                                            events: seq<Event>, path: seq<string>)
    requires IsGraph(g, all) && ObjectsAgree(p, g, all) && root in all
    requires Finished(p, g, root, found, events)
    requires Resolve(g, root, path).Some? && !Resolve(g, root, path).value.Unknown?
    ensures Covered(p, events, Resolve(g, root, path).value)
    decreases |path|
  {
    hide Reported, Verifier, DirectoriesDone, Resolve, SameObject, IsGraph, WalksFrom, DistinctPaths, FirstWins, Ordered, Earliest;
    if path == [] {
      assert Resolve(g, root, []) == Some(root) by { ResolveNothing(g, root); }
      var i :| 0 <= i < |events| && events[i] == AddNode(root, []);
    } else {
      var q, name := path[..|path| - 1], path[|path| - 1];
      assert path == q + [name];
      ResolveStep(g, root, q, name);
      ReachedIsCovered(p, g, all, root, found, events, q);
      CoveredChild(p, g, all, root, found, events, q, name);
    }
  }

  lemma ResolveNothing(g: Listing, n: Node)
    ensures Resolve(g, n, []) == Some(n)
  {
  }

  lemma CoveredChild(p: Primitives, g: Listing, all: set<Node>, root: Node, found: set<Option<Cap>>, events: seq<Event>,
                     q: seq<string>, name: string)
    requires IsGraph(g, all) && ObjectsAgree(p, g, all) && root in all
    requires Finished(p, g, root, found, events)
    requires Resolve(g, root, q).Some? && IsDirectoryNode(Resolve(g, root, q).value)
    requires Covered(p, events, Resolve(g, root, q).value)
    requires name in g(Resolve(g, root, q).value) && !g(Resolve(g, root, q).value)[name].Unknown?
    ensures Covered(p, events, g(Resolve(g, root, q).value)[name])
  {
    hide Reported, Verifier, Resolve, IsGraph, WalksFrom, DistinctPaths, FirstWins, Ordered, Earliest;
    var z := Resolve(g, root, q).value;
    var child := g(z)[name];
    var i :| 0 <= i < |events| && events[i].AddNode? &&
      (if Verifier(p, z).Some? then Verifier(p, events[i].node) == Verifier(p, z) else events[i].node == z);
    var z' := events[i].node;
    ReachedInGraph(g, all, root, q);
    ReachedInGraph(g, all, root, events[i].path);
    assert IsDirectoryNode(z') && name in g(z');
    var child' := g(z')[name];
    assert z' == z || SameObject(p, child, child');
    assert ChildrenSeen(p, g, z', events[i].path, found, events);
    assert ChildSeen(p, child', events[i].path + [name], found, events);
    if Verifier(p, child').Some? {
      FoundIsReported(p, found, events, Verifier(p, child').value);
    }
  }

  lemma FoundIsReported(p: Primitives, found: set<Option<Cap>>, events: seq<Event>, v: Cap)
    requires multiset(Reported(p, events)) == multiset(CapsIn(found)) && Some(v) in found
    ensures exists i :: 0 <= i < |events| && events[i].AddNode? && Verifier(p, events[i].node) == Some(v)
  {
    hide Reported, Verifier;
    assert v in CapsIn(found);
    assert v in multiset(Reported(p, events));
    ReportedHasEvent(p, events, v);
  }

  lemma CoveredOnce(p: Primitives, found: set<Option<Cap>>, events: seq<Event>, n: Node)
    requires multiset(Reported(p, events)) == multiset(CapsIn(found))
    requires Covered(p, events, n) && Verifier(p, n).Some?
    ensures multiset(Reported(p, events))[Verifier(p, n).value] == 1
  {
    hide Verifier;
    var v := Verifier(p, n).value;
    var i :| 0 <= i < |events| && events[i].AddNode? && Verifier(p, events[i].node) == Some(v);
    EventIsReported(p, events, i);
    assert v in ReportedBy(p, events[i]);
    assert v in multiset(Reported(p, events));
  }

  lemma {:induction false} EventIsReported(p: Primitives, events: seq<Event>, i: nat)
    requires i < |events|
    ensures forall v :: v in ReportedBy(p, events[i]) ==> v in Reported(p, events)
    decreases |events|
  {
    hide Verifier;
    if i < |events| - 1 {
      EventIsReported(p, events[..|events| - 1], i);
    }
  }

  /** Every known object that some path reaches is handed over, and one with a verify cap exactly once. */
  ghost predicate CoversAll(p: Primitives, g: Listing, root: Node, events: seq<Event>) {
    && (forall path :: Resolve(g, root, path).Some? && !Resolve(g, root, path).value.Unknown? ==>
          Covered(p, events, Resolve(g, root, path).value))
    && (forall path :: Resolve(g, root, path).Some? && Verifier(p, Resolve(g, root, path).value).Some? ==>
          multiset(Reported(p, events))[Verifier(p, Resolve(g, root, path).value).value] == 1)
  }

  lemma FinishedCovers(p: Primitives, g: Listing, all: set<Node>, root: Node, found: set<Option<Cap>>, events: seq<Event>)
    requires IsGraph(g, all) && ObjectsAgree(p, g, all) && root in all && Finished(p, g, root, found, events)
    ensures CoversAll(p, g, root, events)
  {
    hide Reported, Resolve, IsGraph, ObjectsAgree, Covered, DirectoriesDone, PathsResolve, WalksFrom, DistinctPaths, FirstWins, Ordered, Earliest;
    forall path | Resolve(g, root, path).Some? && !Resolve(g, root, path).value.Unknown?
      ensures Covered(p, events, Resolve(g, root, path).value)
      ensures Verifier(p, Resolve(g, root, path).value).Some? ==>
        multiset(Reported(p, events))[Verifier(p, Resolve(g, root, path).value).value] == 1
    {
      ReachedIsCovered(p, g, all, root, found, events, path);
      if Verifier(p, Resolve(g, root, path).value).Some? {
        CoveredOnce(p, found, events, Resolve(g, root, path).value);
      }
    }
  }

  /**
   * `deep_traverse` from `root`: it terminates on every finite graph, cyclic or
   * not, and is a walk. If the nodes for one object list the same objects, it
   * also hands over everything that can be reached.
   */
  method DeepTraverse(p: Primitives, g: Listing, root: Node, ghost all: set<Node>) returns (trace: seq<Event>)
    requires IsGraph(g, all) && root in all && IsDirectoryNode(root)
    ensures WalkIs(p, g, root, trace)
    ensures ObjectsAgree(p, g, all) ==> CoversAll(p, g, root, trace)
  {
    hide Reported, Resolve, IsGraph, ObjectsAgree, ReportedBy, Finished, WalkIs, CoversAll, Walked, WalksFrom;
    hide DistinctPaths, FirstWins, Ordered, Earliest;
    var walk := new Walk(p, g);
    walk.found := {Verifier(p, root)};
    ResolveNothing(g, root);
    ghost var events := walk.TraverseDirnode(root, [], root, all);
    trace := walk.trace;
    assert trace == events;
    ghost var found := walk.found;
    RootReported(p, g, root, all, found, events);
    FinishedIs(p, g, root, found, events);
    if ObjectsAgree(p, g, all) {
      FinishedCovers(p, g, all, root, found, events);
    }
  }

  lemma DisjointUnion(s: set<Cap>, v: Cap)
    requires v !in s
    ensures multiset(s + {v}) == multiset(s) + multiset{v}
  {
  }

  lemma RootReported(p: Primitives, g: Listing, root: Node, all: set<Node>, found: set<Option<Cap>>, events: seq<Event>)
    requires Walked(p, g, root, all, {Verifier(p, root)}, found, events, multiset{}, multiset(ReportedBy(p, AddNode(root, []))))
    requires AddNode(root, []) in events && WalksFrom([], events) && DistinctPaths(events) && FirstWins(p, g, events)
    requires WellOrdered(p, g, [], {Verifier(p, root)}, events)
    ensures Finished(p, g, root, found, events)
  {
    hide Reported, Verifier, PathsResolve, DirectoriesDone, WalksFrom, DistinctPaths, FirstWins, Ordered, Earliest;
    RootCount(found, Verifier(p, root), multiset(Reported(p, events)), multiset(ReportedBy(p, AddNode(root, []))));
  }

  lemma RootCount(found: set<Option<Cap>>, o: Option<Cap>, reported: multiset<Cap>, extra: multiset<Cap>)
    requires o in found && extra == if o.Some? then multiset{o.value} else multiset{}
    requires reported + multiset{} == multiset(CapsIn(found) - CapsIn({o})) + extra
    ensures reported == multiset(CapsIn(found))
  {
    assert reported + multiset{} == reported;
    if o.Some? {
      assert CapsIn({o}) == {o.value};
      assert CapsIn(found) == (CapsIn(found) - {o.value}) + {o.value} by { assert o.value in CapsIn(found); }
      DisjointUnion(CapsIn(found) - {o.value}, o.value);
    } else {
      assert CapsIn({o}) == {};
      assert CapsIn(found) - {} == CapsIn(found);
    }
  }

  // ---- Objects without a verify cap ---------------------------------------

  /** `path` is a link from a directory handed over to `n`, or the root itself. */
  ghost predicate IsLink(g: Listing, root: Node, events: seq<Event>, n: Node, path: seq<string>) {
    if path == [] then n == root
    else
      exists i :: 0 <= i < |events| && events[i].AddNode? && IsDirectoryNode(events[i].node) && events[i].path == Init(path) &&
        path[|path| - 1] in g(events[i].node) && g(events[i].node)[path[|path| - 1]] == n
  }

  /** Only links of directories handed over are ever handed over. */
  lemma GivenIsLink(p: Primitives, g: Listing, root: Node, events: seq<Event>, n: Node, path: seq<string>)
    requires WalkIs(p, g, root, events) && AddNode(n, path) in events
    ensures IsLink(g, root, events, n, path)
  {
    hide Reported, Verifier, Resolve, ChildrenGiven, DistinctPaths, FirstWins, Ordered, Earliest;
    var i :| 0 <= i < |events| && events[i] == AddNode(n, path);
    if path == [] {
      ResolveNothing(g, root);
    } else {
      var q, name := Init(path), path[|path| - 1];
      assert HasPath(events, q);
      var j :| 0 <= j < |events| && events[j].AddNode? && events[j].path == q;
      assert path == q + [name];
      ResolveStep(g, root, q, name);
    }
  }

  /**
   * How often a literal or unknown object is given to the walker: once for every
   * link to it from a directory that is given to the walker.
   */
  lemma GivenPerLink(p: Primitives, g: Listing, root: Node, events: seq<Event>, n: Node, path: seq<string>)
    requires WalkIs(p, g, root, events) && Verifier(p, n).None?
    ensures multiset(events)[AddNode(n, path)] == if IsLink(g, root, events, n, path) then 1 else 0
  {
    hide Reported, Verifier, PathsResolve, WalksFrom, FirstWins, Ordered, Earliest;
    var x := AddNode(n, path);
    if IsLink(g, root, events, n, path) {
      if path != [] {
        var i :| 0 <= i < |events| && events[i].AddNode? && IsDirectoryNode(events[i].node) && events[i].path == Init(path) &&
          path[|path| - 1] in g(events[i].node) && g(events[i].node)[path[|path| - 1]] == n;
        assert ChildrenGiven(p, g, events[i].node, events[i].path, events);
        assert Init(path) + [path[|path| - 1]] == path;
      }
      assert x in events;
      CountOnce(events, x);
    } else if x in events {
      GivenIsLink(p, g, root, events, n, path);
    }
  }

  lemma {:induction false} CountOnce(events: seq<Event>, x: Event)
    requires x.AddNode? && x in events && DistinctPaths(events)
    ensures multiset(events)[x] == 1
  {
    var i :| 0 <= i < |events| && events[i] == x;
    var before, behind := events[..i], events[i + 1..];
    assert events == before + [x] + behind;
    assert x !in before && x !in behind;
    assert multiset(events) == multiset(before) + multiset{x} + multiset(behind);
  }

  /** A literal file that a directory links to twice is given twice. */
  lemma LiteralGivenTwice(p: Primitives, g: Listing, root: Node, data: Bytes, events: seq<Event>)
    requires IsDirectoryNode(root) && g(root) == map["a" := Known(File(LIT(data))), "b" := Known(File(LIT(data)))]
    requires WalkIs(p, g, root, events)
    ensures multiset(events)[AddNode(Known(File(LIT(data))), ["a"])] == 1
    ensures multiset(events)[AddNode(Known(File(LIT(data))), ["b"])] == 1
  {
    hide Reported, WalkIs;
    var n := Known(File(LIT(data)));
    assert AddNode(root, []) in events by { RootGiven(p, g, root, events); }
    var i :| 0 <= i < |events| && events[i] == AddNode(root, []);
    assert Init(["a"]) == [] && Init(["b"]) == [];
    assert IsLink(g, root, events, n, ["a"]) && IsLink(g, root, events, n, ["b"]);
    GivenPerLink(p, g, root, events, n, ["a"]);
    GivenPerLink(p, g, root, events, n, ["b"]);
  }

  lemma RootGiven(p: Primitives, g: Listing, root: Node, events: seq<Event>)
    requires WalkIs(p, g, root, events)
    ensures AddNode(root, []) in events
  {
  }

  // ---- A second cap of one directory --------------------------------------

  lemma TwiceReported(p: Primitives, events: seq<Event>, i: nat, j: nat, v: Cap)
    requires i < j < |events| && ReportedBy(p, events[i]) == [v] && ReportedBy(p, events[j]) == [v]
    ensures multiset(Reported(p, events))[v] >= 2
  {
    hide Reported, ReportedBy;
    var front, back := events[..j], events[j..];
    assert events == front + back && front[i] == events[i] && back[0] == events[j];
    EventIsReported(p, front, i);
    EventIsReported(p, back, 0);
    assert v in ReportedBy(p, front[i]) && v in ReportedBy(p, back[0]);
    ReportedConcat(p, front, back);
    assert multiset(Reported(p, events)) == multiset(Reported(p, front)) + multiset(Reported(p, back));
    assert v in multiset(Reported(p, front)) && v in multiset(Reported(p, back));
  }

  /** A directory `w` that links to itself by another cap `r` and to "x", which is `c` through `r` but means nothing through `w`. */
  ghost predicate SelfLinked(p: Primitives, g: Listing, w: Node, r: Node, u: Node, c: Node) {
    && IsDirectoryNode(w) && IsDirectoryNode(r) && w != r && Verifier(p, w).Some? && Verifier(p, r) == Verifier(p, w)
    && u.Unknown? && !IsDirectoryNode(c) && Verifier(p, c).Some? && Verifier(p, c) != Verifier(p, w)
    && g(w) == map["self" := r, "x" := u] && g(r) == map["self" := r, "x" := c]
  }

  lemma {:induction false} SelfLinkedReaches(p: Primitives, g: Listing, w: Node, r: Node, u: Node, c: Node, n: Node, path: seq<string>)
    requires SelfLinked(p, g, w, r, u, c) && (n == w || n == r) && Resolve(g, n, path).Some?
    ensures Resolve(g, n, path).value in {w, r, u, c}
    decreases |path|
  {
    hide Verifier;
    if path != [] {
      if path[0] == "self" {
        SelfLinkedReaches(p, g, w, r, u, c, r, path[1..]);
      }
    }
  }

  /** Through the second cap nothing is handed over: it was skipped. */
  lemma SecondCapSkipped(p: Primitives, g: Listing, w: Node, r: Node, u: Node, c: Node, events: seq<Event>, q: seq<string>)
    requires SelfLinked(p, g, w, r, u, c) && WalkIs(p, g, w, events)
    ensures AddNode(r, q) !in events
  {
    hide Reported, Verifier, Resolve, ChildrenGiven, WalksFrom, DistinctPaths, FirstWins, Ordered, Earliest;
    if AddNode(r, q) in events {
      var i :| 0 <= i < |events| && events[i] == AddNode(w, []);
      var j :| 0 <= j < |events| && events[j] == AddNode(r, q);
      TwiceReported(p, events, if i < j then i else j, if i < j then j else i, Verifier(p, w).value);
    }
  }

  lemma EventResolves(p: Primitives, g: Listing, root: Node, events: seq<Event>, n: Node, path: seq<string>)
    requires WalkIs(p, g, root, events) && AddNode(n, path) in events
    ensures Resolve(g, root, path) == Some(n)
  {
    hide Resolve, Reported, Verifier, ChildrenGiven, WalksFrom, DistinctPaths, FirstWins, Ordered, Earliest;
    var i :| 0 <= i < |events| && events[i] == AddNode(n, path);
  }

  lemma OnlyFirstEntered(p: Primitives, g: Listing, w: Node, r: Node, u: Node, c: Node, events: seq<Event>, d: Node, q: seq<string>)
    requires SelfLinked(p, g, w, r, u, c) && WalkIs(p, g, w, events) && AddNode(d, q) in events && IsDirectoryNode(d)
    ensures d == w
  {
    hide WalkIs, Resolve, Verifier;
    EventResolves(p, g, w, events, d, q);
    SelfLinkedReaches(p, g, w, r, u, c, w, q);
    SecondCapSkipped(p, g, w, r, u, c, events, q);
  }

  /** What is handed over of such a directory is linked from `w`. */
  lemma GivenFromFirst(p: Primitives, g: Listing, w: Node, r: Node, u: Node, c: Node, events: seq<Event>, n: Node, path: seq<string>)
    requires SelfLinked(p, g, w, r, u, c) && WalkIs(p, g, w, events) && AddNode(n, path) in events
    ensures n in {w, r, u}
  {
    hide WalkIs, Verifier;
    GivenIsLink(p, g, w, events, n, path);
    if path != [] {
      var j :| 0 <= j < |events| && events[j].AddNode? && IsDirectoryNode(events[j].node) && events[j].path == Init(path) &&
        path[|path| - 1] in g(events[j].node) && g(events[j].node)[path[|path| - 1]] == n;
      assert AddNode(events[j].node, events[j].path) in events;
      OnlyFirstEntered(p, g, w, r, u, c, events, events[j].node, events[j].path);
    }
  }

  /**
   * Coverage can fail: the walk enters such a directory once, through `w`, and
   * never hands over the object that the path "self/x" leads to.
   */
  lemma CoverageFails(p: Primitives, g: Listing, w: Node, r: Node, u: Node, c: Node, events: seq<Event>)
    requires SelfLinked(p, g, w, r, u, c) && WalkIs(p, g, w, events)
    ensures Resolve(g, w, ["self", "x"]) == Some(c)
    ensures Verifier(p, c).value !in Reported(p, events) && !CoversAll(p, g, w, events)
  {
    hide Reported, Verifier, Resolve, WalkIs;
    SelfThenX(p, g, w, r, u, c);
    var v := Verifier(p, c).value;
    if v in Reported(p, events) {
      ReportedHasEvent(p, events, v);
      var i :| 0 <= i < |events| && ReportedBy(p, events[i]) == [v];
      GivenFromFirst(p, g, w, r, u, c, events, events[i].node, events[i].path);
      UnknownHasNone(p, u);
      assert false;
    }
    assert multiset(Reported(p, events))[v] == 0;
  }

  lemma SelfThenX(p: Primitives, g: Listing, w: Node, r: Node, u: Node, c: Node)
    requires SelfLinked(p, g, w, r, u, c)
    ensures Resolve(g, w, ["self", "x"]) == Some(c)
  {
    hide Verifier;
    assert ["self", "x"][1..] == ["x"] && ["x"][1..] == [];
    assert Resolve(g, c, []) == Some(c);
    assert Resolve(g, r, ["x"]) == Some(c);
  }

  // ---- Disagreement is always missed somewhere ----------------------------

  /** Some path from `n` leads to the object with verify cap `v`. */
  ghost predicate Reaches(p: Primitives, g: Listing, n: Node, v: Cap) {
    exists path :: Resolve(g, n, path).Some? && Verifier(p, Resolve(g, n, path).value) == Some(v)
  }

  /** The root links to one directory by two caps, first by `w` and then by `r`. */
  ghost predicate LinksTwice(p: Primitives, g: Listing, root: Node, w: Node, r: Node, n1: string, n2: string) {
    && IsDirectoryNode(root) && g(root) == map[n1 := w, n2 := r] && LexLess(n1, n2)
    && Verifier(p, w).Some? && Verifier(p, r) == Verifier(p, w)
  }

  lemma FirstStep(g: Listing, n: Node, name: string, path: seq<string>)
    requires IsDirectoryNode(n) && name in g(n)
    ensures Resolve(g, n, [name] + path) == Resolve(g, g(n)[name], path)
  {
    assert ([name] + path)[1..] == path;
  }

  /** Nothing is handed over through the second cap. */
  lemma OnlyThroughFirst(p: Primitives, g: Listing, root: Node, w: Node, r: Node, n1: string, n2: string, events: seq<Event>, n: Node, path: seq<string>)
    requires LinksTwice(p, g, root, w, r, n1, n2) && WalkIs(p, g, root, events) && AddNode(n, path) in events
    ensures n == root || (path != [] && Resolve(g, w, path[1..]) == Some(n))
  {
    hide WalkIs, Verifier, LexLess, Resolve;
    EventResolves(p, g, root, events, n, path);
    SecondIsSkipped(p, g, root, events, n1, n2);
    NotAtSecond(events, n, path, n2);
    if path == [] {
      ResolveNothing(g, root);
    } else {
      BeginsWithLink(g, root, path);
    }
  }

  lemma NotAtSecond(events: seq<Event>, n: Node, path: seq<string>, name: string)
    requires NoneAt([], name, events) && AddNode(n, path) in events
    ensures path != [] ==> path[0] != name
  {
    var i :| 0 <= i < |events| && events[i] == AddNode(n, path);
    assert path != [] ==> Below([], events[i]) && Head([], events[i]) == path[0];
  }

  lemma BeginsWithLink(g: Listing, n: Node, path: seq<string>)
    requires path != [] && Resolve(g, n, path).Some?
    ensures IsDirectoryNode(n) && path[0] in g(n) && Resolve(g, n, path) == Resolve(g, g(n)[path[0]], path[1..])
  {
  }

  lemma SecondIsSkipped(p: Primitives, g: Listing, root: Node, events: seq<Event>, n1: string, n2: string)
    requires WalkIs(p, g, root, events) && IsDirectoryNode(root) && SameTarget(p, g, root, n1, n2) && LexLess(n1, n2)
    ensures NoneAt([], n2, events)
  {
    hide Reported, Verifier, PathsResolve, ChildrenGiven, WalksFrom, DistinctPaths, SameTarget, LexLess;
    var i :| 0 <= i < |events| && events[i] == AddNode(root, []);
    assert SecondSkipped(p, g, root, [], events);
  }

  /**
   * A converse of coverage: whenever an object can be reached through one cap of
   * a directory and not through another, a directory that links to both, the
   * other one first, is a root from which that object is missed.
   */
  lemma CoverageNeedsAgreement(p: Primitives, g: Listing, root: Node, w: Node, r: Node, n1: string, n2: string, v: Cap, events: seq<Event>)
    requires LinksTwice(p, g, root, w, r, n1, n2) && WalkIs(p, g, root, events)
    requires Reaches(p, g, r, v) && !Reaches(p, g, w, v) && Verifier(p, root) != Some(v)
    ensures Reaches(p, g, root, v) && v !in Reported(p, events) && !CoversAll(p, g, root, events)
  {
    hide WalkIs, Verifier, Resolve, Reported, LexLess;
    var q :| Resolve(g, r, q).Some? && Verifier(p, Resolve(g, r, q).value) == Some(v);
    FirstStep(g, root, n2, q);
    var path := [n2] + q;
    assert Resolve(g, root, path).Some? && Verifier(p, Resolve(g, root, path).value) == Some(v);
    if v in Reported(p, events) {
      ReportedHasEvent(p, events, v);
      var i :| 0 <= i < |events| && ReportedBy(p, events[i]) == [v];
      OnlyThroughFirst(p, g, root, w, r, n1, n2, events, events[i].node, events[i].path);
      assert false;
    }
    assert multiset(Reported(p, events))[v] == 0;
  }
}
