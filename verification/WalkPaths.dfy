/** A walk is a pre-order walk of the paths, and each object is given under the first of its paths with one exception. */
module WalkPaths {
  import opened Basics
  import opened Sorting
  import opened Caps
  import opened Nodes
  import opened WalkTrace
  import opened WalkOrder
  import opened Traversal

  // ---- The order of paths -------------------------------------------------

  /**
   * The path `a` comes before `b`, both from `d`: it leads to where `b` leads
   * through, or where they part its name comes first.
   */
  predicate PathBefore(g: Listing, d: Node, a: seq<string>, b: seq<string>)
    decreases |a|
  {
    && b != []
    && (a == [] ||
        if a[0] == b[0] then a[0] in g(d) && PathBefore(g, g(d)[a[0]], a[1..], b[1..])
        else ComesFirst(g, d, a[0], b[0]))
  }

  /** What two paths have in common does not matter. */
  lemma {:induction false} PathBeforeAfter(g: Listing, root: Node, c: seq<string>, a: seq<string>, b: seq<string>)
    requires Resolve(g, root, c).Some? && c <= a && c <= b
    ensures PathBefore(g, root, a, b) <==> PathBefore(g, Resolve(g, root, c).value, a[|c|..], b[|c|..])
    decreases |c|
  {
    if c == [] {
      assert a[0..] == a && b[0..] == b;
    } else {
      PathBeforeAfter(g, g(root)[c[0]], c[1..], a[1..], b[1..]);
      assert a[1..][|c| - 1..] == a[|c|..] && b[1..][|c| - 1..] == b[|c|..];
    }
  }

  /** Of two different children one comes first, and not the other. */
  lemma ChildrenCompared(g: Listing, d: Node, n1: string, n2: string)
    requires n1 in g(d) && n2 in g(d) && n1 != n2
    ensures ComesFirst(g, d, n1, n2) <==> !ComesFirst(g, d, n2, n1)
  {
    LexTotal(n1, n2);
  }

  /** Two paths that part at a directory. */
  lemma PartedPaths(g: Listing, root: Node, c: seq<string>, a: seq<string>, b: seq<string>)
    requires c <= a && c <= b && |c| < |a| && |c| < |b| && a[|c|] != b[|c|]
    requires Resolve(g, root, c).Some?
    ensures PathBefore(g, root, a, b) <==> ComesFirst(g, Resolve(g, root, c).value, a[|c|], b[|c|])
  {
    hide ComesFirst, Resolve;
    PathBeforeAfter(g, root, c, a, b);
  }

  lemma PrefixFirst(g: Listing, root: Node, a: seq<string>, b: seq<string>)
    requires a <= b && a != b && Resolve(g, root, a).Some?
    ensures PathBefore(g, root, a, b)
  {
    hide Resolve;
    PathBeforeAfter(g, root, a, a, b);
  }

  lemma LongerNotFirst(g: Listing, root: Node, a: seq<string>, b: seq<string>)
    requires b <= a && Resolve(g, root, b).Some?
    ensures !PathBefore(g, root, a, b)
  {
    hide Resolve;
    PathBeforeAfter(g, root, b, a, b);
  }

  /** How far two paths agree. */
  function Common(a: seq<string>, b: seq<string>): (k: nat)
    ensures k <= |a| && k <= |b| && a[..k] == b[..k] && (k < |a| && k < |b| ==> a[k] != b[k])
  {
    if a == [] || b == [] || a[0] != b[0] then 0
    else
      assert a == [a[0]] + a[1..] && b == [b[0]] + b[1..];
      var k := Common(a[1..], b[1..]);
      assert a[..k + 1] == [a[0]] + a[1..][..k] && b[..k + 1] == [b[0]] + b[1..][..k];
      k + 1
  }

  /** A path that leads somewhere leads through directories. */
  lemma {:induction false} ResolvePrefix(g: Listing, root: Node, path: seq<string>, k: nat)
    requires Resolve(g, root, path).Some? && k <= |path|
    ensures Resolve(g, root, path[..k]).Some?
    ensures k < |path| ==>
      var d := Resolve(g, root, path[..k]).value; IsDirectoryNode(d) && path[k] in g(d)
    decreases |path|
  {
    if k > 0 {
      ResolvePrefix(g, g(root)[path[0]], path[1..], k - 1);
      assert path[..k][1..] == path[1..][..k - 1];
    }
  }

  // ---- The walk is in pre-order -------------------------------------------

  /** What is on the way to something handed over was handed over too. */
  lemma {:induction false} PrefixGiven(p: Primitives, g: Listing, root: Node, events: seq<Event>, i: nat, k: nat) returns (j: nat)
    requires WalkIs(p, g, root, events) && i < |events| && events[i].AddNode? && k <= |events[i].path|
    ensures j < |events| && events[j].AddNode? && events[j].path == events[i].path[..k]
    ensures k < |events[i].path| ==> IsDirectoryNode(events[j].node) && events[i].path[k] in g(events[j].node)
    ensures Resolve(g, root, events[i].path[..k]) == Some(events[j].node)
    decreases |events[i].path|
  {
    hide Resolve, Reported, Verifier, ChildrenGiven, DistinctPaths, FirstWins, Ordered, Earliest, IsDirectoryNode;
    var path := events[i].path;
    ResolvePrefix(g, root, path, k);
    if k == |path| {
      j := i;
      assert path[..k] == path;
    } else {
      assert HasPath(events, Init(path));
      var m :| 0 <= m < |events| && events[m].AddNode? && events[m].path == Init(path);
      j := PrefixGiven(p, g, root, events, m, k);
      assert Init(path)[..k] == path[..k];
    }
  }

  lemma SameEvent(p: Primitives, g: Listing, root: Node, events: seq<Event>, i: nat, j: nat)
    requires WalkIs(p, g, root, events) && i < |events| && j < |events| && events[i].AddNode? && events[j].AddNode?
    requires events[i].path == events[j].path
    ensures i == j
  {
    hide Resolve, Reported, Verifier, ChildrenGiven, WalksFrom, FirstWins, Ordered, Earliest;
  }

  lemma OrderAt(p: Primitives, g: Listing, root: Node, events: seq<Event>, i: nat)
    requires WalkIs(p, g, root, events) && i < |events| && events[i].AddNode? && IsDirectoryNode(events[i].node)
    ensures InOrder(g, events[i].node, events[i].path, events) && NoneBefore(events, i)
  {
    hide Resolve, Reported, Verifier, ChildrenGiven, WalksFrom, FirstWins, DistinctPaths, Earliest, InOrder, NoneBefore;
  }

  /** What is below something comes after it. */
  lemma BelowIsAfter(p: Primitives, g: Listing, root: Node, events: seq<Event>, i: nat, j: nat)
    requires WalkIs(p, g, root, events) && i < |events| && j < |events| && events[j].AddNode? && Below(events[j].path, events[i])
    ensures j < i
  {
    hide WalkIs, InOrder, Resolve;
    var m := PrefixGiven(p, g, root, events, i, |events[j].path|);
    SameEvent(p, g, root, events, m, j);
    OrderAt(p, g, root, events, j);
  }

  /** Every walk hands things over in the order of their paths. */
  lemma GivenInPathOrder(p: Primitives, g: Listing, root: Node, events: seq<Event>, i: nat, j: nat)
    requires WalkIs(p, g, root, events) && i < j < |events| && events[i].AddNode? && events[j].AddNode?
    ensures PathBefore(g, root, events[i].path, events[j].path)
  {
    hide WalkIs, Resolve, ComesFirst, IsDirectoryNode, PathBefore;
    var a, b := events[i].path, events[j].path;
    var k := Common(a, b);
    var m := PrefixGiven(p, g, root, events, i, k);
    assert a[..|a|] == a && b[..|b|] == b;
    if a == b {
      SameEvent(p, g, root, events, i, j);
    } else if k == |a| {
      PrefixFirst(g, root, a, b);
    } else if k == |b| {
      BelowIsAfter(p, g, root, events, i, j);
    } else {
      var c := a[..k];
      OrderAt(p, g, root, events, m);
      assert Below(c, events[i]) && Below(c, events[j]) && Head(c, events[i]) == a[k] && Head(c, events[j]) == b[k];
      PartedPaths(g, root, c, a, b);
    }
  }

  // ---- Several links to one object ----------------------------------------

  /** `events[j]` is a directory that links to the object of `events[x]` under `n`. */
  ghost predicate AlsoLinked(p: Primitives, g: Listing, events: seq<Event>, x: nat, j: nat, n: string) {
    && x < |events| && events[x].AddNode? && Verifier(p, events[x].node).Some?
    && j < |events| && events[j].AddNode? && IsDirectoryNode(events[j].node)
    && n in g(events[j].node) && Verifier(p, g(events[j].node)[n]) == Verifier(p, events[x].node)
  }

  /**
   * Among all links to an object from directories handed over, it is given under
   * one from the directory that comes first, and there under the first name.
   */
  lemma GivenAtFirstLink(p: Primitives, g: Listing, root: Node, events: seq<Event>, x: nat, j: nat, n: string, k: nat)
    requires WalkIs(p, g, root, events) && AlsoLinked(p, g, events, x, j, n) && events[x].path != []
    requires k < |events| && events[k].AddNode? && events[k].path == Init(events[x].path)
    ensures k < j || (k == j && (n == events[x].path[|events[x].path| - 1] || LexLess(events[x].path[|events[x].path| - 1], n)))
  {
    hide Resolve, Reported, Verifier, ChildrenGiven, WalksFrom, Ordered, FirstWins;
    var path := events[x].path;
    var last := path[|path| - 1];
    assert LinksTo(p, g, events[j].node, Verifier(p, events[x].node).value);
    assert NotLater(p, g, events, x, j, k);
    if k == j {
      FirstNameCounts(p, g, root, events, x, j, n);
      LexTotal(last, n);
    }
  }

  lemma FirstNameCounts(p: Primitives, g: Listing, root: Node, events: seq<Event>, x: nat, j: nat, n: string)
    requires WalkIs(p, g, root, events) && AlsoLinked(p, g, events, x, j, n)
    requires events[x].path != [] && events[j].path == Init(events[x].path)
    ensures !LexLess(n, events[x].path[|events[x].path| - 1])
  {
    hide Resolve, Reported, Verifier, ChildrenGiven, WalksFrom, Ordered, Earliest, LexLess;
    var path := events[x].path;
    var q, last := Init(path), path[|path| - 1];
    assert path == q + [last];
    ResolveStep(g, root, q, last);
    assert SameTarget(p, g, events[j].node, n, last);
    assert SecondSkipped(p, g, events[j].node, q, events);
    KidBelow(q, events[x].node, last);
  }

  /** The directory an object was found in has a child that comes before the object, and `q` is at or below that child. */
  predicate UnderEarlierSibling(g: Listing, root: Node, path: seq<string>, q: seq<string>) {
    && path != [] && Init(path) <= q && |path| <= |q| && Resolve(g, root, Init(path)).Some?
    && ComesFirst(g, Resolve(g, root, Init(path)).value, q[|path| - 1], path[|path| - 1])
  }

  /** Paths that part before the last name of `a` compare as they do without their last names. */
  lemma PartedEarly(g: Listing, root: Node, a: seq<string>, q: seq<string>, n: string)
    requires a != [] && Resolve(g, root, Init(a)).Some? && Resolve(g, root, q).Some? && !(Init(a) <= q)
    requires PathBefore(g, root, Init(a), q)
    ensures PathBefore(g, root, a, q + [n])
  {
    hide Resolve, ComesFirst, PathBefore;
    var c := Init(a);
    var k := Common(c, q);
    assert c[..|c|] == c && q[..|q|] == q;
    if k == |q| {
      LongerNotFirst(g, root, c, q);
    } else if k < |c| {
      ResolvePrefix(g, root, c, k);
      PartedPaths(g, root, c[..k], c, q);
      assert a[..k] == c[..k] && (q + [n])[..k] == q[..k];
      PartedPaths(g, root, c[..k], a, q + [n]);
    }
  }

  /**
   * Under which path an object is given. It comes before the path of any other
   * link to the object from a directory handed over, if and only if that link is
   * not under an earlier sibling: the children of a directory are all noted
   * before any of its subdirectories is walked.
   */
  lemma GivenFirstIff(p: Primitives, g: Listing, root: Node, events: seq<Event>, x: nat, j: nat, n: string)
    requires WalkIs(p, g, root, events) && AlsoLinked(p, g, events, x, j, n) && events[x].path != events[j].path + [n]
    ensures var path, other := events[x].path, events[j].path + [n];
      PathBefore(g, root, path, other) <==> !UnderEarlierSibling(g, root, path, other)
  {
    hide Reported, Verifier, WalkIs, IsDirectoryNode, ComesFirst;
    var path, q := events[x].path, events[j].path;
    var other := q + [n];
    if path != [] {
      var c, last := Init(path), path[|path| - 1];
      var k := PrefixGiven(p, g, root, events, x, |c|);
      var j' := PrefixGiven(p, g, root, events, j, |q|);
      assert path[..|c|] == c && q[..|q|] == q;
      var d := events[k].node;
      GivenAtFirstLink(p, g, root, events, x, j, n, k);
      if c <= q {
        assert q[..|c|] == c;
        OtherNames(p, g, root, events, j, n, |c|);
        if other[|c|] == last {
          assert path == c + [last] && path <= other;
          EventResolves(p, g, root, events, events[x].node, path);
          PrefixFirst(g, root, path, other);
          NotBeforeItself(g, d, last);
        } else {
          PartedPaths(g, root, c, path, other);
          ChildrenCompared(g, d, last, other[|c|]);
        }
      } else {
        GivenInPathOrder(p, g, root, events, k, j);
        PartedEarly(g, root, path, q, n);
        if c <= other && |c| <= |q| {
          PrefixShorter(c, q, n);
        }
      }
    }
  }

  lemma PrefixShorter(c: seq<string>, q: seq<string>, n: string)
    requires c <= q + [n] && |c| <= |q|
    ensures c <= q
  {
    assert (q + [n])[..|c|] == q[..|c|];
  }

  lemma NotBeforeItself(g: Listing, d: Node, n: string)
    ensures !ComesFirst(g, d, n, n)
  {
  }

  /** Every name on the way to a link of a directory handed over is a child of what was handed over there. */
  lemma OtherNames(p: Primitives, g: Listing, root: Node, events: seq<Event>, j: nat, n: string, k: nat)
    requires WalkIs(p, g, root, events) && j < |events| && events[j].AddNode? && n in g(events[j].node) && k <= |events[j].path|
    ensures Resolve(g, root, events[j].path[..k]).Some?
    ensures (events[j].path + [n])[k] in g(Resolve(g, root, events[j].path[..k]).value)
  {
    hide WalkIs, Resolve;
    var q := events[j].path;
    assert q[..|q|] == q;
    var m := PrefixGiven(p, g, root, events, j, k);
    EventResolves(p, g, root, events, events[j].node, q);
  }

  /** So what is no directory is always given under the first of its paths. */
  lemma FileGivenFirst(p: Primitives, g: Listing, root: Node, events: seq<Event>, x: nat, j: nat, n: string)
    requires WalkIs(p, g, root, events) && AlsoLinked(p, g, events, x, j, n) && events[x].path != events[j].path + [n]
    requires !IsDirectoryNode(events[x].node)
    ensures PathBefore(g, root, events[x].path, events[j].path + [n])
  {
    hide Reported, WalkIs, Resolve, Verifier, LexLess;
    var path, q := events[x].path, events[j].path;
    var other := q + [n];
    GivenFirstIff(p, g, root, events, x, j, n);
    if path != [] && Init(path) <= other && |path| <= |other| {
      var c, last := Init(path), path[|path| - 1];
      assert c <= q;
      assert path[..|c|] == c && q[..|c|] == c && path == c + [last];
      var k := PrefixGiven(p, g, root, events, x, |c|);
      EventResolves(p, g, root, events, events[x].node, path);
      ResolveStep(g, root, c, last);
      KnownHasRank(p, events[x].node);
      if |c| == |q| {
        GivenAtFirstLink(p, g, root, events, x, j, n, k);
        SameEvent(p, g, root, events, k, j);
        KnownHasRank(p, g(events[j].node)[n]);
        LexTotal(last, n);
        assert !ComesFirst(g, events[k].node, n, last) by { NotBoth(last, n); }
      } else {
        StepIsDirectory(p, g, root, events, j, |c|);
      }
    }
  }

  lemma KnownHasRank(p: Primitives, n: Node)
    requires Verifier(p, n).Some?
    ensures Rank(n) >= 1
  {
  }

  lemma NotBoth(a: string, b: string)
    ensures !(LexLess(a, b) && LexLess(b, a))
  {
    LexTotal(a, b);
  }

  /** The way to a directory handed over leads through directories. */
  lemma StepIsDirectory(p: Primitives, g: Listing, root: Node, events: seq<Event>, j: nat, k: nat)
    requires WalkIs(p, g, root, events) && j < |events| && events[j].AddNode? && IsDirectoryNode(events[j].node) && k < |events[j].path|
    ensures Resolve(g, root, events[j].path[..k]).Some?
    ensures var d := Resolve(g, root, events[j].path[..k]).value;
      events[j].path[k] in g(d) && IsDirectoryNode(g(d)[events[j].path[k]])
  {
    hide WalkIs, Resolve;
    var q := events[j].path;
    var m := PrefixGiven(p, g, root, events, j, k);
    var m' := PrefixGiven(p, g, root, events, j, k + 1);
    assert q[..k + 1] == q[..k] + [q[k]];
    ResolveStep(g, root, q[..k], q[k]);
    if k + 1 == |q| {
      assert q[..k + 1] == q;
      EventResolves(p, g, root, events, events[j].node, q);
    }
  }

  // ---- Two examples -------------------------------------------------------

  lemma GivenSomewhere(p: Primitives, g: Listing, root: Node, events: seq<Event>, d: Node, q: seq<string>, name: string) returns (i: nat)
    requires WalkIs(p, g, root, events) && AddNode(d, q) in events && IsDirectoryNode(d)
    requires name in g(d) && Verifier(p, g(d)[name]).Some?
    ensures i < |events| && events[i].AddNode? && Verifier(p, events[i].node) == Verifier(p, g(d)[name])
    ensures Resolve(g, root, events[i].path) == Some(events[i].node)
  {
    hide Resolve, Reported, Verifier, WalksFrom, DistinctPaths, FirstWins, Ordered, Earliest;
    var j :| 0 <= j < |events| && events[j] == AddNode(d, q);
    assert ChildrenGiven(p, g, d, q, events);
    ReportedHasEvent(p, events, Verifier(p, g(d)[name]).value);
    i :| 0 <= i < |events| && ReportedBy(p, events[i]) == [Verifier(p, g(d)[name]).value];
  }

  /** Two directories "a" and "b" under one root. */
  ghost predicate TwoDirectories(p: Primitives, g: Listing, root: Node, a: Node, b: Node) {
    && IsDirectoryNode(root) && IsDirectoryNode(a) && IsDirectoryNode(b) && g(root) == map["a" := a, "b" := b]
    && Verifier(p, root).Some? && Verifier(p, a).Some? && Verifier(p, b).Some?
    && Verifier(p, root) != Verifier(p, a) && Verifier(p, a) != Verifier(p, b) && Verifier(p, b) != Verifier(p, root)
  }

  lemma {:induction false} SharedPaths(p: Primitives, g: Listing, root: Node, a: Node, b: Node, f: Node, path: seq<string>)
    requires TwoDirectories(p, g, root, a, b) && !IsDirectoryNode(f) && g(a) == map["f" := f] && g(b) == map["f" := f]
    requires Resolve(g, root, path).Some?
    ensures
      || (path == [] && Resolve(g, root, path) == Some(root))
      || (path == ["a"] && Resolve(g, root, path) == Some(a)) || (path == ["b"] && Resolve(g, root, path) == Some(b))
      || (path in [["a", "f"], ["b", "f"]] && Resolve(g, root, path) == Some(f))
  {
    hide Verifier, IsDirectoryNode;
    if path != [] {
      var rest := path[1..];
      assert path == [path[0]] + rest;
      if rest == [] {
        assert path == [path[0]];
      } else {
        assert Resolve(g, root, path) == Resolve(g, g(root)[path[0]], rest);
        assert rest[1..] == [] by { assert Resolve(g, g(g(root)[path[0]])[rest[0]], rest[1..]).Some?; }
        assert path == [path[0], rest[0]];
      }
    }
  }

  /** A file that "a" and "b" both link to as "f" is given as "a/f". */
  lemma SharedFile(p: Primitives, g: Listing, root: Node, a: Node, b: Node, f: Node, events: seq<Event>)
    requires TwoDirectories(p, g, root, a, b) && !IsDirectoryNode(f) && g(a) == map["f" := f] && g(b) == map["f" := f]
    requires Verifier(p, f).Some? && Verifier(p, f) !in {Verifier(p, root), Verifier(p, a), Verifier(p, b)}
    requires WalkIs(p, g, root, events)
    ensures AddNode(f, ["a", "f"]) in events
  {
    hide WalkIs, Resolve, Verifier, LexLess;
    RootGiven(p, g, root, events);
    var i := GivenSomewhere(p, g, root, events, root, [], "a");
    SharedPaths(p, g, root, a, b, f, events[i].path);
    assert events[i] == AddNode(a, ["a"]);
    var x := GivenSomewhere(p, g, root, events, a, ["a"], "f");
    SharedPaths(p, g, root, a, b, f, events[x].path);
    assert ["a"] + ["f"] == ["a", "f"] && ["b"] + ["f"] == ["b", "f"];
    if events[x].path == ["b", "f"] {
      FileGivenFirst(p, g, root, events, x, i, "f");
      BeforeInRoot(g, root, "b", ["f"], "a", ["f"]);
      LettersInOrder();
    }
  }

  lemma BeforeInRoot(g: Listing, root: Node, n1: string, q1: seq<string>, n2: string, q2: seq<string>)
    requires n1 != n2
    ensures PathBefore(g, root, [n1] + q1, [n2] + q2) <==> ComesFirst(g, root, n1, n2)
  {
    hide ComesFirst;
  }

  lemma LettersInOrder()
    ensures LexLess("a", "b") && !LexLess("b", "a")
  {
  }

  lemma {:induction false} NestedPaths(p: Primitives, g: Listing, root: Node, a: Node, b: Node, path: seq<string>)
    requires TwoDirectories(p, g, root, a, b) && g(a) == map["x" := b] && g(b) == map[]
    requires Resolve(g, root, path).Some?
    ensures
      || (path == [] && Resolve(g, root, path) == Some(root)) || (path == ["a"] && Resolve(g, root, path) == Some(a))
      || (path in [["b"], ["a", "x"]] && Resolve(g, root, path) == Some(b))
  {
    hide Verifier, IsDirectoryNode;
    if path != [] {
      var rest := path[1..];
      assert path == [path[0]] + rest;
      if rest == [] {
        assert path == [path[0]];
      } else {
        assert Resolve(g, root, path) == Resolve(g, g(root)[path[0]], rest);
        assert rest[1..] == [] by { assert Resolve(g, g(g(root)[path[0]])[rest[0]], rest[1..]).Some?; }
        assert path == [path[0], rest[0]];
      }
    }
  }

  /** A directory linked as "a/x" and as "b" is given as "b", though "a/x" comes first. */
  lemma SiblingLinked(p: Primitives, g: Listing, root: Node, a: Node, b: Node, events: seq<Event>)
    requires TwoDirectories(p, g, root, a, b) && g(a) == map["x" := b] && g(b) == map[]
    requires WalkIs(p, g, root, events)
    ensures AddNode(b, ["b"]) in events && AddNode(a, ["a"]) in events
    ensures PathBefore(g, root, ["a", "x"], ["b"]) && !PathBefore(g, root, ["b"], ["a", "x"])
  {
    hide WalkIs, Resolve, Verifier, LexLess;
    RootGiven(p, g, root, events);
    var r :| 0 <= r < |events| && events[r] == AddNode(root, []);
    var i := GivenSomewhere(p, g, root, events, root, [], "a");
    NestedPaths(p, g, root, a, b, events[i].path);
    var x := GivenSomewhere(p, g, root, events, root, [], "b");
    NestedPaths(p, g, root, a, b, events[x].path);
    if events[x].path == ["a", "x"] {
      assert Init(["a", "x"]) == ["a"];
      BelowIsAfter(p, g, root, events, i, r);
      GivenAtFirstLink(p, g, root, events, x, r, "b", i);
    }
    LettersInOrder();
    assert ["a"] + ["x"] == ["a", "x"] && ["b"] + [] == ["b"];
    BeforeInRoot(g, root, "a", ["x"], "b", []);
    BeforeInRoot(g, root, "b", [], "a", ["x"]);
  }
}
