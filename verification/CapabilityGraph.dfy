/**
 * The graph that stored directories make: it is always finite, its literal
 * directories nest finitely, and when the nodes for one object list alike.
 */
module CapabilityGraph {
  import opened Basics
  import opened NetstringCodec
  import opened Sorting
  import opened Caps
  import opened CapProofs
  import opened Nodes
  import opened Directory
  import opened DirectoryProofs
  import opened FreshPacking
  import opened ModifierProofs
  import opened ReaderViews
  import opened WalkTrace
  import opened Traversal

  // ---- Literal directories nest finitely ----------------------------------

  lemma {:induction false} SplitElementShorter(d: Bytes, want: nat, got: nat, k: nat)
    requires SplitFrom(d, want, got).Some? && k < |SplitFrom(d, want, got).value.0|
    ensures |SplitFrom(d, want, got).value.0[k]| < |d|
    decreases |d|
  {
    hide TakeNetstring;
    if d != "" {
      var (element, rest) := TakeNetstring(d).value;
      SplitStep(d, want, got, element, rest);
      if got + 1 != want && k > 0 {
        SplitElementShorter(rest, want, got + 1, k - 1);
      }
    }
  }

  lemma {:induction false} RawShorter(e: Env, view: View, data: Bytes, acc: Children, bound: nat)
    requires UnpackFrom(e, view, data, acc).Some? && |data| <= bound
    requires forall n :: n in acc ==> acc[n].raw.Some? && |acc[n].raw.value| < bound
    ensures var r := UnpackFrom(e, view, data, acc).value;
      forall n :: n in r ==> r[n].raw.Some? && |r[n].raw.value| < bound
    decreases |data|
  {
    hide DecodeEntry, UnpackFrom, SplitFrom;
    UnpackStep(e, view, data, acc);
    if data != "" {
      var (entries, rest) := SplitFrom(data, 1, 0).value;
      SplitElementShorter(data, 1, 0, 0);
      RawShorter(e, view, rest, AddDecoded(acc, entries[0], DecodeEntry(e, view, entries[0])), bound);
    }
  }

  lemma LiteralShorterThanUnprefixed(p: Primitives, u: Bytes, s: Bytes, canBeMutable: bool, canBeWriteable: bool)
    requires Laws(p) && FromUnprefixed(p, u, s, canBeMutable, canBeWriteable).KnownUri?
    requires FromUnprefixed(p, u, s, canBeMutable, canBeWriteable).cap.f.LIT?
    ensures |FromUnprefixed(p, u, s, canBeMutable, canBeWriteable).cap.f.data| < |s|
  {
    hide Dispatch, ParseBits, Prefix, Laws;
    var (dir, k) := Dispatch(s).value;
    PrefixNotEmpty(dir, k);
    LiteralShorterThanBits(p, k, s[|Prefix(dir, k)|..]);
  }

  lemma PrefixNotEmpty(dir: bool, k: Kind)
    ensures |Prefix(dir, k)| > 0
  {
  }

  lemma LiteralShorterThanBits(p: Primitives, k: Kind, bits: Bytes)
    requires Laws(p) && ParseBits(p, k, bits).Some? && ParseBits(p, k, bits).value.LIT?
    ensures |ParseBits(p, k, bits).value.data| <= |bits|
  {
    hide MatchKeys, Finish, Laws, IsAnyBytes;
    ParsedWellFormed(p, k, bits);
    LiteralDecodes(p, MatchLiteral(bits).value);
  }

  /** A literal cap carries its data: the data is shorter than the string. */
  lemma LiteralShorterThanString(p: Primitives, u: Bytes, deepImmutable: bool)
    requires Laws(p) && FromString(p, u, deepImmutable).KnownUri? && FromString(p, u, deepImmutable).cap.f.LIT?
    ensures |FromString(p, u, deepImmutable).cap.f.data| < |u|
  {
    hide FromUnprefixed;
    if IMM <= u {
      LiteralShorterThanUnprefixed(p, u, u[|IMM|..], false, false);
    } else if RO <= u {
      LiteralShorterThanUnprefixed(p, u, u[|RO|..], !deepImmutable, false);
    } else {
      LiteralShorterThanUnprefixed(p, u, u, !deepImmutable, !deepImmutable);
    }
  }

  lemma LiteralShorterThanEntry(e: Env, entry: Bytes)
    requires Laws(e.caps) && DecodeEntry(e, Immutable, entry).Kept? && IsLiteral(DecodeEntry(e, Immutable, entry).node)
    ensures LiteralLength(DecodeEntry(e, Immutable, entry).node) < |entry|
  {
    hide SplitFrom, FromString, UnknownFrom, Laws;
    var f := SplitFrom(entry, 4, 0).value.0;
    SplitElementShorter(entry, 4, 0, 1);
    var ro := StripSpaces(f[1]);
    StripNothing();
    UnknownFits(e.caps, None, OrNone(Some(ro)), true);
    LiteralShorterThanString(e.caps, ro, true);
  }

  /**
   * A literal directory holds its own contents, so the literal objects linked
   * from it are shorter than it: literal directories cannot be nested for ever.
   */
  lemma LiteralNestingIsFinite(e: Env, data: Bytes, name: string)
    requires Laws(e.caps) && Unpacked(e, Immutable, data).Some? && name in Unpacked(e, Immutable, data).value
    ensures LiteralLength(Unpacked(e, Immutable, data).value[name].node) < |data|
  {
    hide DecodeEntry, UnpackFrom;
    var slot := Unpacked(e, Immutable, data).value[name];
    RawShorter(e, Immutable, data, map[], |data|);
    UnpackedSlots(e, Immutable, data, map[]);
    assert ReadFrom(e, Immutable, name, slot);
    if IsLiteral(slot.node) {
      LiteralShorterThanEntry(e, slot.raw.value);
    }
  }

  // ---- The listing that stored contents give ------------------------------

  /** The contents of the directories that are stored, by verify cap: all caps of one directory get the same bytes. */
  type Grid = map<Cap, Bytes>

  predicate IsDirectoryCap(c: Cap) {
    c.Dir? && !IsVerifier(c)
  }

  function ViewOf(c: Cap): View
    requires IsDirectoryCap(c)
  {
    match c.f
    case SSK(writekey, _) => Writer(writekey)
    case MDMF(writekey, _) => Writer(writekey)
    case SSKRo(_, _) => Reader
    case MDMFRo(_, _) => Reader
    case CHK(_, _, _, _, _) => Immutable
    case LIT(_) => Immutable
  }

  /** What can be read through a cap; nothing is in a directory that is not stored. */
  function ContentsOf(p: Primitives, grid: Grid, c: Cap): Bytes
    requires IsDirectoryCap(c)
  {
    match VerifyCap(p, c)
    case None => c.f.data
    case Some(v) => if v in grid then grid[v] else ""
  }

  function NodesOf(children: Children): map<string, Node> {
    map name | name in children :: children[name].node
  }

  /** The children that listing a node gives; none if its contents cannot be unpacked. */
  function ListingFor(e: Env, grid: Grid, n: Node): map<string, Node> {
    if IsDirectoryNode(n) && IsDirectoryCap(n.cap) then
      match Unpacked(e, ViewOf(n.cap), ContentsOf(e.caps, grid, n.cap))
      case None => map[]
      case Some(children) => NodesOf(children)
    else map[]
  }

  function ListingOf(e: Env, grid: Grid): Listing {
    n => ListingFor(e, grid, n)
  }

  /** What is known of every node that some directory lists. */
  ghost predicate IsListed(e: Env, n: Node) {
    n.Unknown? || (n == Guarded(e.caps, e.blacklist, n.cap) && IsCreatable(n.cap) && WellFormed(n.cap.f))
  }

  lemma ListedNode(e: Env, grid: Grid, d: Node, name: string)
    requires Laws(e.caps) && name in ListingFor(e, grid, d)
    ensures IsListed(e, ListingFor(e, grid, d)[name])
  {
    hide Unpacked, SplitFrom, NodeFor, StripSpaces, Laws, DecryptRwcapdata, ContentsOf, IsListed;
    var view := ViewOf(d.cap);
    var data := ContentsOf(e.caps, grid, d.cap);
    ReadChildren(e, view, data);
    var slot := Unpacked(e, view, data).value[name];
    assert ReadFrom(e, view, name, slot);
    var f := SplitFrom(slot.raw.value, 4, 0).value.0;
    var rw := if view.Writer? then DecryptRwcapdata(e, view.writekey, f[2]) else "";
    NodeIsListed(e, OrNone(Some(StripSpaces(rw))), OrNone(Some(StripSpaces(f[1]))), view.Immutable?);
  }

  /** Neither mutable nor with a write cap. */
  ghost predicate IsImmutableNode(n: Node) {
    if n.Unknown? then n.error.None? && n.rw.None? else !IsMutable(n.cap)
  }

  /** Deep immutability: whatever path is followed from an immutable directory, it leads to nothing mutable. */
  lemma {:induction false} ImmutableThroughout(e: Env, grid: Grid, n: Node, path: seq<string>)
    requires Laws(e.caps) && IsDirectoryNode(n) && IsDirectoryCap(n.cap) && !IsMutable(n.cap)
    requires Resolve(ListingOf(e, grid), n, path).Some?
    ensures IsImmutableNode(Resolve(ListingOf(e, grid), n, path).value)
    decreases |path|
  {
    hide Laws, Unpacked, ContentsOf;
    if path != [] {
      var child := ListingFor(e, grid, n)[path[0]];
      assert ViewOf(n.cap) == Immutable;
      ImmutableViewIsSafe(e, ContentsOf(e.caps, grid, n.cap), path[0]);
      ListedNode(e, grid, n, path[0]);
      assert Resolve(ListingOf(e, grid), n, path) == Resolve(ListingOf(e, grid), child, path[1..]);
      if path[1..] != [] {
        ImmutableThroughout(e, grid, child, path[1..]);
      }
    }
  }

  lemma NodeIsListed(e: Env, writecap: Option<Bytes>, readcap: Option<Bytes>, deepImmutable: bool)
    requires Laws(e.caps)
    ensures IsListed(e, NodeFor(e.caps, e.blacklist, writecap, readcap, deepImmutable))
  {
    hide NodeFor, Laws, WellFormed;
    KnownNodeKind(e.caps, e.blacklist, writecap, readcap, deepImmutable);
    NodeIsGuarded(e, writecap, readcap, deepImmutable);
  }

  lemma NodeIsGuarded(e: Env, writecap: Option<Bytes>, readcap: Option<Bytes>, deepImmutable: bool)
    ensures var n := NodeFor(e.caps, e.blacklist, writecap, readcap, deepImmutable);
      !n.Unknown? ==> n == Guarded(e.caps, e.blacklist, n.cap)
  {
    hide FromString, StorageIndex, UnknownFrom;
    UnknownFits(e.caps, writecap, readcap, deepImmutable);
  }

  // ---- The graph is finite ------------------------------------------------

  function WithByte(s: Bytes, b: int): Bytes
    requires 0 <= b < 256
  {
    s + [b as char]
  }

  function ByteStrings(n: nat): set<Bytes> {
    if n == 0 then {""} else set s, b: int | s in ByteStrings(n - 1) && 0 <= b < 256 :: WithByte(s, b)
  }

  lemma {:induction false} AllByteStrings(s: Bytes)
    requires IsByteString(s)
    ensures s in ByteStrings(|s|)
  {
    if s != "" {
      var front, last := s[..|s| - 1], s[|s| - 1];
      AllByteStrings(front);
      assert s == WithByte(front, last as int);
    }
  }

  /** The read and write caps of directories that a key and a verify cap leave open. */
  function CapsWith(v: Cap, key: Bytes): set<Cap> {
    match v.f
    case SSKVerifier(_, fp) => {Dir(SSK(key, fp)), Dir(SSKRo(key, fp))}
    case MDMFVerifier(_, fp) => {Dir(MDMF(key, fp)), Dir(MDMFRo(key, fp))}
    case CHKVerifier(_, ueh, k, n, size) => {Dir(CHK(key, ueh, k, n, size))}
    case _ => {}
  }

  /** Every node for a stored directory. */
  ghost function StoredNodes(e: Env, grid: Grid): set<Node> {
    set v, key, c | v in grid && key in ByteStrings(16) && c in CapsWith(v, key) && WellFormed(c.f) && Guarded(e.caps, e.blacklist, c) == Known(c) :: Known(c)
  }

  lemma StoredNodesComplete(e: Env, grid: Grid, n: Node)
    requires IsDirectoryNode(n) && IsDirectoryCap(n.cap) && IsListed(e, n)
    requires VerifyCap(e.caps, n.cap).Some? && VerifyCap(e.caps, n.cap).value in grid
    ensures n in StoredNodes(e, grid)
  {
    hide ByteStrings, StorageIndex;
    var v := VerifyCap(e.caps, n.cap).value;
    var key := Fields(n.cap.f).0;
    AllByteStrings(key);
    assert n.cap in CapsWith(v, key);
  }

  lemma StoredNodesListed(e: Env, grid: Grid, n: Node)
    requires n in StoredNodes(e, grid)
    ensures IsListed(e, n) && IsDirectoryNode(n) && IsDirectoryCap(n.cap)
  {
    hide ByteStrings, Guarded;
  }

  /** Listing a literal directory gives only nodes that are lower in the nesting. */
  lemma LiteralListing(e: Env, grid: Grid, n: Node)
    requires Laws(e.caps) && IsLiteral(n)
    ensures forall name :: name in ListingFor(e, grid, n) ==> LiteralLength(ListingFor(e, grid, n)[name]) < LiteralLength(n)
  {
    hide Unpacked, Laws;
    forall name | name in ListingFor(e, grid, n)
      ensures LiteralLength(ListingFor(e, grid, n)[name]) < LiteralLength(n)
    {
      LiteralNestingIsFinite(e, n.cap.f.data, name);
    }
  }

  /** A node and all that can be reached from it through literal directories. */
  ghost function Nested(e: Env, grid: Grid, n: Node): set<Node>
    requires Laws(e.caps)
    decreases LiteralLength(n)
  {
    if IsLiteral(n) then
      LiteralListing(e, grid, n);
      {n} + set name, m | name in ListingFor(e, grid, n) && m in Nested(e, grid, ListingFor(e, grid, n)[name]) :: m
    else {n}
  }

  lemma {:induction false} NestedClosed(e: Env, grid: Grid, n: Node, m: Node, name: string)
    requires Laws(e.caps) && m in Nested(e, grid, n) && IsLiteral(m) && name in ListingFor(e, grid, m)
    ensures ListingFor(e, grid, m)[name] in Nested(e, grid, n)
    decreases LiteralLength(n)
  {
    hide ListingFor, Laws;
    if IsLiteral(n) {
      LiteralListing(e, grid, n);
      if m == n {
        NestedSelf(e, grid, ListingFor(e, grid, n)[name]);
      } else {
        var k :| k in ListingFor(e, grid, n) && m in Nested(e, grid, ListingFor(e, grid, n)[k]);
        NestedClosed(e, grid, ListingFor(e, grid, n)[k], m, name);
      }
    }
  }

  lemma NestedSelf(e: Env, grid: Grid, n: Node)
    requires Laws(e.caps)
    ensures n in Nested(e, grid, n)
  {
    hide ListingFor, Laws;
  }

  lemma {:induction false} NestedListed(e: Env, grid: Grid, n: Node, m: Node)
    requires Laws(e.caps) && IsListed(e, n) && m in Nested(e, grid, n)
    ensures IsListed(e, m)
    decreases LiteralLength(n)
  {
    hide ListingFor, Laws, IsListed;
    if IsLiteral(n) && m != n {
      LiteralListing(e, grid, n);
      var k :| k in ListingFor(e, grid, n) && m in Nested(e, grid, ListingFor(e, grid, n)[k]);
      ListedNode(e, grid, n, k);
      NestedListed(e, grid, ListingFor(e, grid, n)[k], m);
    }
  }

  /** The root, the stored directories, and their children. */
  ghost function Starts(e: Env, grid: Grid, root: Node): set<Node> {
    var dirs := {root} + StoredNodes(e, grid);
    dirs + set d, name | d in dirs && name in ListingFor(e, grid, d) :: ListingFor(e, grid, d)[name]
  }

  /** Every node of the graph. */
  ghost function AllNodes(e: Env, grid: Grid, root: Node): set<Node>
    requires Laws(e.caps)
  {
    set s, m | s in Starts(e, grid, root) && m in Nested(e, grid, s) :: m
  }

  lemma StartsListed(e: Env, grid: Grid, root: Node, s: Node)
    requires Laws(e.caps) && IsListed(e, root) && s in Starts(e, grid, root)
    ensures IsListed(e, s)
  {
    hide ListingFor, StoredNodes, IsListed, Laws;
    if s in StoredNodes(e, grid) {
      StoredNodesListed(e, grid, s);
    } else if s != root {
      var d, name :| d in {root} + StoredNodes(e, grid) && name in ListingFor(e, grid, d) && s == ListingFor(e, grid, d)[name];
      ListedNode(e, grid, d, name);
    }
  }

  lemma AllNodesListed(e: Env, grid: Grid, root: Node, n: Node)
    requires Laws(e.caps) && IsListed(e, root) && n in AllNodes(e, grid, root)
    ensures IsListed(e, n)
  {
    hide Starts, Nested, IsListed, Laws;
    var s :| s in Starts(e, grid, root) && n in Nested(e, grid, s);
    StartsListed(e, grid, root, s);
    NestedListed(e, grid, s, n);
  }

  /** Directories that are neither literal nor stored list nothing. */
  lemma ListsNothing(e: Env, grid: Grid, n: Node)
    requires IsListed(e, n) && !IsLiteral(n) && n !in StoredNodes(e, grid)
    ensures ListingFor(e, grid, n) == map[]
  {
    hide StoredNodes, IsListed, UnpackFrom, VerifyCap, ViewOf;
    if IsDirectoryNode(n) && IsDirectoryCap(n.cap) {
      OnlyLiteralsUnverified(e.caps, n.cap);
      if VerifyCap(e.caps, n.cap).value in grid {
        StoredNodesComplete(e, grid, n);
      }
      UnpackStep(e, ViewOf(n.cap), "", map[]);
    }
  }

  lemma OnlyLiteralsUnverified(p: Primitives, c: Cap)
    requires IsDirectoryCap(c) && !c.f.LIT?
    ensures VerifyCap(p, c).Some?
  {
  }

  lemma StartInAll(e: Env, grid: Grid, root: Node, s: Node)
    requires Laws(e.caps) && s in Starts(e, grid, root)
    ensures s in AllNodes(e, grid, root)
  {
    hide Starts, Nested, Laws;
    NestedSelf(e, grid, s);
  }

  lemma ChildInAll(e: Env, grid: Grid, root: Node, n: Node, name: string)
    requires Laws(e.caps) && IsListed(e, root) && n in AllNodes(e, grid, root) && name in ListingFor(e, grid, n)
    ensures ListingFor(e, grid, n)[name] in AllNodes(e, grid, root)
  {
    AllNodesListed(e, grid, root, n);
    hide ListingFor, StoredNodes, Nested, Laws, IsListed;
    if IsLiteral(n) {
      var s :| s in Starts(e, grid, root) && n in Nested(e, grid, s);
      NestedClosed(e, grid, s, n, name);
    } else {
      if n !in StoredNodes(e, grid) {
        ListsNothing(e, grid, n);
      }
      StartInAll(e, grid, root, ListingFor(e, grid, n)[name]);
    }
  }

  /**
   * Whatever is stored, the nodes that can be reached make a finite graph: so
   * the walk terminates on every grid.
   */
  lemma StoredGraph(e: Env, grid: Grid, root: Node)
    requires Laws(e.caps) && IsListed(e, root)
    ensures IsGraph(ListingOf(e, grid), AllNodes(e, grid, root)) && root in AllNodes(e, grid, root)
  {
    hide ListingFor, AllNodes, Laws;
    var g, all := ListingOf(e, grid), AllNodes(e, grid, root);
    forall n | n in all
      ensures !n.Unknown? ==> IsCreatable(n.cap)
    {
      AllNodesListed(e, grid, root, n);
    }
    forall n, name | n in all && IsDirectoryNode(n) && name in g(n)
      ensures g(n)[name] in all && NestsShorter(n, g(n)[name])
    {
      ChildInAll(e, grid, root, n, name);
      if IsLiteral(n) {
        LiteralListing(e, grid, n);
      }
    }
    assert root in Starts(e, grid, root);
    StartInAll(e, grid, root, root);
  }

  // ---- When the nodes for one object list alike ---------------------------

  /** A writer and the readers agree on what some contents list, or neither can read them. */
  ghost predicate ListsAlike(e: Env, writekey: Bytes, data: Bytes) {
    ViewsAgree(e, writekey, data) || (Unpacked(e, Writer(writekey), data).None? && Unpacked(e, Reader, data).None?)
  }

  /** A write cap of a stored directory. */
  predicate IsStoredWriteCap(e: Env, grid: Grid, c: Cap) {
    IsDirectoryCap(c) && WellFormed(c.f) && !IsReadonly(c) && VerifyCap(e.caps, c).Some? && VerifyCap(e.caps, c).value in grid
  }

  /** On every stored directory its writers agree with its readers. */
  ghost predicate AgreeingGrid(e: Env, grid: Grid) {
    forall c: Cap :: IsStoredWriteCap(e, grid, c) ==> ListsAlike(e, c.f.writekey, grid[VerifyCap(e.caps, c).value])
  }

  /** That is so if the two views agree on each stored entry, which can be told from its fields. */
  lemma AgreeingEntriesGrid(e: Env, grid: Grid)
    requires forall c: Cap :: IsStoredWriteCap(e, grid, c) ==> EntriesAgree(e, c.f.writekey, grid[VerifyCap(e.caps, c).value])
    ensures AgreeingGrid(e, grid)
  {
    hide EntriesAgree, Unpacked, VerifyCap, WellFormed, ViewsAgree;
    forall c: Cap | IsStoredWriteCap(e, grid, c)
      ensures ListsAlike(e, c.f.writekey, grid[VerifyCap(e.caps, c).value])
    {
      AgreeingEntries(e, c.f.writekey, grid[VerifyCap(e.caps, c).value]);
    }
  }

  /** The node for a child as a reader of the directory has it. */
  function SeenIn(e: Env, view: View, n: Node): Node {
    if view.Writer? then AsSeen(e, n) else n
  }

  /** The node a writer has for a child and the one a reader has are nodes for the same object. */
  lemma ViewsShareObjects(e: Env, view: View, n: Node)
    requires Laws(e.caps) && IsListed(e, n) && !n.Unknown?
    ensures var seen := SeenIn(e, view, n);
      !seen.Unknown? && Verifier(e.caps, seen) == Verifier(e.caps, n) && (Verifier(e.caps, n).None? ==> seen == n)
  {
    hide Laws, WellFormed;
    if IsVerifier(n.cap) {
      ReadonlyOfReadonly(e.caps, n.cap);
    } else {
      Attenuation(e.caps, n.cap);
    }
  }

  /** Two children that readers see as one node are the same object. */
  lemma SeenAsOne(e: Env, v1: View, n1: Node, v2: View, n2: Node)
    requires Laws(e.caps) && IsListed(e, n1) && IsListed(e, n2) && !n1.Unknown? && SeenIn(e, v1, n1) == SeenIn(e, v2, n2)
    ensures SameObject(e.caps, n1, n2)
  {
    hide Laws, IsListed, Verifier;
    ViewsShareObjects(e, v1, n1);
    assert !n2.Unknown?;
    ViewsShareObjects(e, v2, n2);
  }

  lemma SameVerifier(e: Env, a: Node, b: Node)
    requires IsListed(e, a) && IsListed(e, b) && Verifier(e.caps, a).Some? && Verifier(e.caps, a) == Verifier(e.caps, b)
    ensures !a.Unknown? && !b.Unknown? && (IsDirectoryNode(a) <==> IsDirectoryNode(b))
    ensures IsDirectoryNode(a) ==> IsDirectoryCap(a.cap) && IsDirectoryCap(b.cap) && VerifyCap(e.caps, a.cap) == VerifyCap(e.caps, b.cap)
    ensures IsDirectoryNode(a) ==> (ViewOf(a.cap).Immutable? <==> ViewOf(b.cap).Immutable?)
  {
    hide WellFormed;
  }

  /** The nodes that some contents give; none if they cannot be read. */
  function NodesRead(children: Option<Children>): map<string, Node> {
    if children.Some? then NodesOf(children.value) else map[]
  }

  /** What a writer lists is what readers list, seen as a writer sees it. */
  lemma WriterLists(e: Env, grid: Grid, n: Node, v: Cap)
    requires AgreeingGrid(e, grid) && IsListed(e, n) && IsDirectoryNode(n) && IsDirectoryCap(n.cap) && ViewOf(n.cap).Writer?
    requires VerifyCap(e.caps, n.cap) == Some(v) && v in grid
    ensures
      var mine, theirs := ListingFor(e, grid, n), NodesRead(Unpacked(e, Reader, grid[v]));
      mine.Keys == theirs.Keys && forall name :: name in mine ==> AsSeen(e, mine[name]) == theirs[name]
  {
    hide Unpacked, AsSeen, VerifyCap, Guarded;
    assert IsStoredWriteCap(e, grid, n.cap);
    assert ListsAlike(e, n.cap.f.writekey, grid[v]);
  }

  lemma DirectoryLists(e: Env, grid: Grid, n: Node, v: Cap)
    requires AgreeingGrid(e, grid) && IsListed(e, n) && IsDirectoryNode(n) && IsDirectoryCap(n.cap) && !ViewOf(n.cap).Immutable?
    requires VerifyCap(e.caps, n.cap) == Some(v) && v in grid
    ensures
      var mine, theirs := ListingFor(e, grid, n), NodesRead(Unpacked(e, Reader, grid[v]));
      mine.Keys == theirs.Keys && forall name :: name in mine ==> SeenIn(e, ViewOf(n.cap), mine[name]) == theirs[name]
  {
    hide Unpacked, AsSeen, VerifyCap, AgreeingGrid, IsListed;
    if ViewOf(n.cap).Writer? {
      WriterLists(e, grid, n, v);
    }
  }

  lemma SameListing(e: Env, grid: Grid, a: Node, b: Node)
    requires IsDirectoryNode(a) && IsDirectoryNode(b) && IsDirectoryCap(a.cap) && IsDirectoryCap(b.cap)
    requires VerifyCap(e.caps, a.cap) == VerifyCap(e.caps, b.cap) && VerifyCap(e.caps, a.cap).Some?
    requires VerifyCap(e.caps, a.cap).value !in grid || (ViewOf(a.cap).Immutable? && ViewOf(b.cap).Immutable?)
    ensures ListingFor(e, grid, a) == ListingFor(e, grid, b)
  {
    hide VerifyCap;
  }

  lemma AlikeListings(e: Env, grid: Grid, a: Node, b: Node, name: string)
    requires Laws(e.caps) && AgreeingGrid(e, grid) && IsListed(e, a) && IsListed(e, b)
    requires Verifier(e.caps, a).Some? && Verifier(e.caps, a) == Verifier(e.caps, b) && IsDirectoryNode(a) && IsDirectoryNode(b)
    requires name in ListingFor(e, grid, a) && !ListingFor(e, grid, a)[name].Unknown?
    ensures name in ListingFor(e, grid, b) && SameObject(e.caps, ListingFor(e, grid, a)[name], ListingFor(e, grid, b)[name])
  {
    SameVerifier(e, a, b);
    assert Verifier(e.caps, a) == VerifyCap(e.caps, a.cap);
    hide ListingFor, Unpacked, Laws, IsListed, AgreeingGrid, AsSeen, VerifyCap, Verifier;
    var v := VerifyCap(e.caps, a.cap).value;
    if v !in grid || ViewOf(a.cap).Immutable? {
      SameListing(e, grid, a, b);
    } else {
      DirectoryLists(e, grid, a, v);
      DirectoryLists(e, grid, b, v);
      ListedNode(e, grid, a, name);
      ListedNode(e, grid, b, name);
      SeenAsOne(e, ViewOf(a.cap), ListingFor(e, grid, a)[name], ViewOf(b.cap), ListingFor(e, grid, b)[name]);
    }
  }

  /** If writers and readers agree on every stored directory, the nodes for one object list the same objects. */
  lemma AgreeingObjects(e: Env, grid: Grid, root: Node)
    requires Laws(e.caps) && IsListed(e, root) && AgreeingGrid(e, grid)
    ensures ObjectsAgree(e.caps, ListingOf(e, grid), AllNodes(e, grid, root))
  {
    hide ListingFor, AllNodes, Laws, IsListed, AgreeingGrid, Verifier, SameObject;
    var g, all := ListingOf(e, grid), AllNodes(e, grid, root);
    forall a, b | a in all && b in all && Verifier(e.caps, a).Some? && Verifier(e.caps, a) == Verifier(e.caps, b)
      ensures IsDirectoryNode(a) <==> IsDirectoryNode(b)
      ensures IsDirectoryNode(a) ==> forall name :: name in g(a) && !g(a)[name].Unknown? ==>
        name in g(b) && SameObject(e.caps, g(a)[name], g(b)[name])
    {
      AllNodesListed(e, grid, root, a);
      AllNodesListed(e, grid, root, b);
      SameVerifier(e, a, b);
      if IsDirectoryNode(a) {
        forall name | name in g(a) && !g(a)[name].Unknown?
          ensures name in g(b) && SameObject(e.caps, g(a)[name], g(b)[name])
        {
          AlikeListings(e, grid, a, b, name);
        }
      }
    }
  }

  /** `deep_traverse` over what is stored: it always ends, and misses nothing if readers and writers agree. */
  method TraverseStored(e: Env, grid: Grid, root: Node) returns (trace: seq<Event>)
    requires Laws(e.caps) && IsListed(e, root) && IsDirectoryNode(root)
    ensures WalkIs(e.caps, ListingOf(e, grid), root, trace)
    ensures AgreeingGrid(e, grid) ==> CoversAll(e.caps, ListingOf(e, grid), root, trace)
  {
    hide ListingFor, AllNodes, Laws, IsListed, AgreeingGrid, WalkIs, CoversAll, IsGraph, ObjectsAgree;
    StoredGraph(e, grid, root);
    trace := DeepTraverse(e.caps, ListingOf(e, grid), root, AllNodes(e, grid, root));
    if AgreeingGrid(e, grid) {
      AgreeingObjects(e, grid, root);
    }
  }

  // ---- A stored grid on which the walk misses something -------------------

  lemma TwoEntries(e: Env, view: View, n1: string, e1: Bytes, node1: Node, n2: string, e2: Bytes, node2: Node)
    requires n1 != n2 && DecodeEntry(e, view, e1) == Kept(n1, node1, map[]) && DecodeEntry(e, view, e2) == Kept(n2, node2, map[])
    ensures Unpacked(e, view, Netstring(e1) + Netstring(e2)) ==
      Some(map[n1 := Slot(node1, map[], Some(e1)), n2 := Slot(node2, map[], Some(e2))])
  {
    hide DecodeEntry, UnpackFrom, SplitFrom, Netstring;
    var one: Children := map[n1 := Slot(node1, map[], Some(e1))];
    var both: Children := map[n1 := Slot(node1, map[], Some(e1)), n2 := Slot(node2, map[], Some(e2))];
    TakeEntry(e1, Netstring(e2));
    UnpackStep(e, view, Netstring(e1) + Netstring(e2), map[]);
    assert Netstring(e2) + "" == Netstring(e2);
    TakeEntry(e2, "");
    UnpackStep(e, view, Netstring(e2), one);
    assert one[n2 := Slot(node2, map[], Some(e2))] == both;
    UnpackStep(e, view, "", both);
  }

  /** A link to the directory itself by its read cap, and a known read cap beside an unknown write cap. */
  function SelfContents(e: Env, writekey: Bytes, ro: Cap, c: Cap): Bytes {
    Netstring(MadeEntry(e, writekey, "self", ToString(e.caps, ro), "")) + Netstring(MadeEntry(e, writekey, "x", ToString(e.caps, c), "future:x"))
  }

  lemma SelfListing(e: Env, writekey: Bytes, ro: Cap, c: Cap)
    requires EnvLaws(e) && e.blacklist.None? && e.normalize("self") == "self" && e.normalize("x") == "x"
    requires WellFormed(ro.f) && !IsVerifier(ro) && WellFormed(c.f) && !IsVerifier(c)
    ensures
      var data := SelfContents(e, writekey, ro, c);
      var mine, theirs := Unpacked(e, Writer(writekey), data), Unpacked(e, Reader, data);
      && mine.Some? && theirs.Some?
      && NodesOf(mine.value) == map["self" := Known(ro), "x" := Unknown(None, Some("future:x"), Some(RO + ToString(e.caps, c)))]
      && NodesOf(theirs.value) == map["self" := Known(ro), "x" := Known(c)]
  {
    hide EnvLaws, WellFormed, MadeEntry, Netstring, Unpacked, ToString, DecodeEntry, IsVerifier, NodesOf;
    SelfEntry(e, writekey, ro);
    HiddenEntry(e, writekey, c);
    var e1, e2 := MadeEntry(e, writekey, "self", ToString(e.caps, ro), ""), MadeEntry(e, writekey, "x", ToString(e.caps, c), "future:x");
    var u := Unknown(None, Some("future:x"), Some(RO + ToString(e.caps, c)));
    TwoEntries(e, Writer(writekey), "self", e1, Known(ro), "x", e2, u);
    TwoEntries(e, Reader, "self", e1, Known(ro), "x", e2, Known(c));
    NodesOfTwo("self", Slot(Known(ro), map[], Some(e1)), "x", Slot(u, map[], Some(e2)));
    NodesOfTwo("self", Slot(Known(ro), map[], Some(e1)), "x", Slot(Known(c), map[], Some(e2)));
  }

  lemma NodesOfTwo(n1: string, s1: Slot, n2: string, s2: Slot)
    requires n1 != n2
    ensures NodesOf(map[n1 := s1, n2 := s2]) == map[n1 := s1.node, n2 := s2.node]
  {
  }

  lemma SelfEntry(e: Env, writekey: Bytes, ro: Cap)
    requires EnvLaws(e) && e.blacklist.None? && e.normalize("self") == "self" && WellFormed(ro.f) && !IsVerifier(ro)
    ensures var entry := MadeEntry(e, writekey, "self", ToString(e.caps, ro), "");
      && DecodeEntry(e, Writer(writekey), entry) == Kept("self", Known(ro), map[])
      && DecodeEntry(e, Reader, entry) == Kept("self", Known(ro), map[])
  {
    hide EnvLaws, WellFormed, MadeEntry, ToString, DecodeEntry, NodeFor;
    StripNothing();
    HiddenNodes(e, ro);
    OneMadeEntry(e, writekey, "self", ToString(e.caps, ro), "", Known(ro));
    ReaderDecodes(e, writekey, "self", ToString(e.caps, ro), "");
  }

  lemma HiddenEntry(e: Env, writekey: Bytes, c: Cap)
    requires EnvLaws(e) && e.blacklist.None? && e.normalize("x") == "x" && WellFormed(c.f) && !IsVerifier(c)
    ensures var entry := MadeEntry(e, writekey, "x", ToString(e.caps, c), "future:x");
      && DecodeEntry(e, Writer(writekey), entry) == Kept("x", Unknown(None, Some("future:x"), Some(RO + ToString(e.caps, c))), map[])
      && DecodeEntry(e, Reader, entry) == Kept("x", Known(c), map[])
  {
    hide EnvLaws, WellFormed, MadeEntry, ToString, DecodeEntry, NodeFor;
    HiddenNodes(e, c);
    OneMadeEntry(e, writekey, "x", ToString(e.caps, c), "future:x", Unknown(None, Some("future:x"), Some(RO + ToString(e.caps, c))));
    ReaderDecodes(e, writekey, "x", ToString(e.caps, c), "future:x");
  }

  /** A grid with only the directory `w`. */
  function SelfGrid(e: Env, w: Cap, c: Cap): Grid
    requires w.Dir? && !IsReadonly(w)
  {
    map[VerifyCap(e.caps, w).value := SelfContents(e, w.f.writekey, Readonly(e.caps, w), c)]
  }

  /** Any directory with a write cap, any immutable file, on a client without a blacklist. */
  ghost predicate IsExample(e: Env, w: Cap, c: Cap) {
    && EnvLaws(e) && e.blacklist.None? && e.normalize("self") == "self" && e.normalize("x") == "x"
    && w.Dir? && !IsReadonly(w) && WellFormed(w.f) && c.File? && c.f.CHK? && WellFormed(c.f)
  }

  lemma ReadCapOf(e: Env, w: Cap)
    requires EnvLaws(e) && w.Dir? && !IsReadonly(w) && WellFormed(w.f)
    ensures var ro := Readonly(e.caps, w);
      && WellFormed(ro.f) && !IsVerifier(ro) && ro != w && IsDirectoryCap(w) && IsDirectoryCap(ro)
      && VerifyCap(e.caps, w).Some? && VerifyCap(e.caps, ro) == VerifyCap(e.caps, w)
      && ViewOf(w) == Writer(w.f.writekey) && ViewOf(ro) == Reader
  {
    hide WellFormed;
    Attenuation(e.caps, w);
  }

  lemma SelfGraph(e: Env, w: Cap, c: Cap)
    requires IsExample(e, w, c)
    ensures SelfLinked(e.caps, ListingOf(e, SelfGrid(e, w, c)), Known(w), Known(Readonly(e.caps, w)),
                       Unknown(None, Some("future:x"), Some(RO + ToString(e.caps, c))), Known(c))
  {
    hide EnvLaws, WellFormed, SelfContents, ToString, Unpacked, Readonly, NodesOf, ViewOf;
    var ro := Readonly(e.caps, w);
    ReadCapOf(e, w);
    SelfListing(e, w.f.writekey, ro, c);
    ListedThrough(e, w, c, w);
    ListedThrough(e, w, c, ro);
    assert VerifyCap(e.caps, c).Some? && VerifyCap(e.caps, c).value.File?;
    assert VerifyCap(e.caps, w).value.Dir?;
  }

  lemma ListedThrough(e: Env, w: Cap, c: Cap, k: Cap)
    requires w.Dir? && !IsReadonly(w) && IsDirectoryCap(k) && VerifyCap(e.caps, k) == VerifyCap(e.caps, w)
    requires Unpacked(e, ViewOf(k), SelfContents(e, w.f.writekey, Readonly(e.caps, w), c)).Some?
    ensures ListingOf(e, SelfGrid(e, w, c))(Known(k)) ==
      NodesOf(Unpacked(e, ViewOf(k), SelfContents(e, w.f.writekey, Readonly(e.caps, w), c)).value)
  {
    hide SelfContents, Unpacked, Readonly, NodesOf, ViewOf;
  }

  /**
   * A stored directory of which it is false that every file is given that can be
   * reached: `c` can be, as "self/x", and no walk from the directory's write cap
   * hands it over.
   */
  lemma StoredCoverageFails(e: Env, w: Cap, c: Cap, trace: seq<Event>)
    requires IsExample(e, w, c) && WalkIs(e.caps, ListingOf(e, SelfGrid(e, w, c)), Known(w), trace)
    ensures Resolve(ListingOf(e, SelfGrid(e, w, c)), Known(w), ["self", "x"]) == Some(Known(c))
    ensures !CoversAll(e.caps, ListingOf(e, SelfGrid(e, w, c)), Known(w), trace)
  {
    hide EnvLaws, WellFormed, ListingOf, SelfGrid, ToString, Readonly, SelfLinked, WalkIs, CoversAll, Resolve;
    SelfGraph(e, w, c);
    CoverageFails(e.caps, ListingOf(e, SelfGrid(e, w, c)), Known(w), Known(Readonly(e.caps, w)),
                  Unknown(None, Some("future:x"), Some(RO + ToString(e.caps, c))), Known(c), trace);
  }

  // ---- A grid for every disagreement --------------------------------------

  /** A link by write cap and one by read cap to the same directory. */
  function PairContents(e: Env, writekey: Bytes, w: Cap): Bytes {
    var ro := ToString(e.caps, Readonly(e.caps, w));
    Netstring(MadeEntry(e, writekey, "a", ro, ToString(e.caps, w))) + Netstring(MadeEntry(e, writekey, "b", ro, ""))
  }

  /** Two directories with write caps, on a client without a blacklist. */
  ghost predicate IsPair(e: Env, root: Cap, w: Cap) {
    && EnvLaws(e) && e.blacklist.None? && e.normalize("a") == "a" && e.normalize("b") == "b"
    && root.Dir? && !IsReadonly(root) && WellFormed(root.f) && w.Dir? && !IsReadonly(w) && WellFormed(w.f)
  }

  lemma PairNodes(e: Env, w: Cap)
    requires Laws(e.caps) && e.blacklist.None? && WellFormed(w.f) && !IsVerifier(w)
    ensures var (u, ro) := (ToString(e.caps, w), ToString(e.caps, Readonly(e.caps, w)));
      && StripSpaces(u) == u && StripSpaces(ro) == ro && u != "" && ro != ""
      && NodeFor(e.caps, e.blacklist, Some(u), Some(ro), false) == Known(w)
      && NodeFor(e.caps, e.blacklist, None, Some(ro), false) == Known(Readonly(e.caps, w))
  {
    hide Laws, WellFormed, ToString, NodeFor, Readonly, StripSpaces;
    var ro := Readonly(e.caps, w);
    Attenuation(e.caps, w);
    PrintedPlain(e.caps, w, false);
    PrintedPlain(e.caps, ro, false);
    NodeForPrinted(e.caps, e.blacklist, w, Some(ToString(e.caps, ro)), false);
    NodeForPrinted(e.caps, e.blacklist, ro, None, false);
  }

  lemma WriteEntry(e: Env, writekey: Bytes, name: string, w: Cap)
    requires EnvLaws(e) && e.blacklist.None? && e.normalize(name) == name && WellFormed(w.f) && !IsVerifier(w)
    ensures DecodeEntry(e, Writer(writekey), MadeEntry(e, writekey, name, ToString(e.caps, Readonly(e.caps, w)), ToString(e.caps, w))) ==
      Kept(name, Known(w), map[])
  {
    assert Laws(e.caps);
    hide EnvLaws, Laws, WellFormed, MadeEntry, ToString, DecodeEntry, NodeFor, Readonly, StripSpaces, IsVerifier, Unpacked, Netstring;
    PairNodes(e, w);
    OneMadeEntry(e, writekey, name, ToString(e.caps, Readonly(e.caps, w)), ToString(e.caps, w), Known(w));
  }

  lemma ReadEntry(e: Env, writekey: Bytes, name: string, w: Cap)
    requires EnvLaws(e) && e.blacklist.None? && e.normalize(name) == name && WellFormed(w.f) && !IsVerifier(w)
    ensures DecodeEntry(e, Writer(writekey), MadeEntry(e, writekey, name, ToString(e.caps, Readonly(e.caps, w)), "")) ==
      Kept(name, Known(Readonly(e.caps, w)), map[])
  {
    assert Laws(e.caps);
    hide EnvLaws, Laws, WellFormed, MadeEntry, ToString, DecodeEntry, NodeFor, Readonly, StripSpaces, IsVerifier, Unpacked, Netstring;
    StripNothing();
    PairNodes(e, w);
    OneMadeEntry(e, writekey, name, ToString(e.caps, Readonly(e.caps, w)), "", Known(Readonly(e.caps, w)));
  }

  lemma PairListing(e: Env, k: Bytes, w: Cap)
    requires EnvLaws(e) && e.blacklist.None? && e.normalize("a") == "a" && e.normalize("b") == "b" && WellFormed(w.f) && !IsVerifier(w)
    ensures var mine := Unpacked(e, Writer(k), PairContents(e, k, w));
      mine.Some? && NodesOf(mine.value) == map["a" := Known(w), "b" := Known(Readonly(e.caps, w))]
  {
    hide EnvLaws, WellFormed, MadeEntry, Netstring, Unpacked, ToString, DecodeEntry, NodesOf, Readonly, IsVerifier;
    var ro := Readonly(e.caps, w);
    WriteEntry(e, k, "a", w);
    ReadEntry(e, k, "b", w);
    var e1, e2 := MadeEntry(e, k, "a", ToString(e.caps, ro), ToString(e.caps, w)), MadeEntry(e, k, "b", ToString(e.caps, ro), "");
    TwoEntries(e, Writer(k), "a", e1, Known(w), "b", e2, Known(ro));
    NodesOfTwo("a", Slot(Known(w), map[], Some(e1)), "b", Slot(Known(ro), map[], Some(e2)));
  }

  /** The grid with such a root added. */
  function WithRoot(e: Env, grid: Grid, root: Cap, w: Cap): Grid
    requires root.Dir? && !IsReadonly(root)
  {
    grid[VerifyCap(e.caps, root).value := PairContents(e, root.f.writekey, w)]
  }

  lemma PairLinksTwice(e: Env, grid: Grid, root: Cap, w: Cap)
    requires IsPair(e, root, w)
    ensures LinksTwice(e.caps, ListingOf(e, WithRoot(e, grid, root, w)), Known(root), Known(w), Known(Readonly(e.caps, w)), "a", "b")
  {
    hide EnvLaws, WellFormed, PairContents, Unpacked, Readonly, NodesOf, ViewOf;
    ReadCapOf(e, root);
    ReadCapOf(e, w);
    PairListing(e, root.f.writekey, w);
    assert LexLess("a", "b");
  }

  /**
   * Agreement is needed: if in some grid an object can be reached through the read
   * cap of a directory and not through its write cap, then from a root that links
   * to both no walk hands the object over.
   */
  lemma DisagreementIsMissed(e: Env, grid: Grid, root: Cap, w: Cap, v: Cap, trace: seq<Event>)
    requires IsPair(e, root, w) && VerifyCap(e.caps, root) != Some(v)
    requires WalkIs(e.caps, ListingOf(e, WithRoot(e, grid, root, w)), Known(root), trace)
    requires Reaches(e.caps, ListingOf(e, WithRoot(e, grid, root, w)), Known(Readonly(e.caps, w)), v)
    requires !Reaches(e.caps, ListingOf(e, WithRoot(e, grid, root, w)), Known(w), v)
    ensures Reaches(e.caps, ListingOf(e, WithRoot(e, grid, root, w)), Known(root), v)
    ensures !CoversAll(e.caps, ListingOf(e, WithRoot(e, grid, root, w)), Known(root), trace)
  {
    hide EnvLaws, WellFormed, ListingOf, WithRoot, Readonly, LinksTwice, WalkIs, CoversAll, Reaches;
    PairLinksTwice(e, grid, root, w);
    CoverageNeedsAgreement(e.caps, ListingOf(e, WithRoot(e, grid, root, w)), Known(root), Known(w), Known(Readonly(e.caps, w)), "a", "b", v, trace);
  }
}
