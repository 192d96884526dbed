/** From cap strings to nodes: known caps, opaque unknown ones, prohibited ones. */
module Nodes {
  import opened Basics
  import opened Caps
  import opened CapProofs

  /**
   * `Known` is a file or directory node around its cap. `Unknown` carries cap
   * strings of a format not understood, or the reason why it is opaque.
   * `Prohibited` wraps a known node whose storage index is on the blacklist.
   */
  datatype Node =
    | Known(cap: Cap)
    | Unknown(error: Option<CapError>, rw: Option<Bytes>, ro: Option<Bytes>)
    | Prohibited(cap: Cap, reason: Bytes)

  type Blacklist = Option<map<Bytes, Bytes>>

  /** `x or None` for a byte string: an empty one counts as absent. */
  function OrNone(x: Option<Bytes>): Option<Bytes> {
    if x == Some("") then None else x
  }

  // ---- Unknown nodes ------------------------------------------------------

  function Opaque(e: CapError): Node {
    Unknown(Some(e), None, None)
  }

  /** The read slot of an unknown node, strengthened to the prefix its context requires. */
  function Strengthen(ro: Bytes, deepImmutable: bool): Bytes {
    if IMM <= ro then ro
    else if RO <= ro then if deepImmutable then IMM + ro[|RO|..] else ro
    else if deepImmutable then IMM + ro else RO + ro
  }

  function UnknownWithReadSlot(p: Primitives, rw: Option<Bytes>, ro: Bytes, deepImmutable: bool): Node {
    match FromString(p, ro, deepImmutable)
    case UnknownUri(_, Some(e)) => Opaque(e)
    case _ => Unknown(None, rw, Some(Strengthen(ro, deepImmutable)))
  }

  /** What `UnknownNode(rw, ro)` makes of its arguments, by which slots are filled. */
  function UnknownFrom(p: Primitives, givenRw: Option<Bytes>, givenRo: Option<Bytes>, deepImmutable: bool): Node {
    match (OrNone(givenRw), OrNone(givenRo))
    case (None, None) => Unknown(None, None, None)
    case (None, Some(ro)) => UnknownWithReadSlot(p, None, ro, deepImmutable)
    case (Some(rw), None) =>
      // a single cap is taken as a read cap if its prefix says it is one
      if IMM <= rw || (RO <= rw && !deepImmutable) then UnknownWithReadSlot(p, None, rw, deepImmutable)
      else Opaque(MustNotBeUnknownRW)
    case (Some(rw), Some(ro)) =>
      if deepImmutable || IMM <= ro then Opaque(MustBeDeepImmutable)
      else UnknownWithReadSlot(p, Some(rw), ro, false)
  }

  /** `UnknownNode.__init__`, step by step. */
  method InitUnknownNode(p: Primitives, givenRwArg: Option<Bytes>, givenRoArg: Option<Bytes>, deepImmutable: bool)
      returns (n: Node)
    ensures n.Unknown? && n == UnknownFrom(p, givenRwArg, givenRoArg, deepImmutable)
  {
    var givenRw, givenRo := OrNone(givenRwArg), OrNone(givenRoArg);
    var rwUri: Option<Bytes>, roUri: Option<Bytes> := None, None;
    if givenRw.Some? {
      if deepImmutable {
        if IMM <= givenRw.value && givenRo.None? {
          // moved to the read slot below
        } else if givenRo.None? {
          return Opaque(MustNotBeUnknownRW);
        } else {
          return Opaque(MustBeDeepImmutable);
        }
      }
      if givenRo.None? {
        if !(RO <= givenRw.value || IMM <= givenRw.value) {
          return Opaque(MustNotBeUnknownRW);
        }
        givenRo := givenRw;
        givenRw := None;
      } else if IMM <= givenRo.value {
        return Opaque(MustBeDeepImmutable);
      }
    }
    if givenRo.Some? {
      var readCap := FromString(p, givenRo.value, deepImmutable);
      if readCap.UnknownUri? {
        if readCap.error.Some? {
          return Opaque(readCap.error.value);
        }
      }
    }
    if deepImmutable {
      if givenRo.Some? {
        if IMM <= givenRo.value {
          roUri := givenRo;
        } else if RO <= givenRo.value {
          roUri := Some(IMM + givenRo.value[|RO|..]);
        } else {
          roUri := Some(IMM + givenRo.value);
        }
      }
    } else {
      rwUri := givenRw;
      if givenRo.Some? {
        if RO <= givenRo.value || IMM <= givenRo.value {
          roUri := givenRo;
        } else {
          roUri := Some(RO + givenRo.value);
        }
      }
    }
    return Unknown(None, rwUri, roUri);
  }

  // ---- Creating a node ----------------------------------------------------

  /** The caps `_create_from_single_cap` knows how to make a node for. */
  predicate IsCreatable(c: Cap) {
    !IsVerifier(c) || (c.File? && c.f.CHKVerifier?)
  }

  function Guarded(p: Primitives, blacklist: Blacklist, c: Cap): Node {
    match (blacklist, StorageIndex(p, c))
    case (Some(entries), Some(si)) => if si in entries then Prohibited(c, entries[si]) else Known(c)
    case _ => Known(c)
  }

  /** `writecap or readcap`. */
  function BigCap(writecap: Option<Bytes>, readcap: Option<Bytes>): Option<Bytes> {
    if OrNone(writecap).Some? then writecap else OrNone(readcap)
  }

  /** `create_from_cap` with an empty cache. */
  function NodeFor(p: Primitives, blacklist: Blacklist, writecap: Option<Bytes>, readcap: Option<Bytes>, deepImmutable: bool): Node {
    match BigCap(writecap, readcap)
    case None => Unknown(None, None, None)
    case Some(bigcap) =>
      match FromString(p, bigcap, deepImmutable)
      case KnownUri(c) => if IsCreatable(c) then Guarded(p, blacklist, c) else UnknownFrom(p, writecap, readcap, deepImmutable)
      case UnknownUri(_, _) => UnknownFrom(p, writecap, readcap, deepImmutable)
  }

  predicate IsKnownMutable(n: Node) {
    !n.Unknown? && IsMutable(n.cap)
  }

  /** A node for a CHK verify cap has no methods for its URIs; every other node has. */
  predicate HasUris(n: Node) {
    n.Unknown? || !IsVerifier(n.cap)
  }

  function WriteUri(p: Primitives, n: Node): Option<Bytes>
    requires HasUris(n)
  {
    if n.Unknown? then n.rw else if IsReadonly(n.cap) then None else Some(ToString(p, n.cap))
  }

  function ReadUri(p: Primitives, n: Node): Option<Bytes>
    requires HasUris(n)
  {
    if n.Unknown? then n.ro else Some(ToString(p, Readonly(p, n.cap)))
  }

  /** The error `raise_error` raises; a prohibited node must still be listed. */
  function NodeError(n: Node): Option<CapError> {
    if n.Unknown? then n.error else None
  }

  predicate AllowedInImmutable(n: Node)
    requires HasUris(n)
  {
    if n.Unknown? then n.error.None? && n.rw.None? else !IsMutable(n.cap)
  }

  /** ProhibitedNode implements only the file interface, whatever it wraps. */
  predicate IsDirectoryNode(n: Node) {
    n.Known? && n.cap.Dir?
  }

  predicate IsFileNode(n: Node) {
    n.Prohibited? || (n.Known? && n.cap.File? && !IsVerifier(n.cap))
  }

  // ---- What creation guarantees -------------------------------------------

  lemma StrengthenPrefix(ro: Bytes, deepImmutable: bool)
    ensures deepImmutable ==> IMM <= Strengthen(ro, deepImmutable)
    ensures !deepImmutable && !(IMM <= ro) ==> RO <= Strengthen(ro, deepImmutable)
  {
  }

  /** An unknown node records an error and is opaque, or has slots that fit its context. */
  ghost predicate FitsContext(n: Node, deepImmutable: bool) {
    && n.Unknown?
    && (n.error.Some? ==> n.rw.None? && n.ro.None?)
    && (deepImmutable ==> n.rw.None? && (n.ro.Some? ==> IMM <= n.ro.value))
    && (n.rw.Some? ==> n.ro.Some? && RO <= n.ro.value)
  }

  lemma ReadSlotFits(p: Primitives, rw: Option<Bytes>, ro: Bytes, deepImmutable: bool)
    requires rw.Some? ==> !deepImmutable && !(IMM <= ro)
    ensures FitsContext(UnknownWithReadSlot(p, rw, ro, deepImmutable), deepImmutable)
  {
    hide FromString, Strengthen;
    StrengthenPrefix(ro, deepImmutable);
  }

  lemma UnknownFits(p: Primitives, givenRw: Option<Bytes>, givenRo: Option<Bytes>, deepImmutable: bool)
    ensures FitsContext(UnknownFrom(p, givenRw, givenRo, deepImmutable), deepImmutable)
  {
    hide UnknownWithReadSlot, FromString;
    match (OrNone(givenRw), OrNone(givenRo))
    case (None, None) =>
    case (None, Some(ro)) => ReadSlotFits(p, None, ro, deepImmutable);
    case (Some(rw), None) => ReadSlotFits(p, None, rw, deepImmutable);
    case (Some(rw), Some(ro)) =>
      if !deepImmutable && !(IMM <= ro) {
        ReadSlotFits(p, Some(rw), ro, false);
      }
  }

  /**
   * Which error an unknown node records: one for a lone cap that may be a write
   * cap, one for a write cap beside something that must be immutable, and else
   * that of the read cap.
   */
  lemma UnknownErrors(p: Primitives, givenRw: Option<Bytes>, givenRo: Option<Bytes>, deepImmutable: bool)
    ensures
      var (rw, ro) := (OrNone(givenRw), OrNone(givenRo));
      var error := UnknownFrom(p, givenRw, givenRo, deepImmutable).error;
      var lone := rw.Some? && ro.None?;
      && (error == Some(MustNotBeUnknownRW) <==> lone && !(IMM <= rw.value) && (deepImmutable || !(RO <= rw.value)))
      && (rw.Some? && ro.Some? && (deepImmutable || IMM <= ro.value) ==> error == Some(MustBeDeepImmutable))
      && (error != Some(MustNotBeUnknownRW) && (rw.Some? || ro.Some?) && !(rw.Some? && ro.Some? && (deepImmutable || IMM <= ro.value)) ==>
            var read := FromString(p, if ro.Some? then ro.value else rw.value, deepImmutable);
            error == if read.UnknownUri? then read.error else None)
  {
    hide Dispatch, ParseBits, Strengthen;
  }

  lemma KnownNodeKind(p: Primitives, blacklist: Blacklist, writecap: Option<Bytes>, readcap: Option<Bytes>, deepImmutable: bool)
    requires Laws(p)
    ensures var n := NodeFor(p, blacklist, writecap, readcap, deepImmutable);
      !n.Unknown? ==> WellFormed(n.cap.f) && IsCreatable(n.cap) && (deepImmutable ==> !IsMutable(n.cap))
  {
    hide FromString, UnknownWithReadSlot;
    UnknownFits(p, writecap, readcap, deepImmutable);
    var big := BigCap(writecap, readcap);
    if big.Some? && FromString(p, big.value, deepImmutable).KnownUri? {
      ParsedKind(p, big.value, deepImmutable);
    }
  }

  /**
   * What creation guarantees. In a deep-immutable context no node is known to be
   * mutable or carries a write cap, and an unknown node has at most a read cap
   * alleged to be immutable. Elsewhere an unknown node with a write cap always
   * has a read cap alleged to be read-only. An error leaves a node opaque.
   */
  lemma CreationIsSafe(p: Primitives, blacklist: Blacklist, writecap: Option<Bytes>, readcap: Option<Bytes>, deepImmutable: bool)
    requires Laws(p)
    ensures var n := NodeFor(p, blacklist, writecap, readcap, deepImmutable);
      if n.Unknown? then FitsContext(n, deepImmutable)
      else deepImmutable ==> !IsKnownMutable(n) && (HasUris(n) ==> WriteUri(p, n) == None)
  {
    hide FromString, UnknownFrom, ToString;
    KnownNodeKind(p, blacklist, writecap, readcap, deepImmutable);
    UnknownFits(p, writecap, readcap, deepImmutable);
  }

  // ---- The blacklist ------------------------------------------------------

  /** The cap a call is about: what the write cap, or else the read cap, parses to. */
  ghost predicate IsAbout(p: Primitives, writecap: Option<Bytes>, readcap: Option<Bytes>, deepImmutable: bool, c: Cap) {
    && BigCap(writecap, readcap).Some?
    && FromString(p, BigCap(writecap, readcap).value, deepImmutable) == KnownUri(c)
    && IsCreatable(c)
  }

  ghost predicate Blacklisted(p: Primitives, blacklist: Blacklist, c: Cap) {
    blacklist.Some? && StorageIndex(p, c).Some? && StorageIndex(p, c).value in blacklist.value
  }

  /**
   * The blacklist is enforced, and on nothing else: a node is prohibited exactly
   * when it is for a known cap with a blacklisted storage index, it is prohibited
   * for the reason that is listed, and it is for the cap that was asked for.
   */
  ghost predicate Enforced(p: Primitives, blacklist: Blacklist, writecap: Option<Bytes>, readcap: Option<Bytes>, deepImmutable: bool, n: Node) {
    && (n.Prohibited? <==> exists c :: IsAbout(p, writecap, readcap, deepImmutable, c) && Blacklisted(p, blacklist, c))
    && (n.Known? <==> exists c :: IsAbout(p, writecap, readcap, deepImmutable, c) && !Blacklisted(p, blacklist, c))
    && (!n.Unknown? ==> IsAbout(p, writecap, readcap, deepImmutable, n.cap))
    && (n.Prohibited? ==> Blacklisted(p, blacklist, n.cap) && n.reason == blacklist.value[StorageIndex(p, n.cap).value])
    && (n.Known? ==> !Blacklisted(p, blacklist, n.cap))
  }

  lemma BlacklistEnforced(p: Primitives, blacklist: Blacklist, writecap: Option<Bytes>, readcap: Option<Bytes>, deepImmutable: bool)
    ensures Enforced(p, blacklist, writecap, readcap, deepImmutable, NodeFor(p, blacklist, writecap, readcap, deepImmutable))
  {
    hide FromString, StorageIndex, UnknownWithReadSlot, IsCreatable, BigCap;
    UnknownFits(p, writecap, readcap, deepImmutable);
    var n := NodeFor(p, blacklist, writecap, readcap, deepImmutable);
    if n.Unknown? {
      assert forall c :: !IsAbout(p, writecap, readcap, deepImmutable, c);
    } else {
      assert IsAbout(p, writecap, readcap, deepImmutable, n.cap);
    }
  }

  /** A cap string makes an opaque node exactly if it is not understood, or is a verify cap of anything but an immutable file. */
  lemma UnknownIff(p: Primitives, blacklist: Blacklist, s: Bytes, deepImmutable: bool)
    requires s != ""
    ensures NodeFor(p, blacklist, None, Some(s), deepImmutable).Unknown? <==>
      match FromString(p, s, deepImmutable)
      case UnknownUri(_, _) => true
      case KnownUri(c) => c.f.SSKVerifier? || c.f.MDMFVerifier? || (c.Dir? && c.f.CHKVerifier?)
  {
    hide FromString, StorageIndex;
    UnknownFits(p, None, Some(s), deepImmutable);
  }

  // ---- The node cache -----------------------------------------------------

  function MemoKey(bigcap: Bytes, deepImmutable: bool): Bytes {
    (if deepImmutable then "I" else "M") + bigcap
  }

  /** A cached node is mutable and is what its key parses to. */
  ghost predicate CachedRightly(p: Primitives, key: Bytes, n: Node) {
    && n.Known? && IsMutable(n.cap) && IsCreatable(n.cap)
    && key != "" && FromString(p, key[1..], key[0] == 'I') == KnownUri(n.cap)
  }

  /** The cache after a call: a mutable known node is in it under its key, and nothing else is new. */
  function CacheAfter(p: Primitives, cache: map<Bytes, Node>, big: Option<Bytes>, deepImmutable: bool): map<Bytes, Node> {
    if big.None? || MemoKey(big.value, deepImmutable) in cache then cache
    else
      match FromString(p, big.value, deepImmutable)
      case KnownUri(c) => if IsCreatable(c) && IsMutable(c) then cache[MemoKey(big.value, deepImmutable) := Known(c)] else cache
      case UnknownUri(_, _) => cache
  }

  class NodeMaker {
    const p: Primitives
    var blacklist: Blacklist
    var nodeCache: map<Bytes, Node>

    ghost predicate Valid()
      reads this
    {
      forall key :: key in nodeCache ==> CachedRightly(p, key, nodeCache[key])
    }

    constructor (p: Primitives, blacklist: Blacklist)
      ensures Valid() && this.p == p && this.blacklist == blacklist
    {
      this.p := p;
      this.blacklist := blacklist;
      nodeCache := map[];
    }

    /** The cache holds weak references: any entries may vanish at any time. */
    method Evict(dead: set<Bytes>)
      requires Valid()
      modifies this`nodeCache
      ensures Valid() && nodeCache == old(nodeCache) - dead
    {
      nodeCache := nodeCache - dead;
    }

    method SetBlacklist(b: Blacklist)
      requires Valid()
      modifies this`blacklist
      ensures Valid() && blacklist == b
    {
      blacklist := b;
    }

    /**
     * Cache transparency: after any history of calls, evictions and blacklist
     * changes the result is what an empty cache would give.
     */
    method CreateFromCap(writecap: Option<Bytes>, readcap: Option<Bytes>, deepImmutable: bool) returns (n: Node)
      requires Valid()
      modifies this`nodeCache
      ensures Valid()
      ensures n == NodeFor(p, blacklist, writecap, readcap, deepImmutable)
      ensures Enforced(p, blacklist, writecap, readcap, deepImmutable, n)
      ensures nodeCache == CacheAfter(p, old(nodeCache), BigCap(writecap, readcap), deepImmutable)
    {
      hide FromString, UnknownFrom, Enforced;
      BlacklistEnforced(p, blacklist, writecap, readcap, deepImmutable);
      var big := BigCap(writecap, readcap);
      if big.None? {
        return Unknown(None, None, None);
      }
      var memokey := MemoKey(big.value, deepImmutable);
      assert memokey[1..] == big.value && (memokey[0] == 'I' <==> deepImmutable);
      if memokey in nodeCache {
        n := nodeCache[memokey];
        assert CachedRightly(p, memokey, n);
      } else {
        var cap := FromString(p, big.value, deepImmutable);
        if cap.KnownUri? && IsCreatable(cap.cap) {
          n := Known(cap.cap);
          if IsMutable(cap.cap) {
            assert CachedRightly(p, memokey, n);
            nodeCache := nodeCache[memokey := n];
          }
        } else {
          n := InitUnknownNode(p, writecap, readcap, deepImmutable);
        }
      }
      if blacklist.Some? {
        var si := if n.Known? then StorageIndex(p, n.cap) else None;
        if si.Some? && si.value in blacklist.value {
          n := Prohibited(n.cap, blacklist.value[si.value]);
        }
      }
    }
  }
}
