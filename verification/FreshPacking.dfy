/** Children that are packed anew: exactly which of them come back as they were. */
module FreshPacking {
  import opened Basics
  import opened NetstringCodec
  import opened Caps
  import opened CapProofs
  import opened Nodes
  import opened Directory

  // ---- The four fields of a fresh entry -----------------------------------

  lemma DecryptInverse(e: Env, writekey: Bytes, rwUri: Bytes)
    requires EnvLaws(e)
    ensures DecryptRwcapdata(e, writekey, EncryptRwUri(e, writekey, rwUri)) == rwUri
  {
    var salt := e.saltHash(rwUri);
    var key := e.keyHash(salt, writekey);
    var crypttext := e.encrypt(key, rwUri);
    var mac := e.hmac(key, salt + crypttext);
    assert |mac| == 32;
    SliceMiddle(salt, crypttext, mac);
    assert e.decrypt(key, crypttext) == rwUri;
  }

  lemma SliceMiddle(salt: Bytes, crypttext: Bytes, mac: Bytes)
    requires |salt| == 16 && |mac| == 32
    ensures Slice(salt + crypttext + mac, 0, 16) == salt
    ensures Slice(salt + crypttext + mac, 16, -32) == crypttext
  {
  }

  /** The stored form of a write cap: 16 bytes of salt, the encrypted cap, and 32 bytes of MAC over both. */
  lemma RwFieldParts(e: Env, writekey: Bytes, rwUri: Bytes)
    requires EnvLaws(e)
    ensures
      var field := EncryptRwUri(e, writekey, rwUri);
      |field| >= 48
    ensures
      var field := EncryptRwUri(e, writekey, rwUri);
      var salt, crypttext, mac := field[..16], field[16..|field| - 32], field[|field| - 32..];
      var key := e.keyHash(salt, writekey);
      salt == e.saltHash(rwUri) && crypttext == e.encrypt(key, rwUri) && mac == e.hmac(key, salt + crypttext)
  {
    var salt := e.saltHash(rwUri);
    var key := e.keyHash(salt, writekey);
    var crypttext := e.encrypt(key, rwUri);
    assert |e.hmac(key, salt + crypttext)| == 32;
  }

  /** The node a view makes of a fresh entry for `node`. */
  function StoredNode(e: Env, view: View, deepImmutable: bool, node: Node): Node
    requires HasUris(node)
  {
    var rw := if view.Writer? then OrEmpty(WriteUri(e.caps, node)) else "";
    var ro := StripPrefixForRo(OrEmpty(ReadUri(e.caps, node)), deepImmutable);
    NodeFor(e.caps, e.blacklist, OrNone(Some(StripSpaces(rw))), OrNone(Some(StripSpaces(ro))), view.Immutable?)
  }

  /** The packing that fits a view: a writer packs with its own key, an immutable directory without one. */
  predicate PacksFor(view: View, writekey: Option<Bytes>, deepImmutable: bool) {
    match view
    case Writer(k) => writekey == Some(k) && !deepImmutable
    case Reader => !deepImmutable
    case Immutable => writekey == None && deepImmutable
  }

  lemma SplitFour(a: Bytes, b: Bytes, c: Bytes, d: Bytes)
    ensures SplitFrom(Netstrings([a, b, c, d]), 4, 0) == Some(([a, b, c, d], ""))
  {
    hide SplitFrom, Netstring;
    var s := Netstrings([a, b, c, d]);
    assert s + "" == s;
    SplitInverse([a, b, c, d], "", 4, 0);
  }

  /**
   * An entry of four fields counts under the normal form of its name, whatever
   * name was written, with its metadata and the node its two cap fields stand for.
   */
  lemma EntryDecodes(e: Env, view: View, name: string, roField: Bytes, rwField: Bytes, metadata: Metadata)
    requires EnvLaws(e) && (view.Immutable? ==> rwField == "")
    ensures DecodeEntry(e, view, Netstrings([e.encodeUtf8(name), roField, rwField, e.dumps(metadata)])) ==
      Judge(view, e.normalize(name), NodeInView(e, view, roField, rwField), Some(Obj(metadata)))
  {
    hide SplitFrom, NodeInView, Netstrings, Judge;
    SplitFour(e.encodeUtf8(name), roField, rwField, e.dumps(metadata));
    assert e.decodeUtf8(e.encodeUtf8(name)) == Some(name);
    assert e.loads(e.dumps(metadata)) == Some(Obj(metadata));
  }

  /**
   * Which entries of four fields abort the unpacking: one with a write cap in an
   * immutable directory, one with a name that is not UTF-8, and, where the node is
   * not dropped, one for a verify cap there or with metadata that is no dictionary.
   */
  lemma EntrySpoils(e: Env, view: View, nameField: Bytes, roField: Bytes, rwField: Bytes, metadataField: Bytes)
    requires Laws(e.caps)
    ensures DecodeEntry(e, view, Netstrings([nameField, roField, rwField, metadataField])).Malformed? <==>
      || (view.Immutable? && rwField != "") || e.decodeUtf8(nameField).None?
      || var node := NodeInView(e, view, roField, rwField);
         && (node.Unknown? ==> node.error.None?)
         && ((view.Immutable? && !node.Unknown? && IsVerifier(node.cap)) ||
             !(e.loads(metadataField).Some? && e.loads(metadataField).value.Obj?))
  {
    hide SplitFrom, Netstrings, NodeFor, Laws, StripSpaces, DecryptRwcapdata;
    SplitFour(nameField, roField, rwField, metadataField);
    var rw := if view.Writer? then DecryptRwcapdata(e, view.writekey, rwField) else "";
    CreationIsSafe(e.caps, e.blacklist, OrNone(Some(StripSpaces(rw))), OrNone(Some(StripSpaces(roField))), view.Immutable?);
  }

  /** A fresh entry keeps its name and metadata whatever happens to its node. */
  lemma FreshDecodes(e: Env, view: View, writekey: Option<Bytes>, deepImmutable: bool, name: string, node: Node, metadata: Metadata)
    requires EnvLaws(e) && HasUris(node) && PacksFor(view, writekey, deepImmutable)
    requires e.normalize(name) == name
    ensures DecodeEntry(e, view, FreshEntry(e, writekey, deepImmutable, name, node, metadata)) ==
      Judge(view, name, StoredNode(e, view, deepImmutable, node), Some(Obj(metadata)))
  {
    hide DecodeEntry, NodeFor, Netstrings, EncryptRwUri, DecryptRwcapdata, StripPrefixForRo, StripSpaces, ToString, Judge, EnvLaws;
    var rw, ro := OrEmpty(WriteUri(e.caps, node)), OrEmpty(ReadUri(e.caps, node));
    var rwField := if writekey.Some? then EncryptRwUri(e, writekey.value, rw) else "";
    EntryDecodes(e, view, name, StripPrefixForRo(ro, deepImmutable), rwField, metadata);
    if view.Writer? {
      DecryptInverse(e, view.writekey, rw);
    }
  }

  // ---- Known children -----------------------------------------------------

  lemma PrintedEnd(p: Primitives, c: Cap)
    requires Laws(p) && WellFormed(c.f)
    ensures var s := ToString(p, c); s != "" && s[|s| - 1] != ' '
  {
    hide Prefix;
    var pre, bits := Prefix(c.Dir?, KindOf(c.f)), Bits(p, c.f);
    PrefixEnd(c.Dir?, KindOf(c.f));
    BitsEnd(p, c.f);
    assert ToString(p, c) == pre + bits;
  }

  lemma PrefixEnd(dir: bool, k: Kind)
    ensures var s := Prefix(dir, k); s != "" && s[|s| - 1] == ':'
  {
  }

  lemma BitsEnd(p: Primitives, f: FileCap)
    requires Laws(p) && WellFormed(f)
    ensures var s := Bits(p, f); s != "" ==> s[|s| - 1] != ' '
  {
    var b := if f.LIT? then p.b2a(f.data) else p.b2a(Fields(f).1);
    assert IsAnyBytes(b);
    assert IsBase32(b);
    if !f.LIT? {
      TailEnd(f);
      var s := Keys(p, f);
      assert s[|s| - 1] == if b == "" then ':' else b[|b| - 1];
    }
  }

  lemma TailEnd(f: FileCap)
    ensures var s := Tail(f); s != "" ==> s[|s| - 1] != ' '
  {
    if f.CHK? || f.CHKVerifier? {
      var s := Numbers(f.needed, f.total, f.size);
      var d := Decimal(f.size);
      assert s[|s| - 1] == d[|d| - 1];
      assert IsDigit(d[|d| - 1]);
    }
  }

  lemma PrintedPlain(p: Primitives, c: Cap, deepImmutable: bool)
    requires Laws(p) && WellFormed(c.f)
    ensures StripSpaces(StripPrefixForRo(ToString(p, c), deepImmutable)) == ToString(p, c)
    ensures StripSpaces(ToString(p, c)) == ToString(p, c) && ToString(p, c) != ""
  {
    hide ToString;
    PrintedEnd(p, c);
    SplitPrinted(p, c);
  }

  lemma NodeForPrinted(p: Primitives, blacklist: Blacklist, c: Cap, readcap: Option<Bytes>, deepImmutable: bool)
    requires Laws(p) && WellFormed(c.f) && !IsVerifier(c) && (deepImmutable ==> !IsMutable(c))
    ensures NodeFor(p, blacklist, Some(ToString(p, c)), readcap, deepImmutable) == Guarded(p, blacklist, c)
    ensures NodeFor(p, blacklist, None, Some(ToString(p, c)), deepImmutable) == Guarded(p, blacklist, c)
  {
    hide FromString, ToString, UnknownFrom;
    PrintedPlain(p, c, false);
    ParsePlain(p, c, deepImmutable);
  }

  /** What each view makes of a known child: itself, or its read-only form for a reader. */
  lemma StoredKnown(e: Env, view: View, deepImmutable: bool, node: Node)
    requires EnvLaws(e) && !node.Unknown? && HasUris(node) && WellFormed(node.cap.f)
    requires view.Immutable? ==> !IsMutable(node.cap)
    ensures StoredNode(e, view, deepImmutable, node) ==
      Guarded(e.caps, e.blacklist, if view.Writer? then node.cap else Readonly(e.caps, node.cap))
  {
    hide FromString, ToString, NodeFor, StripSpaces, StripPrefixForRo, Guarded, Readonly, Laws, WellFormed;
    var p := e.caps;
    var ro := Readonly(p, node.cap);
    Attenuation(p, node.cap);
    PrintedPlain(p, ro, deepImmutable);
    PrintedPlain(p, node.cap, deepImmutable);
    StripNothing();
    if view.Writer? && !IsReadonly(node.cap) {
      NodeForPrinted(p, e.blacklist, node.cap, Some(ToString(p, ro)), false);
    } else {
      ReadonlyOfReadonly(p, node.cap);
      NodeForPrinted(p, e.blacklist, ro, None, view.Immutable?);
    }
  }

  lemma StripNothing()
    ensures StripSpaces("") == ""
  {
  }

  lemma ReadonlyOfReadonly(p: Primitives, c: Cap)
    ensures IsReadonly(c) ==> Readonly(p, c) == c
  {
  }

  // ---- Unknown children ---------------------------------------------------

  /** What parsing a string leads to: a node, a recorded error, or neither. */
  datatype Verdict = Makes(cap: Cap) | Refused(error: CapError) | Inert

  function VerdictOf(u: Uri): Verdict {
    match u
    case KnownUri(c) => if IsCreatable(c) then Makes(c) else Inert
    case UnknownUri(_, Some(error)) => Refused(error)
    case UnknownUri(_, None) => Inert
  }

  /** The verdict on the part of a string after its alleged prefix. */
  function Verdict0(p: Primitives, s: Bytes, canBeMutable: bool, canBeWriteable: bool): Verdict {
    VerdictOf(FromUnprefixed(p, s, s, canBeMutable, canBeWriteable))
  }

  lemma VerdictOnString(p: Primitives, u: Bytes, deepImmutable: bool)
    ensures VerdictOf(FromString(p, u, deepImmutable)) ==
      if IMM <= u then Verdict0(p, u[|IMM|..], false, false)
      else if RO <= u then Verdict0(p, u[|RO|..], !deepImmutable, false)
      else Verdict0(p, u, !deepImmutable, !deepImmutable)
  {
    hide Dispatch, ParseBits;
  }

  /** Lifting constraints never makes an inert string mean something, nor refuses one that was not refused. */
  lemma VerdictLoosens(p: Primitives, s: Bytes, m1: bool, w1: bool, m2: bool, w2: bool)
    requires (m1 ==> m2) && (w1 ==> w2) && (w1 ==> m1) && (w2 ==> m2)
    requires !Verdict0(p, s, m1, w1).Refused?
    ensures Verdict0(p, s, m2, w2) == Verdict0(p, s, m1, w1)
  {
    hide Dispatch, ParseBits, Prefix;
  }

  /**
   * The strings of an unknown node that some `create_from_cap` call returned
   * without an error: no string in it could have made a node of a known kind.
   */
  ghost predicate Producible(p: Primitives, n: Node) {
    && n.Unknown? && n.error.None?
    && (n.rw.Some? ==> n.rw.value != "" && !VerdictOf(FromString(p, n.rw.value, false)).Makes? && n.ro.Some?)
    && (n.ro.Some? ==>
          if IMM <= n.ro.value then n.rw.None? && Verdict0(p, n.ro.value[|IMM|..], false, false).Inert?
          else RO <= n.ro.value && ReadPartOk(p, n.ro.value[|RO|..], n.rw.Some?))
  }

  predicate ReadPartOk(p: Primitives, s: Bytes, hasRw: bool) {
    var v := Verdict0(p, s, true, true);
    if hasRw then !v.Refused? else v.Inert?
  }

  lemma PrefixFacts(x: Bytes)
    ensures RO <= RO + x && !(IMM <= RO + x) && (RO + x)[|RO|..] == x
    ensures IMM <= IMM + x && !(RO <= IMM + x) && (IMM + x)[|IMM|..] == x
  {
    assert (RO + x)[0] == 'r' && (IMM + x)[0] == 'i';
  }

  lemma SlotProducible(p: Primitives, rw: Option<Bytes>, given: Bytes, deepImmutable: bool)
    requires !VerdictOf(FromString(p, given, deepImmutable)).Refused?
    requires rw.None? ==> !VerdictOf(FromString(p, given, deepImmutable)).Makes?
    requires rw.Some? ==> !deepImmutable && !(IMM <= given)
    requires rw.Some? ==> rw.value != "" && !VerdictOf(FromString(p, rw.value, false)).Makes?
    ensures Producible(p, Unknown(None, rw, Some(Strengthen(given, deepImmutable))))
  {
    hide FromString, Verdict0, VerdictOf;
    VerdictOnString(p, given, deepImmutable);
    PrefixFacts(given);
    if RO <= given {
      assert given[0] == 'r';
      PrefixFacts(given[|RO|..]);
      VerdictLoosens(p, given[|RO|..], !deepImmutable, false, true, true);
    }
  }

  /** Every error-free unknown node that creation returns is producible. */
  lemma CreatedIsProducible(p: Primitives, blacklist: Blacklist, writecap: Option<Bytes>, readcap: Option<Bytes>, deepImmutable: bool)
    requires NodeFor(p, blacklist, writecap, readcap, deepImmutable).Unknown?
    requires NodeFor(p, blacklist, writecap, readcap, deepImmutable).error.None?
    ensures Producible(p, NodeFor(p, blacklist, writecap, readcap, deepImmutable))
  {
    hide FromString, Strengthen, Producible;
    var n := NodeFor(p, blacklist, writecap, readcap, deepImmutable);
    match (OrNone(writecap), OrNone(readcap))
    case (None, None) => assert Producible(p, n) by { NothingProducible(p); }
    case (None, Some(ro)) => SlotProducible(p, None, ro, deepImmutable);
    case (Some(rw), None) => SlotProducible(p, None, rw, deepImmutable);
    case (Some(rw), Some(ro)) => SlotProducible(p, Some(rw), ro, false);
  }

  lemma NothingProducible(p: Primitives)
    ensures Producible(p, Unknown(None, None, None))
  {
  }

  // ---- Exactly when an unknown child survives -----------------------------

  predicate NoTrailingSpace(s: Bytes) {
    s == "" || s[|s| - 1] != ' '
  }

  /** Something is left after the prefix, and it is not another prefix. */
  predicate PlainRest(x: Bytes) {
    x != "" && !(RO <= x) && !(IMM <= x)
  }

  /** A caller can see from the strings alone whether an unknown child survives storing in a mutable directory. */
  predicate StorableInMutable(n: Node)
    requires n.Unknown?
  {
    && (n.rw.Some? ==> NoTrailingSpace(n.rw.value))
    && (n.ro.Some? ==> NoTrailingSpace(n.ro.value))
    && (n.ro.Some? && RO <= n.ro.value ==> PlainRest(n.ro.value[|RO|..]))
  }

  /** The same for an immutable directory. */
  predicate StorableInImmutable(n: Node)
    requires n.Unknown?
  {
    n.ro.Some? ==> IMM <= n.ro.value && NoTrailingSpace(n.ro.value) && PlainRest(n.ro.value[|IMM|..])
  }

  /** Where the strings of an unknown node come from. */
  lemma UnknownShape(p: Primitives, blacklist: Blacklist, w: Option<Bytes>, r: Option<Bytes>, deepImmutable: bool)
    requires w != Some("") && r != Some("")
    requires NodeFor(p, blacklist, w, r, deepImmutable).Unknown?
    requires NodeFor(p, blacklist, w, r, deepImmutable).error.None?
    ensures
      var n := NodeFor(p, blacklist, w, r, deepImmutable);
      && (n.rw.Some? ==> n.rw == w && r.Some? && n.ro == Some(Strengthen(r.value, deepImmutable)))
      && (n.ro.Some? ==>
            if r.Some? then n.ro == Some(Strengthen(r.value, deepImmutable))
            else w.Some? && n.ro == Some(Strengthen(w.value, deepImmutable)))
  {
    hide FromString, Strengthen;
  }

  lemma MakesUnknown(p: Primitives, blacklist: Blacklist, w: Option<Bytes>, r: Bytes, deepImmutable: bool)
    requires r != "" && w != Some("")
    requires w.Some? ==> !deepImmutable && !(IMM <= r) && !VerdictOf(FromString(p, w.value, false)).Makes?
    requires w.None? ==> !VerdictOf(FromString(p, r, deepImmutable)).Makes?
    requires !VerdictOf(FromString(p, r, deepImmutable)).Refused?
    ensures NodeFor(p, blacklist, w, Some(r), deepImmutable) == Unknown(None, w, Some(Strengthen(r, deepImmutable)))
  {
    hide FromString, Strengthen;
  }

  lemma StrengthenEnd(r: Bytes, deepImmutable: bool)
    requires r != "" && NoTrailingSpace(r)
    ensures NoTrailingSpace(Strengthen(r, deepImmutable))
  {
    var s := Strengthen(r, deepImmutable);
    if RO <= r && deepImmutable && !(IMM <= r) {
      if |r| > |RO| {
        assert s[|s| - 1] == r[|r| - 1];
      } else {
        assert s == IMM;
      }
    } else {
      assert s[|s| - 1] == r[|r| - 1];
    }
  }

  lemma AfterPrefix(r: Bytes, pre: Bytes)
    requires pre <= r
    ensures r == pre + r[|pre|..]
    ensures r[|pre|..] != "" ==> (NoTrailingSpace(r[|pre|..]) <==> NoTrailingSpace(r))
  {
  }

  lemma KeepsSpaces(s: Bytes)
    ensures StripSpaces(s) == s <==> NoTrailingSpace(s)
    ensures NoTrailingSpace(StripSpaces(s))
  {
  }

  lemma SurvivesMutable(e: Env, writekey: Bytes, n: Node)
    requires Producible(e.caps, n) && StorableInMutable(n)
    ensures StoredNode(e, Writer(writekey), false, n) == n
  {
    hide FromString, NodeFor, Verdict0, VerdictOf, StripSpaces;
    var p := e.caps;
    KeepsSpaces(OrEmpty(n.rw));
    StripNothing();
    if n.ro.Some? {
      var r := n.ro.value;
      if IMM <= r {
        assert !(RO <= r) by { assert r[0] == 'i'; }
        KeepsSpaces(r);
        VerdictOnString(p, r, false);
        MakesUnknown(p, e.blacklist, n.rw, r, false);
      } else {
        var x := r[|RO|..];
        AfterPrefix(r, RO);
        KeepsSpaces(x);
        VerdictOnString(p, x, false);
        MakesUnknown(p, e.blacklist, n.rw, x, false);
      }
    } else {
      NothingStored(p, e.blacklist, false);
    }
  }

  lemma NothingStored(p: Primitives, blacklist: Blacklist, deepImmutable: bool)
    ensures NodeFor(p, blacklist, None, None, deepImmutable) == Unknown(None, None, None)
  {
  }

  lemma SurvivorStorableInMutable(e: Env, writekey: Bytes, n: Node)
    requires Producible(e.caps, n) && StoredNode(e, Writer(writekey), false, n) == n
    ensures StorableInMutable(n)
  {
    hide FromString, NodeFor, Verdict0, VerdictOf, StripSpaces;
    var p := e.caps;
    var w := OrNone(Some(StripSpaces(OrEmpty(n.rw))));
    var r := OrNone(Some(StripSpaces(StripPrefixForRo(OrEmpty(n.ro), false))));
    KeepsSpaces(OrEmpty(n.rw));
    KeepsSpaces(StripPrefixForRo(OrEmpty(n.ro), false));
    StripNothing();
    UnknownShape(p, e.blacklist, w, r, false);
    if n.ro.Some? {
      StrengthenEnd(r.value, false);
      if RO <= n.ro.value {
        assert n.ro.value[0] == 'r';
        RoPartPlain(e, n, w, r);
      }
    }
  }

  /** A read slot that came back with its "ro." prefix had a plain rest. */
  lemma RoPartPlain(e: Env, n: Node, w: Option<Bytes>, r: Option<Bytes>)
    requires n.Unknown? && n.ro.Some? && RO <= n.ro.value && NoTrailingSpace(n.ro.value)
    requires w == OrNone(Some(StripSpaces(OrEmpty(n.rw)))) && r == OrNone(Some(StripSpaces(n.ro.value[|RO|..])))
    requires NodeFor(e.caps, e.blacklist, w, r, false) == n && n.error.None?
    ensures PlainRest(n.ro.value[|RO|..])
  {
    hide FromString, NodeFor, StripSpaces;
    var x := n.ro.value[|RO|..];
    AfterPrefix(n.ro.value, RO);
    KeepsSpaces(x);
    StripNothing();
    UnknownShape(e.caps, e.blacklist, w, r, false);
    NothingStored(e.caps, e.blacklist, false);
    assert n.ro.value == Strengthen(x, false);
  }

  /**
   * Exactly which unknown children a mutable directory gives back unchanged:
   * those without trailing spaces whose read cap is more than its prefix and
   * carries no second one. The condition is on the strings of the child alone.
   */
  lemma UnknownSurvivesMutable(e: Env, writekey: Bytes, n: Node)
    requires Producible(e.caps, n)
    ensures StoredNode(e, Writer(writekey), false, n) == n <==> StorableInMutable(n)
  {
    hide NodeFor, StoredNode, StorableInMutable, Verdict0, VerdictOf, FromString;
    if StorableInMutable(n) {
      SurvivesMutable(e, writekey, n);
    }
    if StoredNode(e, Writer(writekey), false, n) == n {
      SurvivorStorableInMutable(e, writekey, n);
    }
  }

  /** The same for immutable directories: only alleged-immutable read caps survive there. */
  lemma UnknownSurvivesImmutable(e: Env, n: Node)
    requires Producible(e.caps, n) && n.rw.None?
    ensures StoredNode(e, Immutable, true, n) == n <==> StorableInImmutable(n)
  {
    hide FromString, NodeFor, Verdict0, VerdictOf, StripSpaces;
    var p := e.caps;
    StripNothing();
    if n.ro.None? {
      NothingStored(p, e.blacklist, true);
    } else {
      var x := StripPrefixForRo(n.ro.value, true);
      var r := OrNone(Some(StripSpaces(x)));
      KeepsSpaces(x);
      if StorableInImmutable(n) {
        AfterPrefix(n.ro.value, IMM);
        VerdictOnString(p, x, true);
        MakesUnknown(p, e.blacklist, None, x, true);
      }
      if NodeFor(p, e.blacklist, None, r, true) == n {
        SurvivorStorableInImmutable(e, n, x, r);
      }
    }
  }

  lemma SurvivorStorableInImmutable(e: Env, n: Node, x: Bytes, r: Option<Bytes>)
    requires n.Unknown? && n.rw.None? && n.ro.Some? && n.error.None? && x == StripPrefixForRo(n.ro.value, true)
    requires r == OrNone(Some(StripSpaces(x))) && NodeFor(e.caps, e.blacklist, None, r, true) == n
    ensures StorableInImmutable(n)
  {
    hide FromString, NodeFor, StripSpaces;
    UnknownShape(e.caps, e.blacklist, None, r, true);
    KeepsSpaces(x);
    StrengthenEnd(r.value, true);
    StrengthenPrefix(r.value, true);
    AfterPrefix(n.ro.value, IMM);
    assert !(RO <= n.ro.value) by { assert n.ro.value[0] == 'i'; }
    assert x == n.ro.value[|IMM|..];
    assert n.ro.value == Strengthen(x, true);
  }

  // ---- Exactly when a link is lost ----------------------------------------

  predicate IsRefused(p: Primitives, s: Bytes) {
    VerdictOf(FromString(p, s, false)).Refused?
  }

  predicate MakesNode(p: Primitives, s: Bytes) {
    VerdictOf(FromString(p, s, false)).Makes?
  }

  /** What is written of the read cap of an unknown child, as it is read back: one "ro." and spaces at the end are gone. */
  function StoredRo(n: Node): Bytes
    requires n.Unknown?
  {
    StripSpaces(StripPrefixForRo(OrEmpty(n.ro), false))
  }

  /**
   * A writer does not drop an entry whose stripped cap fields are `w` and `r`:
   * the read cap is not refused and, beside a write cap that means nothing, is
   * there and does not claim to be immutable.
   */
  predicate FieldsKept(p: Primitives, w: Bytes, r: Bytes) {
    if w == "" then r == "" || !IsRefused(p, r)
    else if MakesNode(p, w) then true
    else if r == "" then (RO <= w || IMM <= w) && !IsRefused(p, w)
    else !(IMM <= r) && !IsRefused(p, r)
  }

  lemma FieldsKeptIff(p: Primitives, blacklist: Blacklist, w: Bytes, r: Bytes)
    ensures NodeError(NodeFor(p, blacklist, OrNone(Some(w)), OrNone(Some(r)), false)).None? <==> FieldsKept(p, w, r)
  {
    hide FromString, Strengthen;
  }

  /** A writer finds the link to this child again; a caller can tell from its strings. */
  predicate LinkKept(p: Primitives, n: Node) {
    n.Unknown? ==> FieldsKept(p, StripSpaces(OrEmpty(n.rw)), StoredRo(n))
  }

  lemma UnknownKept(e: Env, writekey: Bytes, n: Node)
    requires n.Unknown?
    ensures NodeError(StoredNode(e, Writer(writekey), false, n)).None? <==> LinkKept(e.caps, n)
  {
    hide FieldsKept, NodeFor, StripSpaces, StripPrefixForRo;
    FieldsKeptIff(e.caps, e.blacklist, StripSpaces(OrEmpty(n.rw)), StoredRo(n));
  }

  /** A node that creation can return without an error. */
  ghost predicate IsMade(p: Primitives, n: Node) {
    if n.Unknown? then Producible(p, n) else WellFormed(n.cap.f)
  }

  lemma CreatedIsMade(p: Primitives, blacklist: Blacklist, writecap: Option<Bytes>, readcap: Option<Bytes>, deepImmutable: bool)
    requires Laws(p) && NodeError(NodeFor(p, blacklist, writecap, readcap, deepImmutable)).None?
    ensures IsMade(p, NodeFor(p, blacklist, writecap, readcap, deepImmutable))
  {
    hide NodeFor, Producible, WellFormed, Laws;
    if NodeFor(p, blacklist, writecap, readcap, deepImmutable).Unknown? {
      CreatedIsProducible(p, blacklist, writecap, readcap, deepImmutable);
    } else {
      KnownNodeKind(p, blacklist, writecap, readcap, deepImmutable);
    }
  }

  /** The iff for every child: packing it anew keeps the link exactly when its strings say so. */
  lemma KeptIff(e: Env, writekey: Bytes, n: Node)
    requires EnvLaws(e) && IsMade(e.caps, n) && HasUris(n)
    ensures NodeError(StoredNode(e, Writer(writekey), false, n)).None? <==> LinkKept(e.caps, n)
  {
    hide StoredNode, LinkKept, Producible, EnvLaws, WellFormed;
    if n.Unknown? {
      UnknownKept(e, writekey, n);
    } else {
      StoredKnown(e, Writer(writekey), false, n);
      KnownKept(e, n);
    }
  }

  lemma KnownKept(e: Env, n: Node)
    requires !n.Unknown?
    ensures LinkKept(e.caps, n) && NodeError(Guarded(e.caps, e.blacklist, n.cap)).None?
  {
  }

  // ---- Write caps do not come back ----------------------------------------

  /** Without its trailing spaces a string that meant nothing does not become a write cap. */
  lemma StrippedNotWriteable(p: Primitives, y: Bytes)
    requires Laws(p) && Verdict0(p, y, true, true).Inert?
    ensures var u := FromUnprefixed(p, StripSpaces(y), StripSpaces(y), true, true); u.KnownUri? ==> IsReadonly(u.cap)
  {
    hide Dispatch, ParseBits, Prefix, Laws;
    var r := StripSpaces(y);
    var u := FromUnprefixed(p, r, r, true, true);
    if u.KnownUri? {
      var (dir, k) := Dispatch(r).value;
      assert Prefix(dir, k) <= y;
      DispatchFinds(y, dir, k);
      ParsedWellFormed(p, k, r[|Prefix(dir, k)|..]);
      if IsWriteKind(k) && ParseBits(p, k, y[|Prefix(dir, k)|..]).Some? {
        ParsedWellFormed(p, k, y[|Prefix(dir, k)|..]);
      }
    }
  }

  lemma StripKeepsPrefix(s: Bytes)
    ensures IMM <= s <==> IMM <= StripSpaces(s)
    ensures RO <= s <==> RO <= StripSpaces(s)
  {
    hide StripSpaces;
    PrefixStaysWhenStripped(IMM, s);
    PrefixStaysWhenStripped(RO, s);
  }

  lemma {:induction false} PrefixStaysWhenStripped(pre: Bytes, s: Bytes)
    requires pre != "" && pre[|pre| - 1] != ' '
    ensures pre <= s <==> pre <= StripSpaces(s)
  {
    if s != "" && s[|s| - 1] == ' ' {
      PrefixStaysWhenStripped(pre, s[..|s| - 1]);
      if pre <= s {
        assert |pre| < |s|;
      }
    }
  }

  /** What is stored of a read cap never parses to a write cap. */
  lemma StoredRoNotWriteable(p: Primitives, n: Node)
    requires Laws(p) && Producible(p, n) && n.rw.None?
    ensures var u := FromString(p, StoredRo(n), false); u.KnownUri? ==> IsReadonly(u.cap)
  {
    hide FromUnprefixed, StripSpaces, Laws, Verdict0, Dispatch;
    var r := StoredRo(n);
    if FromString(p, r, false).KnownUri? {
      ParsedKind(p, r, false);
      if !(IMM <= r) && !(RO <= r) && n.ro.Some? {
        StripKeepsPrefix(n.ro.value);
        StrippedNotWriteable(p, n.ro.value[|RO|..]);
      } else if n.ro.None? {
        StripNothing();
        EmptyMeansNothing(p);
      }
    }
  }

  lemma EmptyMeansNothing(p: Primitives)
    ensures FromString(p, "", false) == UnknownUri("", None)
  {
    hide ParseBits;
  }

  /** A node made from a read cap alone can be written through only if that parses to a write cap. */
  lemma ReadNodeWrites(p: Primitives, blacklist: Blacklist, r: Bytes)
    ensures var n := NodeFor(p, blacklist, None, OrNone(Some(r)), false); HasUris(n) ==>
      (WriteUri(p, n).Some? <==> r != "" && FromString(p, r, false).KnownUri? && !IsReadonly(FromString(p, r, false).cap))
  {
    hide FromString, ToString, Strengthen;
  }

  lemma UnknownNoWriteStored(e: Env, writekey: Bytes, n: Node)
    requires Laws(e.caps) && n.Unknown? && Producible(e.caps, n) && n.rw.None?
    ensures var stored := StoredNode(e, Writer(writekey), false, n); HasUris(stored) ==> WriteUri(e.caps, stored) == None
  {
    hide FromString, NodeFor, StripPrefixForRo, StripSpaces, Producible, Laws;
    StripNothing();
    StoredRoNotWriteable(e.caps, n);
    ReadNodeWrites(e.caps, e.blacklist, StoredRo(n));
  }

  lemma GuardedWrites(p: Primitives, blacklist: Blacklist, c: Cap)
    ensures var n := Guarded(p, blacklist, c); HasUris(n) ==> (WriteUri(p, n).Some? <==> !IsReadonly(c))
  {
    hide ToString;
  }

  /** A child that cannot be written through is not read back as one that can. */
  lemma NoWriteStored(e: Env, writekey: Bytes, n: Node)
    requires EnvLaws(e) && IsMade(e.caps, n) && HasUris(n) && WriteUri(e.caps, n) == None
    ensures var stored := StoredNode(e, Writer(writekey), false, n); HasUris(stored) ==> WriteUri(e.caps, stored) == None
  {
    assert Laws(e.caps);
    hide EnvLaws, Laws, WellFormed, StoredNode, ToString, Producible, Guarded;
    if n.Unknown? {
      UnknownNoWriteStored(e, writekey, n);
    } else {
      StoredKnown(e, Writer(writekey), false, n);
      GuardedWrites(e.caps, e.blacklist, n.cap);
    }
  }

  /** What creation makes of a string that means nothing behind its prefix. */
  lemma InertNode(p: Primitives, blacklist: Blacklist, u: Bytes, deepImmutable: bool)
    requires if deepImmutable then IMM <= u else RO <= u && !(IMM <= u)
    requires var rest := if deepImmutable then u[|IMM|..] else u[|RO|..];
      (rest != "" ==> rest[0] != 'U') && !(FUTURE_WRITEABLE <= rest) && !(FUTURE_MUTABLE <= rest)
    ensures NodeFor(p, blacklist, None, Some(u), deepImmutable) == Unknown(None, None, Some(u))
    ensures Producible(p, Unknown(None, None, Some(u)))
  {
    hide FromString, Verdict0, VerdictOf, Dispatch, NodeFor, Producible;
    VerdictOnString(p, u, deepImmutable);
    if deepImmutable {
      NoClass(p, u[|IMM|..], false, false);
    } else {
      NoClass(p, u[|RO|..], true, false);
    }
    MakesUnknown(p, blacklist, None, u, deepImmutable);
    CreatedIsProducible(p, blacklist, None, Some(u), deepImmutable);
  }

  /** A child that creation returns and a mutable directory does not give back. */
  lemma NotInMutable(e: Env, writekey: Bytes, ro: Bytes)
    requires ro in {"ro.ro.x", "ro.", "ro.x "}
    ensures var n := Unknown(None, None, Some(ro));
      NodeFor(e.caps, e.blacklist, None, Some(ro), false) == n && StoredNode(e, Writer(writekey), false, n) != n
  {
    hide NodeFor, StoredNode, Producible, Dispatch;
    var rest := ro[|RO|..];
    assert ro[0] == 'r' && (rest == "ro.x" || rest == "" || rest == "x ");
    assert RO <= "ro.x";
    InertNode(e.caps, e.blacklist, ro, false);
    UnknownSurvivesMutable(e, writekey, Unknown(None, None, Some(ro)));
  }

  /**
   * Children that creation returns and that do not survive: in a mutable directory
   * those with a second prefix, with nothing behind the prefix or with a trailing
   * space, in an immutable one for instance one with a trailing space.
   */
  lemma NotAllSurvive(e: Env, writekey: Bytes)
    ensures forall ro :: ro in {"ro.ro.x", "ro.", "ro.x "} ==>
      var n := Unknown(None, None, Some(ro));
      NodeFor(e.caps, e.blacklist, None, Some(ro), false) == n && StoredNode(e, Writer(writekey), false, n) != n
    ensures var n := Unknown(None, None, Some("imm.x "));
      NodeFor(e.caps, e.blacklist, None, Some("imm.x "), true) == n && StoredNode(e, Immutable, true, n) != n
  {
    hide NodeFor, StoredNode, Producible, Dispatch;
    forall ro | ro in {"ro.ro.x", "ro.", "ro.x "}
      ensures var n := Unknown(None, None, Some(ro));
        NodeFor(e.caps, e.blacklist, None, Some(ro), false) == n && StoredNode(e, Writer(writekey), false, n) != n
    {
      NotInMutable(e, writekey, ro);
    }
    var imm := "imm.x ";
    assert imm[|IMM|..] == "x " && IMM <= imm;
    InertNode(e.caps, e.blacklist, imm, true);
    UnknownSurvivesImmutable(e, Unknown(None, None, Some(imm)));
  }

  /**
   * Caps of the two formats reserved for testing future formats are unknown, and
   * refused where the prefix or the context forbids what their name says.
   */
  lemma FutureCaps(p: Primitives, s: Bytes, deepImmutable: bool)
    requires FUTURE_WRITEABLE <= s || FUTURE_MUTABLE <= s
    ensures FromString(p, s, deepImmutable) == UnknownUri(s, if deepImmutable then Some(MustBeDeepImmutable) else None)
    ensures FromString(p, IMM + s, deepImmutable) == UnknownUri(IMM + s, Some(MustBeDeepImmutable))
    ensures FromString(p, RO + s, deepImmutable) ==
      UnknownUri(RO + s, if deepImmutable then Some(MustBeDeepImmutable)
                         else if FUTURE_WRITEABLE <= s then Some(MustBeReadonly)
                         else None)
  {
    hide ParseBits;
    PrefixFacts(s);
    assert s[0] == 'x';
    NoDispatch(s);
    hide Dispatch;
    assert FUTURE_WRITEABLE[20] != FUTURE_MUTABLE[20];
  }

  lemma NoDispatch(s: Bytes)
    requires s != "" && s[0] != 'U'
    ensures Dispatch(s) == None
  {
  }

  /** A string that does not start like a cap means nothing. */
  lemma NoClass(p: Primitives, s: Bytes, canBeMutable: bool, canBeWriteable: bool)
    requires (s != "" ==> s[0] != 'U') && !(FUTURE_WRITEABLE <= s) && !(FUTURE_MUTABLE <= s)
    ensures FromUnprefixed(p, s, s, canBeMutable, canBeWriteable) == UnknownUri(s, None)
    ensures Verdict0(p, s, canBeMutable, canBeWriteable) == Inert
  {
    hide ParseBits;
  }
}
