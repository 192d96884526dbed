/** Directory contents: the nested-netstring format and the dictionary that caches packed entries. */
module Directory {
  import opened Basics
  import opened NetstringCodec
  import opened Sorting
  import opened Caps
  import opened Nodes

  // ---- The world around the directory code --------------------------------

  datatype DoubleParts = DoubleParts(negative: bool, exponent: nat, mantissa: nat)

  /** A finite double-precision number by its bits; infinities and NaN are those with the exponent 2047. */
  type Double = d: DoubleParts | d.exponent < 2047 && d.mantissa < 0x10_0000_0000_0000 witness DoubleParts(false, 0, 0)

  /**
   * A JSON value as `json` reads it: a number is an integer or a double, and each
   * of them prints as a text that is read back as itself.
   */
  datatype Json =
    | Null | Bool(b: bool) | Int(n: int) | Float(x: Double) | Str(s: string)
    | Arr(items: seq<Json>) | Obj(fields: map<string, Json>)

  type Metadata = map<string, Json>

  /** The functions the directory code takes from elsewhere, and the blacklist of its node maker. */
  datatype Env = Env(
    caps: Primitives,
    blacklist: Blacklist,
    encodeUtf8: string -> Bytes,
    decodeUtf8: Bytes -> Option<string>,
    normalize: string -> string,
    dumps: Metadata -> Bytes,
    loads: Bytes -> Option<Json>,
    saltHash: Bytes -> Bytes,
    keyHash: (Bytes, Bytes) -> Bytes,
    encrypt: (Bytes, Bytes) -> Bytes,
    decrypt: (Bytes, Bytes) -> Bytes,
    hmac: (Bytes, Bytes) -> Bytes)

  ghost predicate EnvLaws(e: Env) {
    && Laws(e.caps)
    && (forall s: string :: e.decodeUtf8(e.encodeUtf8(s)) == Some(s))
    && (forall s: string :: e.normalize(e.normalize(s)) == e.normalize(s))
    && (forall m: Metadata :: e.loads(e.dumps(m)) == Some(Obj(m)))
    && (forall s: Bytes :: |e.saltHash(s)| == 16)
    && (forall k: Bytes, s: Bytes :: |e.hmac(k, s)| == 32)
    && (forall k: Bytes, s: Bytes :: e.decrypt(k, e.encrypt(k, s)) == s)
  }

  /** How a directory node sees its contents. */
  datatype View = Writer(writekey: Bytes) | Reader | Immutable

  // ---- Write caps ---------------------------------------------------------

  function EncryptRwUri(e: Env, writekey: Bytes, rwUri: Bytes): Bytes {
    var salt := e.saltHash(rwUri);
    var key := e.keyHash(salt, writekey);
    var crypttext := e.encrypt(key, rwUri);
    salt + crypttext + e.hmac(key, salt + crypttext)
  }

  function DecryptRwcapdata(e: Env, writekey: Bytes, data: Bytes): Bytes {
    var salt := Slice(data, 0, 16);
    var crypttext := Slice(data, 16, -32);
    e.decrypt(e.keyHash(salt, writekey), crypttext)
  }

  function StripSpaces(s: Bytes): (r: Bytes)
    ensures r <= s && (r == "" || r[|r| - 1] != ' ')
    ensures s != "" && s[|s| - 1] != ' ' ==> r == s
  {
    if s != "" && s[|s| - 1] == ' ' then StripSpaces(s[..|s| - 1]) else s
  }

  /** `strip_prefix_for_ro`. */
  function StripPrefixForRo(ro: Bytes, deepImmutable: bool): Bytes {
    if IMM <= ro then if deepImmutable then ro[|IMM|..] else ro
    else if RO <= ro then ro[|RO|..]
    else ro
  }

  // ---- One entry ----------------------------------------------------------

  /** `Malformed` stands for any exception that aborts the whole unpacking. */
  datatype Decoded = Malformed | Dropped | Kept(name: string, node: Node, metadata: Metadata)

  /** The node an entry with these two fields stands for in a view. */
  function NodeInView(e: Env, view: View, roField: Bytes, rwField: Bytes): Node {
    var rw := if view.Writer? then DecryptRwcapdata(e, view.writekey, rwField) else "";
    NodeFor(e.caps, e.blacklist, OrNone(Some(StripSpaces(rw))), OrNone(Some(StripSpaces(roField))), view.Immutable?)
  }

  /** What becomes of an entry once its node is made. */
  function Judge(view: View, name: string, node: Node, metadata: Option<Json>): Decoded {
    if NodeError(node).Some? then Dropped
    else if view.Immutable? && !HasUris(node) then Malformed
    else if view.Immutable? && !AllowedInImmutable(node) then Dropped
    else
      match metadata
      case Some(Obj(m)) => Kept(name, node, m)
      case _ => Malformed
  }

  function DecodeFields(e: Env, view: View, nameField: Bytes, roField: Bytes, rwField: Bytes, metadataField: Bytes): Decoded {
    if view.Immutable? && |rwField| > 0 then Malformed
    else
      match e.decodeUtf8(nameField)
      case None => Malformed
      case Some(namex) =>
        Judge(view, e.normalize(namex), NodeInView(e, view, roField, rwField), e.loads(metadataField))
  }

  function DecodeEntry(e: Env, view: View, entry: Bytes): Decoded {
    match SplitFrom(entry, 4, 0)
    case None => Malformed
    case Some((f, _)) => DecodeFields(e, view, f[0], f[1], f[2], f[3])
  }

  function OrEmpty(u: Option<Bytes>): Bytes {
    if u.Some? then u.value else ""
  }

  /** A packed entry for a node; `writekey` None leaves the write cap out. */
  function FreshEntry(e: Env, writekey: Option<Bytes>, deepImmutable: bool, name: string, node: Node, metadata: Metadata): Bytes
    requires HasUris(node)
  {
    var rw, ro := OrEmpty(WriteUri(e.caps, node)), OrEmpty(ReadUri(e.caps, node));
    Netstrings([e.encodeUtf8(name), StripPrefixForRo(ro, deepImmutable),
                if writekey.Some? then EncryptRwUri(e, writekey.value, rw) else "",
                e.dumps(metadata)])
  }

  // ---- All entries --------------------------------------------------------

  /** A child with the packed entry it was read from, if it has not been touched since. */
  datatype Slot = Slot(node: Node, metadata: Metadata, raw: Option<Bytes>)

  type Children = map<string, Slot>

  function AddDecoded(children: Children, entry: Bytes, d: Decoded): Children
    requires !d.Malformed?
  {
    if d.Kept? then children[d.name := Slot(d.node, d.metadata, Some(entry))] else children
  }

  function UnpackFrom(e: Env, view: View, data: Bytes, children: Children): Option<Children>
    decreases |data|
  {
    if data == "" then Some(children)
    else
      match SplitFrom(data, 1, 0)
      case None => None
      case Some((entries, rest)) =>
        var d := DecodeEntry(e, view, entries[0]);
        if d.Malformed? then None else UnpackFrom(e, view, rest, AddDecoded(children, entries[0], d))
  }

  lemma UnpackStep(e: Env, view: View, data: Bytes, children: Children)
    ensures UnpackFrom(e, view, data, children) ==
      if data == "" then Some(children)
      else if SplitFrom(data, 1, 0).None? then None
      else
        var (entries, rest) := SplitFrom(data, 1, 0).value;
        var d := DecodeEntry(e, view, entries[0]);
        if d.Malformed? then None else UnpackFrom(e, view, rest, AddDecoded(children, entries[0], d))
  {
  }

  /** What `_unpack_contents` returns; None if it raises. */
  function Unpacked(e: Env, view: View, data: Bytes): Option<Children> {
    UnpackFrom(e, view, data, map[])
  }

  /** The entry to write for a slot; None if packing raises. */
  function EntryFor(e: Env, writekey: Option<Bytes>, deepImmutable: bool, name: string, slot: Slot): Option<Bytes> {
    if NodeError(slot.node).Some? then None
    else if deepImmutable && !(HasUris(slot.node) && AllowedInImmutable(slot.node)) then None
    else if slot.raw.Some? && slot.raw.value != "" then slot.raw
    else if !HasUris(slot.node) then None
    else Some(FreshEntry(e, writekey, deepImmutable, name, slot.node, slot.metadata))
  }

  function PackNames(e: Env, writekey: Option<Bytes>, deepImmutable: bool, children: Children, names: seq<string>): Option<Bytes>
    requires forall n :: n in names ==> n in children
  {
    if names == [] then Some("")
    else
      match (EntryFor(e, writekey, deepImmutable, names[0], children[names[0]]),
             PackNames(e, writekey, deepImmutable, children, names[1..]))
      case (Some(entry), Some(rest)) => Some(Netstring(entry) + rest)
      case _ => None
  }

  lemma PackStep(e: Env, writekey: Option<Bytes>, deepImmutable: bool, children: Children, names: seq<string>)
    requires forall n :: n in names ==> n in children
    ensures PackNames(e, writekey, deepImmutable, children, names) ==
      if names == [] then Some("")
      else
        var entry := EntryFor(e, writekey, deepImmutable, names[0], children[names[0]]);
        if entry.None? then None
        else Prepend(Netstring(entry.value), PackNames(e, writekey, deepImmutable, children, names[1..]))
  {
    hide EntryFor, Netstring;
  }

  function Prepend(a: Bytes, b: Option<Bytes>): Option<Bytes> {
    if b.Some? then Some(a + b.value) else None
  }

  /** What `_pack_normalized_children` returns; None if it raises. */
  ghost function Packed(e: Env, writekey: Option<Bytes>, deepImmutable: bool, children: Children): Option<Bytes> {
    PackNames(e, writekey, deepImmutable, children, SortedNames(children.Keys))
  }

  // ---- The dictionary with cached packed entries --------------------------

  class AuxValueDict {
    var main: map<string, (Node, Metadata)>
    var aux: map<string, Option<Bytes>>

    ghost predicate Valid()
      reads this
    {
      aux.Keys == main.Keys
    }

    ghost function Contents(): Children
      requires Valid()
      reads this
    {
      map n | n in main :: Slot(main[n].0, main[n].1, aux[n])
    }

    constructor ()
      ensures Valid() && Contents() == map[]
    {
      main, aux := map[], map[];
    }

    /** Plain assignment clears the cached entry. */
    method SetItem(name: string, node: Node, metadata: Metadata)
      requires Valid()
      modifies this
      ensures Valid() && Contents() == old(Contents())[name := Slot(node, metadata, None)]
    {
      main := main[name := (node, metadata)];
      aux := aux[name := None];
    }

    method SetWithAux(name: string, node: Node, metadata: Metadata, entry: Bytes)
      requires Valid()
      modifies this
      ensures Valid() && Contents() == old(Contents())[name := Slot(node, metadata, Some(entry))]
    {
      main := main[name := (node, metadata)];
      aux := aux[name := Some(entry)];
    }

    method DelItem(name: string)
      requires Valid() && name in main
      modifies this
      ensures Valid() && Contents() == old(Contents()) - {name}
    {
      main := main - {name};
      aux := aux - {name};
    }
  }

  /** `_unpack_contents`. */
  method UnpackContents(e: Env, view: View, data: Bytes) returns (r: Option<AuxValueDict>)
    ensures r.Some? <==> Unpacked(e, view, data).Some?
    ensures r.Some? ==> fresh(r.value) && r.value.Valid() && Unpacked(e, view, data) == Some(r.value.Contents())
  {
    hide DecodeEntry, SplitFrom, UnpackFrom;
    var children := new AuxValueDict();
    var position := 0;
    assert data[0..] == data;
    while position < |data|
      invariant position <= |data|
      invariant fresh(children) && children.Valid()
      invariant UnpackFrom(e, view, data[position..], children.Contents()) == Unpacked(e, view, data)
    {
      var split := SplitNetstring(data, 1, position, None);
      if split.None? {
        UnpackStep(e, view, data[position..], children.Contents());
        return None;
      }
      var entry := split.value.0[0];
      var d := DecodeEntry(e, view, entry);
      UnpackStep(e, view, data[position..], children.Contents());
      if d.Malformed? {
        return None;
      }
      position := split.value.1;
      RecordEntry(children, entry, d);
    }
    UnpackStep(e, view, data[position..], children.Contents());
    return Some(children);
  }

  /** Puts a decoded entry into the dictionary, unless it was dropped. */
  method RecordEntry(children: AuxValueDict, entry: Bytes, d: Decoded)
    requires children.Valid() && !d.Malformed?
    modifies children
    ensures children.Valid() && children.Contents() == AddDecoded(old(children.Contents()), entry, d)
  {
    if d.Kept? {
      children.SetItem(d.name, d.node, d.metadata);
      children.SetWithAux(d.name, d.node, d.metadata, entry);
      assert children.Contents() == old(children.Contents())[d.name := Slot(d.node, d.metadata, Some(entry))];
    }
  }

  /** `_pack_normalized_children`. */
  method PackNormalizedChildren(e: Env, writekey: Option<Bytes>, deepImmutable: bool, children: AuxValueDict)
      returns (r: Option<Bytes>)
    requires children.Valid()
    ensures r == Packed(e, writekey, deepImmutable, children.Contents())
  {
    hide EntryFor, PackNames, Netstring;
    var names := SortNames(children.main.Keys);
    ghost var contents := children.Contents();
    assert contents.Keys == children.main.Keys;
    var packed := "";
    var i := 0;
    assert names[0..] == names;
    PrependNothing(PackNames(e, writekey, deepImmutable, contents, names));
    while i < |names|
      invariant 0 <= i <= |names|
      invariant Packed(e, writekey, deepImmutable, contents) == Prepend(packed, PackNames(e, writekey, deepImmutable, contents, names[i..]))
    {
      var name := names[i];
      var (child, metadata) := children.main[name];
      var entry := EntryFor(e, writekey, deepImmutable, name, Slot(child, metadata, children.aux[name]));
      assert names[i..][1..] == names[i + 1..];
      PackStep(e, writekey, deepImmutable, contents, names[i..]);
      if entry.None? {
        return None;
      }
      PrependTwice(packed, Netstring(entry.value), PackNames(e, writekey, deepImmutable, contents, names[i + 1..]));
      packed := packed + Netstring(entry.value);
      i := i + 1;
    }
    PackStep(e, writekey, deepImmutable, contents, names[i..]);
    assert packed + "" == packed;
    return Some(packed);
  }

  lemma PrependNothing(b: Option<Bytes>)
    ensures Prepend("", b) == b
  {
    if b.Some? {
      assert "" + b.value == b.value;
    }
  }

  lemma PrependTwice(a: Bytes, b: Bytes, c: Option<Bytes>)
    ensures Prepend(a, Prepend(b, c)) == Prepend(a + b, c)
  {
    if c.Some? {
      assert a + (b + c.value) == a + b + c.value;
    }
  }
}
