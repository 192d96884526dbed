/** What packing, unpacking and repacking a directory preserve. */
module DirectoryProofs {
  import opened Basics
  import opened NetstringCodec
  import opened Sorting
  import opened Directory
  import opened Nodes
  import opened Caps

  // ---- What unpacking reads -----------------------------------------------

  /** The entries of a directory in the order they are stored; None if the bytes are not a list of netstrings. */
  function Entries(data: Bytes): Option<seq<Bytes>>
    decreases |data|
  {
    if data == "" then Some([])
    else
      match TakeNetstring(data)
      case None => None
      case Some((entry, rest)) =>
        match Entries(rest)
        case None => None
        case Some(entries) => Some([entry] + entries)
  }

  lemma EntriesStep(data: Bytes)
    requires data != ""
    ensures SplitFrom(data, 1, 0).None? ==> Entries(data) == None
    ensures SplitFrom(data, 1, 0).Some? ==>
      var (entries, rest) := SplitFrom(data, 1, 0).value;
      Entries(data) == if Entries(rest).None? then None else Some(entries + Entries(rest).value)
  {
    hide TakeNetstring;
  }

  /** Entries joined as netstrings are found again. */
  lemma {:induction false} EntriesJoined(entries: seq<Bytes>)
    ensures Entries(Netstrings(entries)) == Some(entries)
  {
    hide TakeNetstring, Netstring;
    if entries != [] {
      TakeNetstringInverse(entries[0], Netstrings(entries[1..]));
      NetstringNotEmpty(entries[0], Netstrings(entries[1..]));
      EntriesJoined(entries[1..]);
      assert [entries[0]] + entries[1..] == entries;
    }
  }

  /** The entry is kept in this view, under this name. */
  ghost predicate KeptAs(e: Env, view: View, entry: Bytes, name: string) {
    DecodeEntry(e, view, entry).Kept? && DecodeEntry(e, view, entry).name == name
  }

  function SlotOf(e: Env, view: View, entry: Bytes): Slot
    requires DecodeEntry(e, view, entry).Kept?
  {
    var d := DecodeEntry(e, view, entry);
    Slot(d.node, d.metadata, Some(entry))
  }

  ghost predicate NoneSpoilt(e: Env, view: View, entries: seq<Bytes>) {
    forall i :: 0 <= i < |entries| ==> !DecodeEntry(e, view, entries[i]).Malformed?
  }

  /** The last of the entries that is kept under this name, at `i`. */
  ghost predicate LastKept(e: Env, view: View, entries: seq<Bytes>, name: string, i: nat) {
    && i < |entries| && KeptAs(e, view, entries[i], name)
    && forall j :: i < j < |entries| ==> !KeptAs(e, view, entries[j], name)
  }

  /** `result` has what the last entry for each name says, and elsewhere what `acc` had. */
  ghost predicate ReadOff(e: Env, view: View, entries: seq<Bytes>, acc: Children, result: Children) {
    && (forall n, i: nat :: LastKept(e, view, entries, n, i) ==> n in result && result[n] == SlotOf(e, view, entries[i]))
    && (forall n :: (forall i :: 0 <= i < |entries| ==> !KeptAs(e, view, entries[i], n)) ==>
          (n in result <==> n in acc) && (n in acc ==> result[n] == acc[n]))
  }

  lemma ReadOffFirst(e: Env, view: View, entries: seq<Bytes>, acc: Children, result: Children)
    requires entries != [] && !DecodeEntry(e, view, entries[0]).Malformed?
    requires ReadOff(e, view, entries[1..], AddDecoded(acc, entries[0], DecodeEntry(e, view, entries[0])), result)
    ensures ReadOff(e, view, entries, acc, result)
  {
    hide DecodeEntry;
    var rest := entries[1..];
    forall n, i: nat | LastKept(e, view, entries, n, i)
      ensures n in result && result[n] == SlotOf(e, view, entries[i])
    {
      if i > 0 {
        assert LastKept(e, view, rest, n, i - 1);
      } else {
        forall j | 0 <= j < |rest|
          ensures !KeptAs(e, view, rest[j], n)
        {
          assert rest[j] == entries[j + 1];
        }
      }
    }
    forall n | forall i :: 0 <= i < |entries| ==> !KeptAs(e, view, entries[i], n)
      ensures (n in result <==> n in acc) && (n in acc ==> result[n] == acc[n])
    {
      assert !KeptAs(e, view, entries[0], n);
      forall j | 0 <= j < |rest|
        ensures !KeptAs(e, view, rest[j], n)
      {
        assert rest[j] == entries[j + 1];
      }
    }
  }

  lemma {:induction false} UnpackReads(e: Env, view: View, data: Bytes, acc: Children)
    ensures var r := UnpackFrom(e, view, data, acc);
      && (r.Some? <==> Entries(data).Some? && NoneSpoilt(e, view, Entries(data).value))
      && (r.Some? ==> ReadOff(e, view, Entries(data).value, acc, r.value))
    decreases |data|
  {
    hide DecodeEntry, UnpackFrom, SplitFrom, Entries, ReadOff;
    UnpackStep(e, view, data, acc);
    if data == "" {
      NothingRead(e, view, acc);
    } else {
      EntriesStep(data);
      if SplitFrom(data, 1, 0).Some? {
        var (entries, rest) := SplitFrom(data, 1, 0).value;
        var d := DecodeEntry(e, view, entries[0]);
        if Entries(rest).Some? {
          var all := Entries(data).value;
          assert all[0] == entries[0] && all[1..] == Entries(rest).value;
          assert NoneSpoilt(e, view, all) <==> !d.Malformed? && NoneSpoilt(e, view, Entries(rest).value) by {
            SpoiltFirst(e, view, all);
          }
        }
        if !d.Malformed? {
          UnpackReads(e, view, rest, AddDecoded(acc, entries[0], d));
          if UnpackFrom(e, view, data, acc).Some? {
            ReadOffFirst(e, view, Entries(data).value, acc, UnpackFrom(e, view, data, acc).value);
          }
        }
      }
    }
  }

  lemma NothingRead(e: Env, view: View, acc: Children)
    ensures Entries("") == Some([]) && ReadOff(e, view, [], acc, acc)
  {
  }

  lemma SpoiltFirst(e: Env, view: View, all: seq<Bytes>)
    requires all != []
    ensures NoneSpoilt(e, view, all) <==> !DecodeEntry(e, view, all[0]).Malformed? && NoneSpoilt(e, view, all[1..])
  {
    hide DecodeEntry;
    assert forall i :: 0 < i < |all| ==> all[i] == all[1..][i - 1];
  }

  /**
   * What `_unpack_contents` reads, for any bytes and any view. It fails exactly
   * when the bytes are not a list of entries or one of these is malformed.
   * Otherwise a name is there exactly when some entry is kept under it, and then
   * the last such entry is the one that is read.
   */
  lemma UnpackReadsLast(e: Env, view: View, data: Bytes)
    ensures Unpacked(e, view, data).Some? <==> Entries(data).Some? && NoneSpoilt(e, view, Entries(data).value)
    ensures Unpacked(e, view, data).Some? ==>
      var entries, children := Entries(data).value, Unpacked(e, view, data).value;
      && (forall n :: n in children <==> exists i :: 0 <= i < |entries| && KeptAs(e, view, entries[i], n))
      && (forall n, i: nat :: LastKept(e, view, entries, n, i) ==> n in children && children[n] == SlotOf(e, view, entries[i]))
  {
    hide DecodeEntry, UnpackFrom, Entries;
    UnpackReads(e, view, data, map[]);
    if Unpacked(e, view, data).Some? {
      var entries, children := Entries(data).value, Unpacked(e, view, data).value;
      forall n, i | 0 <= i < |entries| && KeptAs(e, view, entries[i], n)
        ensures n in children
      {
        var last := FindLast(e, view, entries, n, i);
      }
    }
  }

  lemma {:induction false} FindLast(e: Env, view: View, entries: seq<Bytes>, name: string, i: nat) returns (last: nat)
    requires i < |entries| && KeptAs(e, view, entries[i], name)
    ensures LastKept(e, view, entries, name, last)
    decreases |entries| - i
  {
    if j :| i < j < |entries| && KeptAs(e, view, entries[j], name) {
      last := FindLast(e, view, entries, name, j);
    } else {
      last := i;
    }
  }

  /** Names are normalized on the way in, so no two children differ only in form. */
  lemma NamesNormalized(e: Env, view: View, data: Bytes, name: string)
    requires EnvLaws(e) && Unpacked(e, view, data).Some? && name in Unpacked(e, view, data).value
    ensures e.normalize(name) == name
  {
    hide UnpackFrom, Entries, NodeInView, Judge, SplitFrom;
    assert forall s: string :: e.normalize(e.normalize(s)) == e.normalize(s);
    hide EnvLaws;
    UnpackReadsLast(e, view, data);
    var entries := Entries(data).value;
    var i :| 0 <= i < |entries| && KeptAs(e, view, entries[i], name);
    KeptNormal(e, view, entries[i]);
  }

  lemma KeptNormal(e: Env, view: View, entry: Bytes)
    requires forall s: string :: e.normalize(e.normalize(s)) == e.normalize(s)
    requires DecodeEntry(e, view, entry).Kept?
    ensures e.normalize(DecodeEntry(e, view, entry).name) == DecodeEntry(e, view, entry).name
  {
    hide NodeInView, SplitFrom;
  }

  // ---- What packing writes ------------------------------------------------

  /** The child can be written: it records no error, its strings are known, and an immutable directory may have it. */
  predicate Packable(slot: Slot, deepImmutable: bool) {
    && (slot.node.Unknown? ==> slot.node.error.None?)
    && (slot.node.Unknown? || !IsVerifier(slot.node.cap) || (!deepImmutable && slot.raw.Some? && slot.raw.value != ""))
    && (deepImmutable ==> if slot.node.Unknown? then slot.node.rw.None? else !IsMutable(slot.node.cap))
  }

  /** Packing fails exactly when some child cannot be written. */
  lemma PacksIff(e: Env, writekey: Option<Bytes>, deepImmutable: bool, children: Children)
    ensures Packed(e, writekey, deepImmutable, children).Some? <==> forall n :: n in children ==> Packable(children[n], deepImmutable)
  {
    hide PackNames, EntryFor, Packable;
    var names := SortedNames(children.Keys);
    PackedEntriesExist(e, writekey, deepImmutable, children, names);
    forall n | n in children
      ensures EntryFor(e, writekey, deepImmutable, n, children[n]).Some? <==> Packable(children[n], deepImmutable)
    {
      WritableIff(e, writekey, deepImmutable, n, children[n]);
    }
    assert forall n :: n in names <==> n in children;
  }

  lemma WritableIff(e: Env, writekey: Option<Bytes>, deepImmutable: bool, name: string, slot: Slot)
    ensures EntryFor(e, writekey, deepImmutable, name, slot).Some? <==> Packable(slot, deepImmutable)
  {
    hide FreshEntry;
  }

  /** The packed bytes are one entry for each child, in increasing order of the names. */
  lemma PackedInOrder(e: Env, writekey: Option<Bytes>, deepImmutable: bool, children: Children, names: seq<string>)
    requires Packed(e, writekey, deepImmutable, children).Some? && IsSortedListing(names, children.Keys)
    ensures var entries := Entries(Packed(e, writekey, deepImmutable, children).value);
      && entries.Some? && |entries.value| == |names|
      && forall i :: 0 <= i < |names| ==> EntryFor(e, writekey, deepImmutable, names[i], children[names[i]]) == Some(entries.value[i])
  {
    hide PackNames, EntryFor, Entries;
    ListingUnique(names, SortedNames(children.Keys), children.Keys);
    assert forall n :: n in names ==> n in children;
    PackedNamesJoin(e, writekey, deepImmutable, children, names);
  }

  lemma {:induction false} PackedNamesJoin(e: Env, writekey: Option<Bytes>, deepImmutable: bool, children: Children, names: seq<string>)
    requires forall n :: n in names ==> n in children
    requires PackNames(e, writekey, deepImmutable, children, names).Some?
    ensures var entries := Entries(PackNames(e, writekey, deepImmutable, children, names).value);
      && entries.Some? && |entries.value| == |names|
      && forall i :: 0 <= i < |names| ==> EntryFor(e, writekey, deepImmutable, names[i], children[names[i]]) == Some(entries.value[i])
    decreases |names|
  {
    hide EntryFor, Netstring, SplitFrom, PackNames, Entries;
    PackStep(e, writekey, deepImmutable, children, names);
    if names == [] {
      NoEntries();
    } else {
      var entry := EntryFor(e, writekey, deepImmutable, names[0], children[names[0]]).value;
      var rest := PackNames(e, writekey, deepImmutable, children, names[1..]).value;
      PackedNamesJoin(e, writekey, deepImmutable, children, names[1..]);
      TakeEntry(entry, rest);
      EntriesStep(Netstring(entry) + rest);
    }
  }

  lemma NoEntries()
    ensures Entries("") == Some([])
  {
  }

  // ---- Unpacking what was packed ------------------------------------------

  /** The entry does not spoil the directory, and if it counts at all it counts for `name`. */
  ghost predicate SpeaksFor(e: Env, view: View, name: string, entry: Bytes) {
    match DecodeEntry(e, view, entry)
    case Malformed => false
    case Dropped => true
    case Kept(n, _, _) => n == name
  }

  /** What a view reads back: for each name, what its own packed entry decodes to. */
  function Restored(e: Env, view: View, writekey: Option<Bytes>, deepImmutable: bool, children: Children): Children {
    map n | n in children && RestoredSlot(e, view, writekey, deepImmutable, n, children[n]).Some? ::
      RestoredSlot(e, view, writekey, deepImmutable, n, children[n]).value
  }

  function RestoredSlot(e: Env, view: View, writekey: Option<Bytes>, deepImmutable: bool, name: string, slot: Slot): Option<Slot> {
    match EntryFor(e, writekey, deepImmutable, name, slot)
    case None => None
    case Some(entry) =>
      match DecodeEntry(e, view, entry)
      case Kept(_, node, metadata) => Some(Slot(node, metadata, Some(entry)))
      case _ => None
  }

  function Pick(m: Children, names: seq<string>): Children {
    map n | n in names && n in m :: m[n]
  }

  lemma PickOneMore(m: Children, names: seq<string>, acc: Children)
    requires names != []
    ensures (if names[0] in m then acc[names[0] := m[names[0]]] else acc) + Pick(m, names[1..]) == acc + Pick(m, names)
  {
    assert names == [names[0]] + names[1..];
  }

  ghost predicate AllSpeak(e: Env, view: View, writekey: Option<Bytes>, deepImmutable: bool, children: Children, names: seq<string>) {
    forall n :: n in names && n in children && EntryFor(e, writekey, deepImmutable, n, children[n]).Some? ==>
      SpeaksFor(e, view, n, EntryFor(e, writekey, deepImmutable, n, children[n]).value)
  }

  lemma TakeEntry(entry: Bytes, rest: Bytes)
    ensures SplitFrom(Netstring(entry) + rest, 1, 0) == Some(([entry], rest))
    ensures Netstring(entry) + rest != ""
  {
    hide SplitFrom, Netstring;
    assert Netstrings([entry]) == Netstring(entry) + Netstrings([]) == Netstring(entry);
    SplitInverse([entry], rest, 1, 0);
    NetstringNotEmpty(entry, rest);
  }

  lemma NetstringNotEmpty(entry: Bytes, rest: Bytes)
    ensures Netstring(entry) + rest != ""
  {
    assert |Netstring(entry)| > 0;
  }

  lemma {:induction false} UnpackPackedNames(e: Env, view: View, writekey: Option<Bytes>, deepImmutable: bool,
                                             children: Children, names: seq<string>, acc: Children)
    requires forall n :: n in names ==> n in children
    requires PackNames(e, writekey, deepImmutable, children, names).Some?
    requires AllSpeak(e, view, writekey, deepImmutable, children, names)
    ensures UnpackFrom(e, view, PackNames(e, writekey, deepImmutable, children, names).value, acc) ==
      Some(acc + Pick(Restored(e, view, writekey, deepImmutable, children), names))
    decreases |names|
  {
    hide EntryFor, DecodeEntry, SplitFrom, Netstring, UnpackFrom, PackNames;
    var all := Restored(e, view, writekey, deepImmutable, children);
    PackStep(e, writekey, deepImmutable, children, names);
    var bytes := PackNames(e, writekey, deepImmutable, children, names).value;
    UnpackStep(e, view, bytes, acc);
    if names == [] {
      assert acc + Pick(all, []) == acc;
    } else {
      var n := names[0];
      var entry := EntryFor(e, writekey, deepImmutable, n, children[n]).value;
      var rest := PackNames(e, writekey, deepImmutable, children, names[1..]).value;
      TakeEntry(entry, rest);
      assert SpeaksFor(e, view, n, entry);
      var next := AddDecoded(acc, entry, DecodeEntry(e, view, entry));
      UnpackPackedNames(e, view, writekey, deepImmutable, children, names[1..], next);
      PickOneMore(all, names, acc);
    }
  }

  lemma {:induction false} PackedEntriesExist(e: Env, writekey: Option<Bytes>, deepImmutable: bool, children: Children, names: seq<string>)
    requires forall n :: n in names ==> n in children
    ensures PackNames(e, writekey, deepImmutable, children, names).Some? <==>
      forall n :: n in names ==> EntryFor(e, writekey, deepImmutable, n, children[n]).Some?
    decreases |names|
  {
    hide EntryFor, PackNames, Netstring;
    PackStep(e, writekey, deepImmutable, children, names);
    if names != [] {
      PackedEntriesExist(e, writekey, deepImmutable, children, names[1..]);
      assert names == [names[0]] + names[1..];
    }
  }

  /**
   * The central theorem: whatever mixture of untouched and fresh children is
   * packed, unpacking gives back for each name what its own entry decodes to,
   * with those bytes as its cached entry, and nothing else.
   */
  lemma PackThenUnpack(e: Env, view: View, writekey: Option<Bytes>, deepImmutable: bool, children: Children)
    requires Packed(e, writekey, deepImmutable, children).Some?
    requires AllSpeak(e, view, writekey, deepImmutable, children, SortedNames(children.Keys))
    ensures Unpacked(e, view, Packed(e, writekey, deepImmutable, children).value) ==
      Some(Restored(e, view, writekey, deepImmutable, children))
  {
    hide EntryFor, DecodeEntry, PackNames, UnpackFrom, RestoredSlot;
    var names := SortedNames(children.Keys);
    var all := Restored(e, view, writekey, deepImmutable, children);
    UnpackPackedNames(e, view, writekey, deepImmutable, children, names, map[]);
    assert map[] + Pick(all, names) == all;
  }

  // ---- Slots that came from unpacking -------------------------------------

  /** The slot is what its cached entry decodes to. */
  ghost predicate ReadFrom(e: Env, view: View, name: string, slot: Slot) {
    && slot.raw.Some? && slot.raw.value != ""
    && DecodeEntry(e, view, slot.raw.value) == Kept(name, slot.node, slot.metadata)
  }

  lemma {:induction false} UnpackedSlots(e: Env, view: View, data: Bytes, acc: Children)
    requires UnpackFrom(e, view, data, acc).Some?
    requires forall n :: n in acc ==> ReadFrom(e, view, n, acc[n])
    ensures forall n :: n in UnpackFrom(e, view, data, acc).value ==>
      ReadFrom(e, view, n, UnpackFrom(e, view, data, acc).value[n])
    decreases |data|
  {
    hide DecodeEntry, UnpackFrom;
    UnpackStep(e, view, data, acc);
    if data != "" {
      var (entries, rest) := SplitFrom(data, 1, 0).value;
      EmptyEntryMalformed(e, view);
      UnpackedSlots(e, view, rest, AddDecoded(acc, entries[0], DecodeEntry(e, view, entries[0])));
    }
  }

  lemma EmptyEntryMalformed(e: Env, view: View)
    ensures DecodeEntry(e, view, "") == Malformed
  {
  }

  /** An untouched child repacks to exactly the bytes it was read from. */
  lemma UntouchedEntry(e: Env, view: View, writekey: Option<Bytes>, deepImmutable: bool, name: string, slot: Slot)
    requires ReadFrom(e, view, name, slot) && (deepImmutable ==> view.Immutable?)
    ensures EntryFor(e, writekey, deepImmutable, name, slot) == slot.raw
    ensures SpeaksFor(e, view, name, slot.raw.value)
    ensures RestoredSlot(e, view, writekey, deepImmutable, name, slot) == Some(slot)
  {
    hide FreshEntry, NodeInView, SplitFrom;
  }

  /**
   * Repacking is the identity: whatever bytes a directory was read from, with
   * non-canonical names, duplicates and dropped entries or not, packing what was
   * read never fails and reads back as the same children with the same entries.
   */
  lemma RepackIsIdentity(e: Env, view: View, data: Bytes, writekey: Option<Bytes>)
    requires Unpacked(e, view, data).Some?
    ensures
      var children := Unpacked(e, view, data).value;
      var packed := Packed(e, writekey, view.Immutable?, children);
      packed.Some? && Unpacked(e, view, packed.value) == Some(children)
  {
    hide EntryFor, DecodeEntry, PackNames, UnpackFrom, RestoredSlot;
    var children := Unpacked(e, view, data).value;
    var names := SortedNames(children.Keys);
    UnpackedSlots(e, view, data, map[]);
    forall n | n in children
      ensures EntryFor(e, writekey, view.Immutable?, n, children[n]) == children[n].raw
      ensures SpeaksFor(e, view, n, children[n].raw.value)
      ensures RestoredSlot(e, view, writekey, view.Immutable?, n, children[n]) == Some(children[n])
    {
      UntouchedEntry(e, view, writekey, view.Immutable?, n, children[n]);
    }
    PackedEntriesExist(e, writekey, view.Immutable?, children, names);
    PackThenUnpack(e, view, writekey, view.Immutable?, children);
    assert Restored(e, view, writekey, view.Immutable?, children) == children;
  }
}
