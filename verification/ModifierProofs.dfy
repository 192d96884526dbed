/** The byte-level modifiers refine updates of the map of children. */
module ModifierProofs {
  import opened Basics
  import opened NetstringCodec
  import opened Sorting
  import opened Caps
  import opened CapProofs
  import opened Nodes
  import opened Directory
  import opened DirectoryProofs
  import opened FreshPacking
  import opened Modifiers

  // ---- Writing a mixture of untouched and new links -----------------------

  /**
   * What the writer reads back for one link: an untouched one is exactly as it
   * was, bytes included; a new one is what its strings stand for.
   */
  function Written(e: Env, writekey: Bytes, name: string, slot: Slot): Option<Slot> {
    if slot.raw.Some? then Some(slot)
    else if !HasUris(slot.node) then None
    else
      var stored := StoredNode(e, Writer(writekey), false, slot.node);
      if NodeError(stored).Some? then None
      else Some(Slot(stored, slot.metadata, Some(FreshEntry(e, Some(writekey), false, name, slot.node, slot.metadata))))
  }

  function AllWritten(e: Env, writekey: Bytes, children: Children): Children {
    map n | n in children && Written(e, writekey, n, children[n]).Some? :: Written(e, writekey, n, children[n]).value
  }

  /** Untouched since it was read, or new under a normalized name. */
  ghost predicate Mixed(e: Env, writekey: Bytes, children: Children) {
    forall n :: n in children ==>
      ReadFrom(e, Writer(writekey), n, children[n]) || (children[n].raw == None && e.normalize(n) == n)
  }

  lemma WrittenIsRestored(e: Env, writekey: Bytes, name: string, slot: Slot)
    requires EnvLaws(e) || slot.raw.Some?
    requires ReadFrom(e, Writer(writekey), name, slot) || (slot.raw == None && e.normalize(name) == name)
    requires EntryFor(e, Some(writekey), false, name, slot).Some?
    ensures RestoredSlot(e, Writer(writekey), Some(writekey), false, name, slot) == Written(e, writekey, name, slot)
    ensures SpeaksFor(e, Writer(writekey), name, EntryFor(e, Some(writekey), false, name, slot).value)
  {
    hide FreshEntry, DecodeEntry, StoredNode, EnvLaws;
    if slot.raw.Some? {
      UntouchedEntry(e, Writer(writekey), Some(writekey), false, name, slot);
    } else {
      FreshDecodes(e, Writer(writekey), Some(writekey), false, name, slot.node, slot.metadata);
    }
  }

  lemma MixedPackUnpack(e: Env, writekey: Bytes, children: Children)
    requires Mixed(e, writekey, children) && Packed(e, Some(writekey), false, children).Some?
    requires EnvLaws(e) || forall n :: n in children ==> children[n].raw.Some?
    ensures Unpacked(e, Writer(writekey), Packed(e, Some(writekey), false, children).value) ==
      Some(AllWritten(e, writekey, children))
  {
    hide EntryFor, DecodeEntry, PackNames, UnpackFrom, RestoredSlot, Written, EnvLaws;
    PackedEntriesExist(e, Some(writekey), false, children, SortedNames(children.Keys));
    forall n | n in children
      ensures RestoredSlot(e, Writer(writekey), Some(writekey), false, n, children[n]) == Written(e, writekey, n, children[n])
      ensures SpeaksFor(e, Writer(writekey), n, EntryFor(e, Some(writekey), false, n, children[n]).value)
    {
      WrittenIsRestored(e, writekey, n, children[n]);
    }
    PackThenUnpack(e, Writer(writekey), Some(writekey), false, children);
    assert Restored(e, Writer(writekey), Some(writekey), false, children) == AllWritten(e, writekey, children);
  }

  lemma ReadChildren(e: Env, view: View, data: Bytes)
    requires Unpacked(e, view, data).Some?
    ensures forall n :: n in Unpacked(e, view, data).value ==> ReadFrom(e, view, n, Unpacked(e, view, data).value[n])
  {
    hide DecodeEntry, UnpackFrom;
    UnpackedSlots(e, view, data, map[]);
  }

  lemma HaveBeenRead(e: Env, view: View, children: Children)
    requires forall n :: n in children ==> ReadFrom(e, view, n, children[n])
    ensures forall n :: n in children ==> children[n].raw.Some?
  {
    hide DecodeEntry;
  }

  // ---- Deleting -----------------------------------------------------------

  /** An unknown child is never of the wrong kind, and a prohibited one counts as a file whatever it is. */
  predicate WrongKind(o: DeleteOptions, child: Node) {
    match child
    case Unknown(_, _, _) => false
    case Prohibited(_, _) => o.mustBeDirectory
    case Known(c) => if c.Dir? then o.mustBeFile else o.mustBeDirectory && !IsVerifier(c)
  }

  /**
   * Deleting removes exactly the named link; every other link keeps its exact
   * packed bytes. It happens exactly when the link is there and is not of the
   * wrong type: contents that could be read never fail to be written again. A
   * missing link is an error only the first time and if it must exist.
   */
  lemma DeleteRefines(e: Env, writekey: Bytes, name: string, o: DeleteOptions, contents: Bytes, firstTime: bool)
    ensures var r := Deleted(e, writekey, name, o, contents, firstTime); var before := Unpacked(e, Writer(writekey), contents);
      && (r == Raised(Crashed) <==> before.None?)
      && (r == Raised(NoSuchChild) <==> before.Some? && name !in before.value && firstTime && o.mustExist)
      && (r == NoChange <==> before.Some? && name !in before.value && !(firstTime && o.mustExist))
      && (r == Raised(WrongType) <==> before.Some? && name in before.value && WrongKind(o, before.value[name].node))
      && (r.NewContents? <==> before.Some? && name in before.value && !WrongKind(o, before.value[name].node))
      && (r.NewContents? ==>
            Unpacked(e, Writer(writekey), r.contents) == Some(before.value - {name}))
  {
    hide Unpacked, Packed, ReadFrom;
    var before := Unpacked(e, Writer(writekey), contents);
    if before.Some? && name in before.value {
      ReadChildren(e, Writer(writekey), contents);
      UntouchedRoundTrip(e, writekey, before.value - {name});
    }
  }

  lemma UntouchedRoundTrip(e: Env, writekey: Bytes, children: Children)
    requires forall n :: n in children ==> ReadFrom(e, Writer(writekey), n, children[n])
    ensures var packed := Packed(e, Some(writekey), false, children);
      packed.Some? && Unpacked(e, Writer(writekey), packed.value) == Some(children)
  {
    hide Unpacked, Packed, DecodeEntry, AllWritten, EnvLaws;
    UntouchedPacks(e, writekey, children);
    MixedPackUnpack(e, writekey, children);
    UntouchedWritten(e, writekey, children);
  }

  lemma UntouchedWritten(e: Env, writekey: Bytes, children: Children)
    requires forall n :: n in children ==> children[n].raw.Some?
    ensures AllWritten(e, writekey, children) == children
  {
    hide StoredNode, FreshEntry;
  }

  lemma UntouchedPacks(e: Env, writekey: Bytes, children: Children)
    requires forall n :: n in children ==> ReadFrom(e, Writer(writekey), n, children[n])
    ensures Packed(e, Some(writekey), false, children).Some?
  {
    hide EntryFor, DecodeEntry, PackNames;
    forall n | n in children
      ensures EntryFor(e, Some(writekey), false, n, children[n]).Some?
    {
      UntouchedEntry(e, Writer(writekey), Some(writekey), false, n, children[n]);
    }
    PackedEntriesExist(e, Some(writekey), false, children, SortedNames(children.Keys));
  }

  // ---- Adding and setting metadata ----------------------------------------

  function Named(e: Env, entries: seq<Entry>): set<string> {
    set i | 0 <= i < |entries| :: e.normalize(entries[i].namex)
  }

  lemma WithEntryFrame(e: Env, o: AddOptions, now: Json, children: Children, entry: Entry)
    requires WithEntry(e, o, now, children, entry).Ok?
    ensures var next := WithEntry(e, o, now, children, entry).value; var name := e.normalize(entry.namex);
      && next.Keys == children.Keys + {name}
      && next[name].raw == None
      && (forall n :: n in children && n != name ==> next[n] == children[n])
  {
    hide NewLink;
    var name := e.normalize(entry.namex);
    var current := if name in children then Some(children[name].metadata) else None;
    NewLinkIsFresh(e, o.createReadonly, now, current, entry.metadata, entry.child);
  }

  /** Adding touches exactly the named links: the others stay as they are. */
  lemma {:induction false} WithEntriesFrame(e: Env, o: AddOptions, now: Json, children: Children, entries: seq<Entry>)
    requires WithEntries(e, o, now, children, entries).Ok?
    ensures var next := WithEntries(e, o, now, children, entries).value;
      && next.Keys == children.Keys + Named(e, entries)
      && (forall n :: n in Named(e, entries) ==> next[n].raw == None)
      && (forall n :: n in children && n !in Named(e, entries) ==> next[n] == children[n])
    decreases |entries|
  {
    hide WithEntry;
    if entries != [] {
      var mid := WithEntry(e, o, now, children, entries[0]).value;
      WithEntryFrame(e, o, now, children, entries[0]);
      WithEntriesFrame(e, o, now, mid, entries[1..]);
      NamedStep(e, entries);
    }
  }

  lemma NamedStep(e: Env, entries: seq<Entry>)
    requires entries != []
    ensures Named(e, entries) == {e.normalize(entries[0].namex)} + Named(e, entries[1..])
  {
    var tail := entries[1..];
    forall n
      ensures n in Named(e, entries) <==> n == e.normalize(entries[0].namex) || n in Named(e, tail)
    {
      if n in Named(e, entries) {
        var i :| 0 <= i < |entries| && n == e.normalize(entries[i].namex);
        if i > 0 {
          assert tail[i - 1] == entries[i];
        }
      }
      if n in Named(e, tail) {
        var i :| 0 <= i < |tail| && n == e.normalize(tail[i].namex);
        assert entries[i + 1] == tail[i];
      }
    }
  }

  lemma NamedNormalized(e: Env, entries: seq<Entry>, n: string)
    requires EnvLaws(e) && n in Named(e, entries)
    ensures e.normalize(n) == n
  {
    var i :| 0 <= i < |entries| && n == e.normalize(entries[i].namex);
  }

  // ---- What the new links are ---------------------------------------------

  ghost predicate EntriesMade(e: Env, entries: seq<Entry>) {
    forall i :: 0 <= i < |entries| ==> IsMade(e.caps, entries[i].child)
  }

  predicate MarkedNoWrite(metadata: Metadata) {
    NO_WRITE in metadata && Truthy(metadata[NO_WRITE])
  }

  /** Everything is true in Python but nothing, zeros and what is empty. */
  lemma TruthyIs(j: Json)
    ensures !Truthy(j) <==>
      || j in {Null, Bool(false), Int(0), Str(""), Arr([]), Obj(map[])}
      || j == Float(DoubleParts(false, 0, 0)) || j == Float(DoubleParts(true, 0, 0))
  {
  }

  ghost predicate CannotWrite(e: Env, n: Node) {
    HasUris(n) ==> WriteUri(e.caps, n) == None
  }

  /** A link that is not packed yet: to a node that creation can return, and not a writeable one if that is forbidden. */
  ghost predicate IsNewLink(e: Env, createReadonly: bool, slot: Slot) {
    slot.raw == None && IsMade(e.caps, slot.node) && (createReadonly && MarkedNoWrite(slot.metadata) ==> CannotWrite(e, slot.node))
  }

  /** A cap read from a string alleged to be read-only or immutable gives a node that cannot be written through. */
  lemma AllegedReadonlyNode(p: Primitives, blacklist: Blacklist, ro: Bytes)
    requires Laws(p) && ro != "" && (RO <= ro || IMM <= ro)
    ensures var n := NodeFor(p, blacklist, None, Some(ro), false); HasUris(n) ==> WriteUri(p, n) == None
  {
    hide FromString, NodeFor, Laws;
    if FromString(p, ro, false).KnownUri? {
      ParsedKind(p, ro, false);
    }
    ReadNodeWrites(p, blacklist, ro);
  }

  lemma AllegedNotEmpty(ro: Bytes)
    requires RO <= ro || IMM <= ro
    ensures ro != ""
  {
  }

  /** The read-only node for a child is one that creation can return, and cannot be written through. */
  lemma ReadonlyNodeMade(e: Env, child: Node)
    requires Laws(e.caps) && IsMade(e.caps, child) && ReadonlyNode(e, child).Ok?
    ensures IsMade(e.caps, ReadonlyNode(e, child).value) && CannotWrite(e, ReadonlyNode(e, child).value)
  {
    hide ToString, FromString, NodeFor, Verdict0, VerdictOf, Laws, WellFormed;
    if child.Unknown? {
      NothingStored(e.caps, e.blacklist, false);
      if child.ro.Some? {
        AllegedNotEmpty(child.ro.value);
        AllegedReadonlyNode(e.caps, e.blacklist, child.ro.value);
      }
      CreatedIsMade(e.caps, e.blacklist, None, ReadUri(e.caps, child), false);
    } else if !IsReadonly(child.cap) {
      Attenuation(e.caps, child.cap);
      NodeForPrinted(e.caps, e.blacklist, Readonly(e.caps, child.cap), None, false);
      CreatedIsMade(e.caps, e.blacklist, None, ReadUri(e.caps, child), false);
    }
  }

  /**
   * The "no-write" mark is enforced: a link made with it holds a node that
   * cannot be written through, for every child that creation can return.
   */
  lemma NoWriteIsEnforced(e: Env, createReadonly: bool, now: Json, current: Option<Metadata>, update: Option<Metadata>, child: Node)
    requires Laws(e.caps) && IsMade(e.caps, child)
    requires NewLink(e, createReadonly, now, current, update, child).Ok?
    ensures IsNewLink(e, createReadonly, NewLink(e, createReadonly, now, current, update, child).value)
  {
    hide UpdatedMetadata, ReadonlyNode, IsMade, Laws, HasUris;
    if ReadonlyNode(e, child).Ok? {
      ReadonlyNodeMade(e, child);
    }
  }

  lemma {:induction false} WithEntriesNew(e: Env, o: AddOptions, now: Json, children: Children, entries: seq<Entry>)
    requires Laws(e.caps) && EntriesMade(e, entries) && WithEntries(e, o, now, children, entries).Ok?
    ensures var next := WithEntries(e, o, now, children, entries).value;
      forall n :: n in Named(e, entries) ==> n in next && IsNewLink(e, o.createReadonly, next[n])
    decreases |entries|
  {
    hide NewLink, IsMade, Laws, CannotWrite, IsNewLink;
    if entries != [] {
      var name := e.normalize(entries[0].namex);
      var mid := WithEntry(e, o, now, children, entries[0]).value;
      var current := if name in children then Some(children[name].metadata) else None;
      NoWriteIsEnforced(e, o.createReadonly, now, current, entries[0].metadata, entries[0].child);
      WithEntriesNew(e, o, now, mid, entries[1..]);
      WithEntriesFrame(e, o, now, mid, entries[1..]);
      NamedStep(e, entries);
    }
  }

  /** What becomes of a new link. */
  lemma WrittenLink(e: Env, writekey: Bytes, name: string, createReadonly: bool, slot: Slot)
    requires EnvLaws(e) && IsNewLink(e, createReadonly, slot) && EntryFor(e, Some(writekey), false, name, slot).Some?
    ensures var w := Written(e, writekey, name, slot);
      && (w.Some? <==> LinkKept(e.caps, slot.node))
      && (w.Some? ==> w.value.metadata == slot.metadata)
      && (w.Some? && SurvivesInMutable(e, slot.node) ==> w.value.node == slot.node)
      && (w.Some? && createReadonly && MarkedNoWrite(slot.metadata) ==> CannotWrite(e, w.value.node))
  {
    hide EnvLaws, IsMade, LinkKept, StoredNode, FreshEntry, SurvivesInMutable, MarkedNoWrite;
    KeptIff(e, writekey, slot.node);
    if SurvivesInMutable(e, slot.node) {
      SurvivorStored(e, Writer(writekey), slot.node);
    }
    if createReadonly && MarkedNoWrite(slot.metadata) {
      NoWriteStored(e, writekey, slot.node);
    }
  }

  /** What the writer reads under one name after a modification that made a new link there. */
  ghost predicate LinkMade(e: Env, createReadonly: bool, after: Children, name: string, link: Slot) {
    && (name in after <==> LinkKept(e.caps, link.node))
    && (name in after ==> after[name].metadata == link.metadata)
    && (name in after && SurvivesInMutable(e, link.node) ==> after[name].node == link.node)
    && (name in after && createReadonly && MarkedNoWrite(link.metadata) ==> CannotWrite(e, after[name].node))
  }

  /**
   * Whenever adding returns new contents they read back as the old map with
   * only the named links replaced. An untouched link keeps its exact packed
   * bytes. A named one is there exactly if its child is kept; it has the updated
   * metadata, the child itself if that survives storing, and no write cap if it
   * is marked "no-write".
   */
  lemma AddRefines(e: Env, writekey: Bytes, o: AddOptions, now: Json, entries: seq<Entry>, contents: Bytes)
    requires EnvLaws(e) && Added(e, writekey, o, now, entries, contents).NewContents?
    ensures
      var before := Unpacked(e, Writer(writekey), contents).value;
      var next := WithEntries(e, o, now, before, entries).value;
      var after := Unpacked(e, Writer(writekey), Added(e, writekey, o, now, entries, contents).contents);
      && after == Some(AllWritten(e, writekey, next))
      && (forall n :: n in before && n !in Named(e, entries) ==> n in after.value && after.value[n] == before[n])
      && after.value.Keys <= before.Keys + Named(e, entries)
      && (EntriesMade(e, entries) ==>
            forall n :: n in Named(e, entries) ==> n in next && LinkMade(e, o.createReadonly, after.value, n, next[n]))
  {
    hide EntryFor, DecodeEntry, PackNames, UnpackFrom, WithEntries, StoredNode, FreshEntry, IsNewLink, LinkMade, EnvLaws;
    var before := Unpacked(e, Writer(writekey), contents).value;
    var next := WithEntries(e, o, now, before, entries).value;
    ReadChildren(e, Writer(writekey), contents);
    WithEntriesFrame(e, o, now, before, entries);
    forall n | n in next
      ensures ReadFrom(e, Writer(writekey), n, next[n]) || (next[n].raw == None && e.normalize(n) == n)
    {
      if n in Named(e, entries) {
        NamedNormalized(e, entries, n);
      }
    }
    MixedPackUnpack(e, writekey, next);
    if EntriesMade(e, entries) {
      AddedLinks(e, writekey, o, now, before, entries);
    }
  }

  lemma AddedLinks(e: Env, writekey: Bytes, o: AddOptions, now: Json, before: Children, entries: seq<Entry>)
    requires EnvLaws(e) && EntriesMade(e, entries) && WithEntries(e, o, now, before, entries).Ok?
    requires Packed(e, Some(writekey), false, WithEntries(e, o, now, before, entries).value).Some?
    ensures var next := WithEntries(e, o, now, before, entries).value;
      forall n :: n in Named(e, entries) ==> n in next && LinkMade(e, o.createReadonly, AllWritten(e, writekey, next), n, next[n])
  {
    assert Laws(e.caps);
    hide Packed, WithEntries, AllWritten, IsNewLink, LinkMade, EnvLaws, Laws, EntriesMade, Named;
    var next := WithEntries(e, o, now, before, entries).value;
    WithEntriesNew(e, o, now, before, entries);
    forall n | n in Named(e, entries)
      ensures n in next && LinkMade(e, o.createReadonly, AllWritten(e, writekey, next), n, next[n])
    {
      LinkAmongWritten(e, writekey, o.createReadonly, next, n);
    }
  }

  /** One of the new links of a directory that is written. */
  lemma LinkAmongWritten(e: Env, writekey: Bytes, createReadonly: bool, children: Children, name: string)
    requires EnvLaws(e) && Packed(e, Some(writekey), false, children).Some?
    requires name in children && IsNewLink(e, createReadonly, children[name])
    ensures LinkMade(e, createReadonly, AllWritten(e, writekey, children), name, children[name])
  {
    hide EntryFor, PackNames, Written, IsNewLink, LinkKept, SurvivesInMutable, CannotWrite, MarkedNoWrite, EnvLaws;
    PackedEntriesExist(e, Some(writekey), false, children, SortedNames(children.Keys));
    WrittenLink(e, writekey, name, createReadonly, children[name]);
  }

  /**
   * Overwriting is respected over a whole batch: with Never no named link existed
   * before and no name is given twice, with OnlyFiles no directory is replaced.
   */
  lemma {:induction false} OverwriteRespected(e: Env, o: AddOptions, now: Json, children: Children, entries: seq<Entry>)
    requires WithEntries(e, o, now, children, entries).Ok?
    ensures o.overwrite.Never? ==> Named(e, entries) !! children.Keys
    ensures o.overwrite.Never? ==>
      forall i, j :: 0 <= i < j < |entries| ==> e.normalize(entries[i].namex) != e.normalize(entries[j].namex)
    ensures o.overwrite.OnlyFiles? ==>
      forall n :: n in Named(e, entries) && n in children ==> !IsDirectoryNode(children[n].node)
    decreases |entries|
  {
    hide NewLink;
    if entries != [] {
      var name := e.normalize(entries[0].namex);
      var mid := WithEntry(e, o, now, children, entries[0]).value;
      WithEntryFrame(e, o, now, children, entries[0]);
      OverwriteRespected(e, o, now, mid, entries[1..]);
      NamedStep(e, entries);
      if o.overwrite.Never? {
        forall i, j | 0 <= i < j < |entries|
          ensures e.normalize(entries[i].namex) != e.normalize(entries[j].namex)
        {
          assert entries[j] == entries[1..][j - 1];
          if i == 0 {
            assert e.normalize(entries[1..][j - 1].namex) in Named(e, entries[1..]);
          } else {
            assert entries[i] == entries[1..][i - 1];
          }
        }
      }
    }
  }

  /** Whatever a directory is read from, its children are nodes that creation can return. */
  lemma ReadIsMade(e: Env, view: View, name: string, slot: Slot)
    requires Laws(e.caps) && ReadFrom(e, view, name, slot)
    ensures IsMade(e.caps, slot.node) && NodeError(slot.node).None?
  {
    hide NodeFor, SplitFrom, StripSpaces, IsMade, Laws, DecryptRwcapdata;
    var f := SplitFrom(slot.raw.value, 4, 0).value.0;
    var rw := if view.Writer? then DecryptRwcapdata(e, view.writekey, f[2]) else "";
    CreatedIsMade(e.caps, e.blacklist, OrNone(Some(StripSpaces(rw))), OrNone(Some(StripSpaces(f[1]))), view.Immutable?);
  }

  /**
   * Setting metadata replaces one link and leaves the bytes of all others alone.
   * The link itself is there afterwards exactly if its child is kept.
   */
  lemma SetMetadataRefines(e: Env, writekey: Bytes, namex: string, metadata: Option<Metadata>, createReadonly: bool,
                           now: Json, contents: Bytes)
    requires EnvLaws(e)
    requires MetadataSet(e, writekey, e.normalize(namex), metadata, createReadonly, now, contents).NewContents?
    ensures
      var name := e.normalize(namex);
      var before := Unpacked(e, Writer(writekey), contents).value;
      var after := Unpacked(e, Writer(writekey),
                            MetadataSet(e, writekey, name, metadata, createReadonly, now, contents).contents);
      && name in before
      && var link := NewLink(e, createReadonly, now, Some(before[name].metadata), metadata, before[name].node);
      && link.Ok? && after.Some?
      && after.value - {name} == before - {name}
      && LinkMade(e, createReadonly, after.value, name, link.value)
      && after == Some(match Written(e, writekey, name, link.value)
                       case None => before - {name}
                       case Some(slot) => before[name := slot])
  {
    assert Laws(e.caps) && e.normalize(e.normalize(namex)) == e.normalize(namex);
    hide Unpacked, Packed, NewLink, Written, EnvLaws, Laws, IsNewLink, LinkMade, ReadFrom, IsMade;
    var name := e.normalize(namex);
    var before := Unpacked(e, Writer(writekey), contents).value;
    ReadChildren(e, Writer(writekey), contents);
    ReadIsMade(e, Writer(writekey), name, before[name]);
    NoWriteIsEnforced(e, createReadonly, now, Some(before[name].metadata), metadata, before[name].node);
    OneLinkReplaced(e, writekey, createReadonly, before, name,
                    NewLink(e, createReadonly, now, Some(before[name].metadata), metadata, before[name].node).value);
  }

  lemma OneLinkReplaced(e: Env, writekey: Bytes, createReadonly: bool, before: Children, name: string, link: Slot)
    requires EnvLaws(e) && e.normalize(name) == name && IsNewLink(e, createReadonly, link)
    requires forall n :: n in before ==> ReadFrom(e, Writer(writekey), n, before[n])
    requires Packed(e, Some(writekey), false, before[name := link]).Some?
    ensures
      var after := Unpacked(e, Writer(writekey), Packed(e, Some(writekey), false, before[name := link]).value);
      && after.Some? && after.value - {name} == before - {name}
      && LinkMade(e, createReadonly, after.value, name, link)
      && after == Some(match Written(e, writekey, name, link)
                       case None => before - {name}
                       case Some(slot) => before[name := slot])
  {
    hide Unpacked, Packed, AllWritten, Written, EnvLaws, LinkMade, ReadFrom, IsMade, CannotWrite, MarkedNoWrite;
    HaveBeenRead(e, Writer(writekey), before);
    MixedPackUnpack(e, writekey, before[name := link]);
    OneNewWritten(e, writekey, before, name, link);
    LinkAmongWritten(e, writekey, createReadonly, before[name := link], name);
  }

  /** One new link among untouched ones. */
  lemma OneNewWritten(e: Env, writekey: Bytes, before: Children, name: string, slot: Slot)
    requires forall n :: n in before ==> before[n].raw.Some?
    requires slot.raw == None
    ensures AllWritten(e, writekey, before[name := slot]) ==
      match Written(e, writekey, name, slot)
      case None => before - {name}
      case Some(stored) => before[name := stored]
    ensures AllWritten(e, writekey, before[name := slot]) - {name} == before - {name}
  {
    hide StoredNode, FreshEntry;
  }

  // ---- Links that are lost ------------------------------------------------

  /** An entry as other software may have written it, with any two caps. */
  function MadeEntry(e: Env, writekey: Bytes, name: string, roField: Bytes, rw: Bytes): Bytes {
    Netstrings([e.encodeUtf8(name), roField, EncryptRwUri(e, writekey, rw), e.dumps(map[])])
  }

  lemma OneEntry(e: Env, view: View, name: string, entry: Bytes, node: Node, metadata: Metadata)
    requires DecodeEntry(e, view, entry) == Kept(name, node, metadata)
    ensures Unpacked(e, view, Netstring(entry)) == Some(map[name := Slot(node, metadata, Some(entry))])
  {
    hide DecodeEntry, UnpackFrom, SplitFrom, Netstring;
    assert Netstring(entry) + "" == Netstring(entry);
    TakeEntry(entry, "");
    UnpackStep(e, view, Netstring(entry), map[]);
    UnpackStep(e, view, "", map[name := Slot(node, metadata, Some(entry))]);
  }

  /** What a writer reads from a directory with one such entry. */
  lemma OneMadeEntry(e: Env, writekey: Bytes, name: string, roField: Bytes, rw: Bytes, node: Node)
    requires EnvLaws(e) && e.normalize(name) == name
    requires node == NodeFor(e.caps, e.blacklist, OrNone(Some(StripSpaces(rw))), OrNone(Some(StripSpaces(roField))), false)
    requires NodeError(node).None?
    ensures var entry := MadeEntry(e, writekey, name, roField, rw);
      && DecodeEntry(e, Writer(writekey), entry) == Kept(name, node, map[])
      && Unpacked(e, Writer(writekey), Netstring(entry)) == Some(map[name := Slot(node, map[], Some(entry))])
  {
    hide EnvLaws, NodeFor, StripSpaces, EncryptRwUri, DecryptRwcapdata, DecodeEntry, Netstrings, Netstring, UnpackFrom;
    DecryptInverse(e, writekey, rw);
    EntryDecodes(e, Writer(writekey), name, roField, EncryptRwUri(e, writekey, rw), map[]);
    OneEntry(e, Writer(writekey), name, MadeEntry(e, writekey, name, roField, rw), node, map[]);
  }

  /** Setting metadata on the only link of a directory deletes the link if its child is not kept. */
  lemma LostWithMetadata(e: Env, writekey: Bytes, name: string, roField: Bytes, rw: Bytes, node: Node, now: Json)
    requires EnvLaws(e) && e.normalize(name) == name
    requires node == NodeFor(e.caps, e.blacklist, OrNone(Some(StripSpaces(rw))), OrNone(Some(StripSpaces(roField))), false)
    requires node.Unknown? && node.error.None? && !LinkKept(e.caps, node)
    ensures
      var contents := Netstring(MadeEntry(e, writekey, name, roField, rw));
      var r := MetadataSet(e, writekey, name, None, false, now, contents);
      && Unpacked(e, Writer(writekey), contents).Some? && name in Unpacked(e, Writer(writekey), contents).value
      && r.NewContents? && Unpacked(e, Writer(writekey), r.contents) == Some(map[])
  {
    hide EnvLaws, NodeFor, StripSpaces, MadeEntry, Netstring, Unpacked, LinkKept, PackNames, EntryFor, UpdatedMetadata;
    var entry := MadeEntry(e, writekey, name, roField, rw);
    OneMadeEntry(e, writekey, name, roField, rw, node);
    var link := NewLink(e, false, now, Some(map[]), None, node);
    PlainUpdate(e, now, node);
    var next: Children := map[name := Slot(node, map[], Some(entry))][name := link.value];
    assert next.Keys == {name} && next[name] == link.value;
    assert EntryFor(e, Some(writekey), false, name, link.value).Some? by { NewLinkPacks(e, writekey, name, link.value); }
    PackedEntriesExist(e, Some(writekey), false, next, SortedNames(next.Keys));
    SetMetadataRefines(e, writekey, name, None, false, now, Netstring(entry));
  }

  lemma PlainUpdate(e: Env, now: Json, node: Node)
    ensures var link := NewLink(e, false, now, Some(map[]), None, node); link.Ok? && link.value.node == node && link.value.raw == None
  {
  }

  lemma NewLinkPacks(e: Env, writekey: Bytes, name: string, slot: Slot)
    requires slot.raw == None && HasUris(slot.node) && NodeError(slot.node).None?
    ensures EntryFor(e, Some(writekey), false, name, slot).Some?
  {
    hide FreshEntry;
  }

  /** Such a child: after its two prefixes comes a write cap, which the second prefix forbids. */
  lemma TwoPrefixesLost(e: Env, writekey: Bytes, name: string, now: Json)
    requires EnvLaws(e) && e.normalize(name) == name
    ensures
      var contents := Netstring(MadeEntry(e, writekey, name, "ro.ro.URI:SSK:x", ""));
      var r := MetadataSet(e, writekey, name, None, false, now, contents);
      && Unpacked(e, Writer(writekey), contents).Some? && name in Unpacked(e, Writer(writekey), contents).value
      && r.NewContents? && Unpacked(e, Writer(writekey), r.contents) == Some(map[])
  {
    hide EnvLaws, MadeEntry, MetadataSet, Unpacked, Netstring;
    TwoPrefixes(e.caps, e.blacklist);
    StripNothing();
    LostWithMetadata(e, writekey, name, "ro.ro.URI:SSK:x", "", Unknown(None, None, Some("ro.ro.URI:SSK:x")), now);
  }

  lemma TwoPrefixes(p: Primitives, blacklist: Blacklist)
    ensures var ro := "ro.ro.URI:SSK:x"; var n := Unknown(None, None, Some(ro));
      StripSpaces(ro) == ro && NodeFor(p, blacklist, None, Some(ro), false) == n && !LinkKept(p, n)
  {
    hide Dispatch, ParseBits;
    var ro, rest, last := "ro.ro.URI:SSK:x", "ro.URI:SSK:x", "URI:SSK:x";
    assert ro[|RO|..] == rest && rest[|RO|..] == last;
    assert RO <= ro && RO <= rest && !(IMM <= ro) && !(IMM <= rest) by { assert ro[0] == 'r' && rest[0] == 'r'; }
    NoClass(p, rest, true, false);
    assert Prefix(false, SskKind) == "URI:SSK:";
    DispatchFinds(last, false, SskKind);
    StripNothing();
    assert StripSpaces(ro) == ro && StripSpaces(rest) == rest;
    assert FromUnprefixed(p, ro, rest, true, false) == UnknownUri(ro, None);
    assert FromUnprefixed(p, rest, last, true, false) == UnknownUri(rest, Some(MustBeReadonly));
  }

  /** Another one: beside a write cap the stored read cap claims to be immutable. */
  lemma ImmutableReadCapLost(e: Env, writekey: Bytes, name: string, now: Json)
    requires EnvLaws(e) && e.normalize(name) == name
    ensures
      var contents := Netstring(MadeEntry(e, writekey, name, "ro.imm.x", "w"));
      var r := MetadataSet(e, writekey, name, None, false, now, contents);
      && Unpacked(e, Writer(writekey), contents).Some? && name in Unpacked(e, Writer(writekey), contents).value
      && r.NewContents? && Unpacked(e, Writer(writekey), r.contents) == Some(map[])
  {
    hide EnvLaws, MadeEntry, MetadataSet, Unpacked, Netstring;
    ImmutableReadCap(e.caps, e.blacklist);
    LostWithMetadata(e, writekey, name, "ro.imm.x", "w", Unknown(None, Some("w"), Some("ro.imm.x")), now);
  }

  lemma ImmutableReadCap(p: Primitives, blacklist: Blacklist)
    ensures var ro := "ro.imm.x"; var n := Unknown(None, Some("w"), Some(ro));
      StripSpaces(ro) == ro && StripSpaces("w") == "w" && NodeFor(p, blacklist, Some("w"), Some(ro), false) == n && !LinkKept(p, n)
  {
    hide Dispatch, ParseBits;
    var ro, rest := "ro.imm.x", "imm.x";
    assert ro[|RO|..] == rest && IMM <= rest;
    assert RO <= ro && !(IMM <= ro) by { assert ro[0] == 'r'; }
    assert !(IMM <= "w") && !(RO <= "w");
    NoClass(p, "w", true, true);
    NoClass(p, rest, true, false);
    assert StripSpaces(ro) == ro && StripSpaces(rest) == rest && StripSpaces("w") == "w";
    assert FromUnprefixed(p, ro, rest, true, false) == UnknownUri(ro, None);
  }

  // ---- New children that survive ------------------------------------------

  /** A child whose node a writeable directory gives back unchanged. */
  ghost predicate SurvivesInMutable(e: Env, node: Node) {
    if node.Unknown? then Producible(e.caps, node) && StorableInMutable(node)
    else HasUris(node) && WellFormed(node.cap.f) && node == Guarded(e.caps, e.blacklist, node.cap)
  }

  ghost predicate SurvivesInImmutable(e: Env, node: Node) {
    if node.Unknown? then Producible(e.caps, node) && node.rw.None? && StorableInImmutable(node)
    else HasUris(node) && WellFormed(node.cap.f) && !IsMutable(node.cap) && node == Guarded(e.caps, e.blacklist, node.cap)
  }

  lemma SurvivorStored(e: Env, view: View, node: Node)
    requires EnvLaws(e) && !view.Reader?
    requires if view.Immutable? then SurvivesInImmutable(e, node) else SurvivesInMutable(e, node)
    ensures HasUris(node) && NodeError(node).None?
    ensures StoredNode(e, view, view.Immutable?, node) == node
    ensures view.Immutable? ==> AllowedInImmutable(node)
  {
    hide NodeFor, StorableInMutable, StorableInImmutable, StoredNode, Verdict0, FromString, VerdictOf;
    if !node.Unknown? {
      StoredKnown(e, view, view.Immutable?, node);
      ReadonlyOfReadonly(e.caps, node.cap);
    } else if view.Immutable? {
      UnknownSurvivesImmutable(e, node);
    } else {
      UnknownSurvivesMutable(e, view.writekey, node);
    }
  }

  /** A named link whose child survives is read back with that child and its updated metadata. */
  lemma AddedSurvivor(e: Env, writekey: Bytes, o: AddOptions, now: Json, entries: seq<Entry>, contents: Bytes, name: string)
    requires EnvLaws(e) && Added(e, writekey, o, now, entries, contents).NewContents? && name in Named(e, entries)
    ensures
      var before := Unpacked(e, Writer(writekey), contents).value;
      var next := WithEntries(e, o, now, before, entries).value;
      var after := Unpacked(e, Writer(writekey), Added(e, writekey, o, now, entries, contents).contents);
      && name in next
      && (SurvivesInMutable(e, next[name].node) ==>
            after.Some? && name in after.value &&
            after.value[name].node == next[name].node && after.value[name].metadata == next[name].metadata)
  {
    hide Unpacked, Packed, WithEntries, StoredNode, FreshEntry, SurvivesInMutable, EntriesMade, LinkMade;
    var before := Unpacked(e, Writer(writekey), contents).value;
    var next := WithEntries(e, o, now, before, entries).value;
    WithEntriesFrame(e, o, now, before, entries);
    AddRefines(e, writekey, o, now, entries, contents);
    if SurvivesInMutable(e, next[name].node) {
      SurvivorStored(e, Writer(writekey), next[name].node);
    }
  }

  /** A directory as it is created: nothing cached, normalized names. */
  ghost predicate AllNew(e: Env, children: Children) {
    forall n :: n in children ==> children[n].raw == None && e.normalize(n) == n
  }

  function WithRaw(e: Env, writekey: Option<Bytes>, deepImmutable: bool, children: Children): Children
    requires forall n :: n in children ==> HasUris(children[n].node)
  {
    map n | n in children :: children[n].(raw := Some(FreshEntry(e, writekey, deepImmutable, n, children[n].node, children[n].metadata)))
  }

  ghost predicate AllSurvive(e: Env, view: View, children: Children) {
    forall n :: n in children ==>
      if view.Immutable? then SurvivesInImmutable(e, children[n].node) else SurvivesInMutable(e, children[n].node)
  }

  lemma NewSlotRestored(e: Env, view: View, writekey: Option<Bytes>, name: string, slot: Slot)
    requires EnvLaws(e) && !view.Reader? && PacksFor(view, writekey, view.Immutable?)
    requires slot.raw == None && e.normalize(name) == name
    requires if view.Immutable? then SurvivesInImmutable(e, slot.node) else SurvivesInMutable(e, slot.node)
    ensures HasUris(slot.node)
    ensures var entry := FreshEntry(e, writekey, view.Immutable?, name, slot.node, slot.metadata);
      && EntryFor(e, writekey, view.Immutable?, name, slot) == Some(entry)
      && SpeaksFor(e, view, name, entry)
      && RestoredSlot(e, view, writekey, view.Immutable?, name, slot) == Some(slot.(raw := Some(entry)))
  {
    hide FreshEntry, DecodeEntry, StoredNode, SurvivesInMutable, SurvivesInImmutable;
    SurvivorStored(e, view, slot.node);
    FreshDecodes(e, view, writekey, view.Immutable?, name, slot.node, slot.metadata);
  }

  /**
   * Fresh packing round trip: a new directory of children that survive, packed
   * for a writeable or an immutable directory, packs without error and reads
   * back with the same names, nodes and metadata.
   */
  lemma FreshRoundTrip(e: Env, view: View, writekey: Option<Bytes>, children: Children)
    requires EnvLaws(e) && !view.Reader? && PacksFor(view, writekey, view.Immutable?)
    requires AllNew(e, children) && AllSurvive(e, view, children)
    ensures forall n :: n in children ==> HasUris(children[n].node)
    ensures var packed := Packed(e, writekey, view.Immutable?, children);
      packed.Some? && Unpacked(e, view, packed.value) == Some(WithRaw(e, writekey, view.Immutable?, children))
  {
    hide EntryFor, DecodeEntry, PackNames, UnpackFrom, RestoredSlot, FreshEntry, SurvivesInMutable, SurvivesInImmutable, EnvLaws;
    forall n | n in children
      ensures HasUris(children[n].node)
      ensures var entry := FreshEntry(e, writekey, view.Immutable?, n, children[n].node, children[n].metadata);
        && EntryFor(e, writekey, view.Immutable?, n, children[n]) == Some(entry)
        && SpeaksFor(e, view, n, entry)
        && RestoredSlot(e, view, writekey, view.Immutable?, n, children[n]) == Some(children[n].(raw := Some(entry)))
    {
      NewSlotRestored(e, view, writekey, n, children[n]);
    }
    PackedEntriesExist(e, writekey, view.Immutable?, children, SortedNames(children.Keys));
    PackThenUnpack(e, view, writekey, view.Immutable?, children);
    assert Restored(e, view, writekey, view.Immutable?, children) == WithRaw(e, writekey, view.Immutable?, children);
  }

  // ---- Exactly when a modifier returns new contents -----------------------

  /** The system metadata, if there is any, is a dictionary. */
  predicate SystemMetadataOk(current: Option<Metadata>) {
    current.Some? && TAHOE in current.value ==> current.value[TAHOE].Obj?
  }

  /** The link will be marked "no-write". */
  predicate WillBeMarked(current: Option<Metadata>, update: Option<Metadata>) {
    if update.Some? then MarkedNoWrite(update.value) else current.Some? && MarkedNoWrite(current.value)
  }

  lemma MarkAfterUpdate(current: Option<Metadata>, update: Option<Metadata>, now: Json)
    ensures var m := UpdatedMetadata(current, update, now);
      (m.Some? <==> SystemMetadataOk(current)) && (m.Some? ==> (MarkedNoWrite(m.value) <==> WillBeMarked(current, update)))
  {
    assert TAHOE[0] != NO_WRITE[0];
  }

  /** There is a read-only node for this child. */
  predicate HasReadonlyNode(p: Primitives, child: Node) {
    HasUris(child) && (child.Unknown? && child.ro.Some? ==> !IsRefused(p, child.ro.value))
  }

  lemma ReadonlyNodeIff(e: Env, child: Node)
    requires Laws(e.caps) && IsMade(e.caps, child)
    ensures ReadonlyNode(e, child).Ok? <==> HasReadonlyNode(e.caps, child)
  {
    hide ToString, FromString, NodeFor, Verdict0, VerdictOf, Laws, WellFormed;
    if child.Unknown? {
      NothingStored(e.caps, e.blacklist, false);
      if child.ro.Some? {
        AllegedNotEmpty(child.ro.value);
        FieldsKeptIff(e.caps, e.blacklist, "", child.ro.value);
      }
    } else if HasUris(child) && !IsReadonly(child.cap) {
      Attenuation(e.caps, child.cap);
      NodeForPrinted(e.caps, e.blacklist, Readonly(e.caps, child.cap), None, false);
    }
  }

  /** A link to this child can be made, if the mark allows it. */
  predicate LinkPossible(e: Env, createReadonly: bool, current: Option<Metadata>, update: Option<Metadata>, child: Node) {
    SystemMetadataOk(current) && (createReadonly && WillBeMarked(current, update) ==> HasReadonlyNode(e.caps, child))
  }

  lemma NewLinkIff(e: Env, createReadonly: bool, now: Json, current: Option<Metadata>, update: Option<Metadata>, child: Node)
    requires Laws(e.caps) && IsMade(e.caps, child)
    ensures NewLink(e, createReadonly, now, current, update, child).Ok? <==> LinkPossible(e, createReadonly, current, update, child)
  {
    hide UpdatedMetadata, ReadonlyNode, IsMade, Laws, HasReadonlyNode, SystemMetadataOk, WillBeMarked;
    MarkAfterUpdate(current, update, now);
    ReadonlyNodeIff(e, child);
  }

  /** Among links that were read, new ones pack if and only if their nodes have strings. */
  lemma NewLinksPack(e: Env, writekey: Bytes, children: Children)
    requires forall n :: n in children ==>
      ReadFrom(e, Writer(writekey), n, children[n]) || (children[n].raw == None && NodeError(children[n].node).None?)
    ensures Packed(e, Some(writekey), false, children).Some? <==>
      forall n :: n in children && children[n].raw == None ==> HasUris(children[n].node)
  {
    hide PackNames, ReadFrom, FreshEntry;
    PackedEntriesExist(e, Some(writekey), false, children, SortedNames(children.Keys));
    forall n | n in children
      ensures EntryFor(e, Some(writekey), false, n, children[n]).Some? <==> children[n].raw == None ==> HasUris(children[n].node)
    {
      if ReadFrom(e, Writer(writekey), n, children[n]) {
        UntouchedEntry(e, Writer(writekey), Some(writekey), false, n, children[n]);
      }
    }
  }

  /** The node of a new link carries no error. */
  lemma NewLinkErrorFree(e: Env, createReadonly: bool, now: Json, current: Option<Metadata>, update: Option<Metadata>, child: Node)
    requires NodeError(child).None? && NewLink(e, createReadonly, now, current, update, child).Ok?
    ensures NodeError(NewLink(e, createReadonly, now, current, update, child).value.node).None?
    ensures NewLink(e, createReadonly, now, current, update, child).value.raw == None
  {
    hide UpdatedMetadata, NodeFor, ToString;
  }

  /**
   * Setting metadata returns new contents if and only if the old ones can be read,
   * the link is there, its system metadata is a dictionary, and there is a node
   * with strings for it, read-only if it is marked so.
   */
  lemma SetMetadataSucceeds(e: Env, writekey: Bytes, name: string, metadata: Option<Metadata>, createReadonly: bool, now: Json, contents: Bytes)
    requires Laws(e.caps)
    ensures
      var before := Unpacked(e, Writer(writekey), contents);
      var r := MetadataSet(e, writekey, name, metadata, createReadonly, now, contents);
      && (r == Raised(NoSuchChild) <==> before.Some? && name !in before.value)
      && (r.NewContents? <==>
        && before.Some? && name in before.value
        && var (current, child) := (Some(before.value[name].metadata), before.value[name].node);
        && LinkPossible(e, createReadonly, current, metadata, child)
        && HasUris(NewLinkNode(e, createReadonly, current, metadata, child)))
  {
    hide Unpacked, Packed, NewLink, Laws, IsMade, LinkPossible, ReadFrom, NewLinkNode;
    var before := Unpacked(e, Writer(writekey), contents);
    if before.Some? && name in before.value {
      var slot := before.value[name];
      ReadChildren(e, Writer(writekey), contents);
      HaveBeenRead(e, Writer(writekey), before.value);
      ReadIsMade(e, Writer(writekey), name, slot);
      NewLinkIff(e, createReadonly, now, Some(slot.metadata), metadata, slot.node);
      NewLinkErrors(e, createReadonly, now, Some(slot.metadata), metadata, slot.node);
      var link := NewLink(e, createReadonly, now, Some(slot.metadata), metadata, slot.node);
      if link.Ok? {
        NewLinkErrorFree(e, createReadonly, now, Some(slot.metadata), metadata, slot.node);
        NewLinkNodeIs(e, createReadonly, now, Some(slot.metadata), metadata, slot.node);
        OneNewPacks(e, writekey, before.value, name, link.value);
      }
    }
  }

  lemma NewLinkErrors(e: Env, createReadonly: bool, now: Json, current: Option<Metadata>, update: Option<Metadata>, child: Node)
    ensures NewLink(e, createReadonly, now, current, update, child) != Err(NoSuchChild)
  {
    hide UpdatedMetadata, NodeFor, ToString;
  }

  lemma OneNewPacks(e: Env, writekey: Bytes, before: Children, name: string, link: Slot)
    requires forall n :: n in before ==> ReadFrom(e, Writer(writekey), n, before[n])
    requires link.raw == None && NodeError(link.node).None?
    ensures Packed(e, Some(writekey), false, before[name := link]).Some? <==> HasUris(link.node)
  {
    hide Packed, ReadFrom;
    HaveBeenRead(e, Writer(writekey), before);
    NewLinksPack(e, writekey, before[name := link]);
    assert before[name := link][name] == link;
  }

  /** The node of a new link: the child, or the node its read cap makes. */
  function NewLinkNode(e: Env, createReadonly: bool, current: Option<Metadata>, update: Option<Metadata>, child: Node): Node {
    if createReadonly && WillBeMarked(current, update) && HasUris(child) && (child.Unknown? || !IsReadonly(child.cap))
    then NodeFor(e.caps, e.blacklist, None, ReadUri(e.caps, child), false) else child
  }

  lemma NewLinkNodeIs(e: Env, createReadonly: bool, now: Json, current: Option<Metadata>, update: Option<Metadata>, child: Node)
    requires NewLink(e, createReadonly, now, current, update, child).Ok?
    ensures NewLink(e, createReadonly, now, current, update, child).value.node == NewLinkNode(e, createReadonly, current, update, child)
  {
    hide UpdatedMetadata, NodeFor, ToString, WillBeMarked;
    MarkAfterUpdate(current, update, now);
  }

  predicate IsKnownDirectory(n: Node) {
    n.Known? && n.cap.Dir?
  }

  /** One entry can be added to a dictionary. */
  predicate EntryAllowed(e: Env, o: AddOptions, children: Children, entry: Entry) {
    var name := e.normalize(entry.namex);
    && HasUris(entry.child) && NodeError(entry.child).None?
    && (name in children ==> !o.overwrite.Never? && (o.overwrite.OnlyFiles? ==> !IsKnownDirectory(children[name].node)))
    && LinkPossible(e, o.createReadonly, if name in children then Some(children[name].metadata) else None, entry.metadata, entry.child)
  }

  lemma WithEntryIff(e: Env, o: AddOptions, now: Json, children: Children, entry: Entry)
    requires Laws(e.caps) && IsMade(e.caps, entry.child)
    ensures WithEntry(e, o, now, children, entry).Ok? <==> EntryAllowed(e, o, children, entry)
  {
    hide NewLink, IsMade, Laws, LinkPossible;
    var name := e.normalize(entry.namex);
    NewLinkIff(e, o.createReadonly, now, if name in children then Some(children[name].metadata) else None, entry.metadata, entry.child);
  }

  /** All entries can be added, one after the other. */
  ghost predicate AllAllowed(e: Env, o: AddOptions, now: Json, children: Children, entries: seq<Entry>)
    decreases |entries|
  {
    entries != [] ==>
      && EntryAllowed(e, o, children, entries[0])
      && (WithEntry(e, o, now, children, entries[0]).Ok? ==>
            AllAllowed(e, o, now, WithEntry(e, o, now, children, entries[0]).value, entries[1..]))
  }

  lemma {:induction false} WithEntriesIff(e: Env, o: AddOptions, now: Json, children: Children, entries: seq<Entry>)
    requires Laws(e.caps) && EntriesMade(e, entries)
    ensures WithEntries(e, o, now, children, entries).Ok? <==> AllAllowed(e, o, now, children, entries)
    decreases |entries|
  {
    hide WithEntry, EntryAllowed, Laws, IsMade;
    if entries != [] {
      assert IsMade(e.caps, entries[0].child);
      WithEntryIff(e, o, now, children, entries[0]);
      if WithEntry(e, o, now, children, entries[0]).Ok? {
        WithEntriesIff(e, o, now, WithEntry(e, o, now, children, entries[0]).value, entries[1..]);
      }
    }
  }

  lemma {:induction false} WithEntriesErrorFree(e: Env, o: AddOptions, now: Json, children: Children, entries: seq<Entry>)
    requires WithEntries(e, o, now, children, entries).Ok?
    ensures var next := WithEntries(e, o, now, children, entries).value;
      forall n :: n in Named(e, entries) ==> n in next && NodeError(next[n].node).None?
    decreases |entries|
  {
    hide NewLink, Named;
    NamedNothing(e, entries);
    if entries != [] {
      var name := e.normalize(entries[0].namex);
      var current := if name in children then Some(children[name].metadata) else None;
      NewLinkErrorFree(e, o.createReadonly, now, current, entries[0].metadata, entries[0].child);
      var mid := WithEntry(e, o, now, children, entries[0]).value;
      WithEntriesErrorFree(e, o, now, mid, entries[1..]);
      WithEntriesFrame(e, o, now, mid, entries[1..]);
      NamedStep(e, entries);
    }
  }

  lemma NamedNothing(e: Env, entries: seq<Entry>)
    ensures entries == [] ==> Named(e, entries) == {}
  {
  }

  /**
   * Adding returns new contents if and only if the old ones can be read, each
   * entry is allowed when its turn comes, and the nodes finally linked have strings.
   */
  lemma AddSucceeds(e: Env, writekey: Bytes, o: AddOptions, now: Json, entries: seq<Entry>, contents: Bytes)
    requires Laws(e.caps) && EntriesMade(e, entries)
    ensures
      var before := Unpacked(e, Writer(writekey), contents);
      Added(e, writekey, o, now, entries, contents).NewContents? <==>
        && before.Some? && AllAllowed(e, o, now, before.value, entries)
        && var next := WithEntries(e, o, now, before.value, entries);
        next.Ok? && forall n :: n in Named(e, entries) && n in next.value ==> HasUris(next.value[n].node)
  {
    hide Unpacked, Packed, WithEntries, Laws, EntriesMade, AllAllowed, Named, ReadFrom;
    var before := Unpacked(e, Writer(writekey), contents);
    if before.Some? {
      WithEntriesIff(e, o, now, before.value, entries);
      var next := WithEntries(e, o, now, before.value, entries);
      if next.Ok? {
        ReadChildren(e, Writer(writekey), contents);
        HaveBeenRead(e, Writer(writekey), before.value);
        WithEntriesFrame(e, o, now, before.value, entries);
        WithEntriesErrorFree(e, o, now, before.value, entries);
        NewLinksPack(e, writekey, next.value);
      }
    }
  }

  // ---- Metadata -----------------------------------------------------------

  /** The system timestamps that a link ends up with. */
  ghost predicate HasTimes(m: Metadata, created: Json, modified: Json) {
    && TAHOE in m && m[TAHOE].Obj?
    && LINKCRTIME in m[TAHOE].fields && m[TAHOE].fields[LINKCRTIME] == created
    && LINKMOTIME in m[TAHOE].fields && m[TAHOE].fields[LINKMOTIME] == modified
  }

  lemma SystemKeysDiffer()
    ensures TAHOE != CTIME && LINKCRTIME != LINKMOTIME
  {
    assert TAHOE[0] != CTIME[0];
    assert LINKCRTIME[4] != LINKMOTIME[4];
  }

  /**
   * Updating replaces the user's metadata as a whole, lets nobody set the system
   * metadata, always records the time of the change, and never again changes a
   * creation time once it is recorded, however often the link is updated.
   */
  lemma MetadataRules(current: Metadata, update: Option<Metadata>, now: Json, created: Json, modified: Json)
    requires HasTimes(current, created, modified)
    ensures
      var m := UpdatedMetadata(Some(current), update, now);
      && m.Some? && HasTimes(m.value, created, now)
      && (forall k :: k != TAHOE ==>
            var source := if update.Some? then update.value else current;
            (k in m.value <==> k in source) && (k in source ==> m.value[k] == source[k]))
      && (update.Some? ==> m == UpdatedMetadata(Some(current), Some(update.value - {TAHOE}), now))
  {
    SystemKeysDiffer();
    if update.Some? {
      assert update.value - {TAHOE} - {TAHOE} == update.value - {TAHOE};
    }
  }

  /** Some metadata already says when the link was created. */
  predicate HasCreation(current: Option<Metadata>) {
    current.Some? && TAHOE in current.value && current.value[TAHOE].Obj? && LINKCRTIME in current.value[TAHOE].fields
  }

  /**
   * A link without a creation time gets one: its old "ctime" if it has that, else
   * now. Updating fails only on system metadata that is not a dictionary.
   */
  lemma FirstTimes(current: Option<Metadata>, update: Option<Metadata>, now: Json)
    ensures
      var m := UpdatedMetadata(current, update, now);
      && (m.None? <==> current.Some? && TAHOE in current.value && !current.value[TAHOE].Obj?)
      && (m.Some? && !HasCreation(current) ==>
            HasTimes(m.value, if current.Some? && CTIME in current.value && !current.value[CTIME].Null? then current.value[CTIME] else now, now))
  {
    SystemKeysDiffer();
  }
}
