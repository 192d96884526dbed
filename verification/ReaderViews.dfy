/** The views of one directory: what its writer, its readers and the readers of an immutable one are given. */
module ReaderViews {
  import opened Basics
  import opened NetstringCodec
  import opened Sorting
  import opened Caps
  import opened CapProofs
  import opened Nodes
  import opened Directory
  import opened DirectoryProofs
  import opened FreshPacking
  import opened Modifiers
  import opened ModifierProofs

  // ---- Views of arbitrary bytes -------------------------------------------

  /** Whatever bytes an immutable directory holds, no child read from it is mutable or can be written through. */
  lemma ImmutableViewIsSafe(e: Env, data: Bytes, name: string)
    requires Laws(e.caps) && Unpacked(e, Immutable, data).Some? && name in Unpacked(e, Immutable, data).value
    ensures var n := Unpacked(e, Immutable, data).value[name].node;
      && NodeError(n).None? && !IsKnownMutable(n)
      && HasUris(n) && WriteUri(e.caps, n) == None && AllowedInImmutable(n)
      && (n.Unknown? && n.ro.Some? ==> IMM <= n.ro.value)
  {
    hide Unpacked, SplitFrom, NodeFor, StripSpaces, Laws;
    ReadChildren(e, Immutable, data);
    var slot := Unpacked(e, Immutable, data).value[name];
    assert ReadFrom(e, Immutable, name, slot);
    var f := SplitFrom(slot.raw.value, 4, 0).value.0;
    CreationIsSafe(e.caps, e.blacklist, OrNone(Some(StripSpaces(""))), OrNone(Some(StripSpaces(f[1]))), true);
  }

  /**
   * Whatever bytes a mutable directory holds, its reader is given a child that
   * can be written through exactly when the read field of its entry is a write
   * cap itself.
   */
  lemma ReaderWritesIff(e: Env, data: Bytes, name: string)
    requires Unpacked(e, Reader, data).Some? && name in Unpacked(e, Reader, data).value
    ensures var slot := Unpacked(e, Reader, data).value[name];
      && slot.raw.Some? && SplitFrom(slot.raw.value, 4, 0).Some?
      && var field := StripSpaces(SplitFrom(slot.raw.value, 4, 0).value.0[1]);
      && var u := FromString(e.caps, field, false);
      HasUris(slot.node) ==> (WriteUri(e.caps, slot.node).Some? <==> field != "" && u.KnownUri? && !IsReadonly(u.cap))
  {
    hide Unpacked, SplitFrom, NodeFor, FromString, StripSpaces;
    ReadChildren(e, Reader, data);
    var slot := Unpacked(e, Reader, data).value[name];
    assert ReadFrom(e, Reader, name, slot);
    StripNothing();
    ReadNodeWrites(e.caps, e.blacklist, StripSpaces(SplitFrom(slot.raw.value, 4, 0).value.0[1]));
  }

  // ---- Readers and the writer ---------------------------------------------

  /** What a reader has for a child of the writer: no write cap, and of a known child the read-only form. */
  function AsSeen(e: Env, n: Node): Node {
    if n.Unknown? then Unknown(n.error, None, n.ro) else Guarded(e.caps, e.blacklist, Readonly(e.caps, n.cap))
  }

  function SeenByReader(e: Env, children: Children): Children {
    map n | n in children :: children[n].(node := AsSeen(e, children[n].node))
  }

  /** A reader sees the names, metadata and entries that the writer sees, and its children as a reader should. */
  ghost predicate ViewsAgree(e: Env, writekey: Bytes, data: Bytes) {
    var w := Unpacked(e, Writer(writekey), data);
    w.Some? && Unpacked(e, Reader, data) == Some(SeenByReader(e, w.value))
  }

  // ---- Exactly which fields both views read alike -------------------------

  predicate IsWriteCap(p: Primitives, s: Bytes) {
    var v := VerdictOf(FromString(p, s, false));
    v.Makes? && !IsReadonly(v.cap)
  }

  /**
   * The stripped cap fields of an entry on which readers and the writer agree. A
   * read cap alone must not be a write cap; beside a write cap that makes a node
   * it must be the read cap of that; beside one that means nothing it must be
   * there and either be refused, so that both drop the entry, or mean nothing
   * and not claim to be immutable.
   */
  predicate FieldsAgree(p: Primitives, w: Bytes, r: Bytes) {
    if w == "" then !IsWriteCap(p, r)
    else
      match VerdictOf(FromString(p, w, false))
      case Makes(c) => VerdictOf(FromString(p, r, false)) == Makes(Readonly(p, c))
      case _ => r != "" && (IsRefused(p, r) || (VerdictOf(FromString(p, r, false)).Inert? && !(IMM <= r)))
  }

  /** The writer's and a reader's node for one entry: both are errors, or the second is what a reader should see of the first. */
  predicate SameView(e: Env, mine: Node, theirs: Node) {
    if NodeError(mine).Some? then NodeError(theirs).Some? else theirs == AsSeen(e, mine)
  }

  lemma ReadFieldAgrees(e: Env, r: Bytes)
    ensures var n := NodeFor(e.caps, e.blacklist, None, OrNone(Some(r)), false); SameView(e, n, n) <==> r == "" || !IsWriteCap(e.caps, r)
  {
    hide FromString, Strengthen, StorageIndex;
  }

  lemma EmptyIsNoWriteCap(p: Primitives)
    ensures !IsWriteCap(p, "") && VerdictOf(FromString(p, "", false)).Inert?
  {
    hide FromString;
    EmptyMeansNothing(p);
  }

  lemma KnownFieldAgrees(e: Env, w: Bytes, r: Bytes)
    requires w != "" && VerdictOf(FromString(e.caps, w, false)).Makes?
    ensures
      var mine := NodeFor(e.caps, e.blacklist, Some(w), OrNone(Some(r)), false);
      var theirs := NodeFor(e.caps, e.blacklist, None, OrNone(Some(r)), false);
      SameView(e, mine, theirs) <==>
      r != "" && VerdictOf(FromString(e.caps, r, false)) == Makes(Readonly(e.caps, VerdictOf(FromString(e.caps, w, false)).cap))
  {
    hide FromString, Strengthen, StorageIndex, Readonly;
  }

  lemma UnknownFieldAgrees(e: Env, w: Bytes, r: Bytes)
    requires w != "" && !VerdictOf(FromString(e.caps, w, false)).Makes?
    ensures
      var mine := NodeFor(e.caps, e.blacklist, Some(w), OrNone(Some(r)), false);
      var theirs := NodeFor(e.caps, e.blacklist, None, OrNone(Some(r)), false);
      SameView(e, mine, theirs) <==>
      r != "" && (IsRefused(e.caps, r) || (VerdictOf(FromString(e.caps, r, false)).Inert? && !(IMM <= r)))
  {
    hide FromString, Strengthen, StorageIndex, Readonly;
  }

  /** For any two fields: the views agree on what they stand for if and only if the strings say so. */
  lemma FieldsAgreeIff(e: Env, w: Bytes, r: Bytes)
    ensures
      var mine := NodeFor(e.caps, e.blacklist, OrNone(Some(w)), OrNone(Some(r)), false);
      var theirs := NodeFor(e.caps, e.blacklist, None, OrNone(Some(r)), false);
      SameView(e, mine, theirs) <==> FieldsAgree(e.caps, w, r)
  {
    hide FromString, NodeFor, SameView, Readonly, VerdictOf;
    EmptyIsNoWriteCap(e.caps);
    if w == "" {
      ReadFieldAgrees(e, r);
    } else if VerdictOf(FromString(e.caps, w, false)).Makes? {
      KnownFieldAgrees(e, w, r);
    } else {
      UnknownFieldAgrees(e, w, r);
    }
  }

  /** Both views make the same of an entry, whoever wrote it. */
  ghost predicate EntryAgrees(e: Env, writekey: Bytes, entry: Bytes) {
    match DecodeEntry(e, Writer(writekey), entry)
    case Malformed => DecodeEntry(e, Reader, entry).Malformed?
    case Dropped => DecodeEntry(e, Reader, entry).Dropped?
    case Kept(name, node, metadata) => DecodeEntry(e, Reader, entry) == Kept(name, AsSeen(e, node), metadata)
  }

  lemma AsSeenError(e: Env, n: Node)
    ensures NodeError(AsSeen(e, n)) == NodeError(n)
  {
  }

  lemma JudgedAlike(e: Env, writekey: Bytes, name: string, mine: Node, theirs: Node, metadata: Option<Json>)
    ensures var a, b := Judge(Writer(writekey), name, mine, metadata), Judge(Reader, name, theirs, metadata);
      (match a
       case Malformed => b.Malformed?
       case Dropped => b.Dropped?
       case Kept(n, node, m) => b == Kept(n, AsSeen(e, node), m)) <==>
      if metadata.Some? && metadata.value.Obj? then SameView(e, mine, theirs) else NodeError(mine).Some? == NodeError(theirs).Some?
  {
    hide AsSeen;
    AsSeenError(e, mine);
  }

  /**
   * For any bytes of an entry: readers and the writer agree on it if and only if
   * its cap fields agree, or, where its metadata spoils the directory for whoever
   * does not drop it, if and only if both drop it or neither does.
   */
  lemma EntryAgreesIff(e: Env, writekey: Bytes, entry: Bytes)
    requires SplitFrom(entry, 4, 0).Some? && e.decodeUtf8(SplitFrom(entry, 4, 0).value.0[0]).Some?
    ensures
      var f := SplitFrom(entry, 4, 0).value.0;
      var w, r, metadata := StripSpaces(DecryptRwcapdata(e, writekey, f[2])), StripSpaces(f[1]), e.loads(f[3]);
      EntryAgrees(e, writekey, entry) <==>
        if metadata.Some? && metadata.value.Obj? then FieldsAgree(e.caps, w, r)
        else FieldsKept(e.caps, w, r) == FieldsKept(e.caps, "", r)
  {
    hide SplitFrom, NodeFor, StripSpaces, DecryptRwcapdata, FieldsAgree, FieldsKept, AsSeen, Judge, SameView;
    var f := SplitFrom(entry, 4, 0).value.0;
    var w, r := StripSpaces(DecryptRwcapdata(e, writekey, f[2])), StripSpaces(f[1]);
    StripNothing();
    FieldsAgreeIff(e, w, r);
    FieldsKeptIff(e.caps, e.blacklist, w, r);
    FieldsKeptIff(e.caps, e.blacklist, "", r);
    JudgedAlike(e, writekey, e.normalize(e.decodeUtf8(f[0]).value), NodeInView(e, Writer(writekey), f[1], f[2]),
                NodeInView(e, Reader, f[1], f[2]), e.loads(f[3]));
  }

  /** An entry that cannot be split or whose name cannot be decoded spoils the directory for both. */
  lemma UnreadableAgrees(e: Env, writekey: Bytes, entry: Bytes)
    requires SplitFrom(entry, 4, 0).None? || e.decodeUtf8(SplitFrom(entry, 4, 0).value.0[0]).None?
    ensures EntryAgrees(e, writekey, entry)
  {
    hide SplitFrom;
  }

  /** The views agree on each entry of some contents. */
  ghost predicate EntriesAgree(e: Env, writekey: Bytes, data: Bytes)
    decreases |data|
  {
    data != "" && SplitFrom(data, 1, 0).Some? ==>
      EntryAgrees(e, writekey, SplitFrom(data, 1, 0).value.0[0]) && EntriesAgree(e, writekey, SplitFrom(data, 1, 0).value.1)
  }

  lemma {:induction false} EntriesAgreeFrom(e: Env, writekey: Bytes, data: Bytes, acc: Children)
    requires EntriesAgree(e, writekey, data)
    ensures var w := UnpackFrom(e, Writer(writekey), data, acc);
      UnpackFrom(e, Reader, data, SeenByReader(e, acc)) == if w.Some? then Some(SeenByReader(e, w.value)) else None
    decreases |data|
  {
    hide DecodeEntry, UnpackFrom, SplitFrom, AsSeen;
    UnpackStep(e, Writer(writekey), data, acc);
    UnpackStep(e, Reader, data, SeenByReader(e, acc));
    if data != "" && SplitFrom(data, 1, 0).Some? {
      var (entries, rest) := SplitFrom(data, 1, 0).value;
      var d := DecodeEntry(e, Writer(writekey), entries[0]);
      if !d.Malformed? {
        var next := AddDecoded(acc, entries[0], d);
        assert SeenByReader(e, next) == AddDecoded(SeenByReader(e, acc), entries[0], DecodeEntry(e, Reader, entries[0]));
        EntriesAgreeFrom(e, writekey, rest, next);
      }
    }
  }

  /** Contents on whose entries the views agree, whoever wrote them, are read alike as a whole. */
  lemma AgreeingEntries(e: Env, writekey: Bytes, data: Bytes)
    requires EntriesAgree(e, writekey, data)
    ensures Unpacked(e, Writer(writekey), data).Some? <==> Unpacked(e, Reader, data).Some?
    ensures Unpacked(e, Writer(writekey), data).Some? ==> ViewsAgree(e, writekey, data)
  {
    hide UnpackFrom, EntriesAgree, AsSeen;
    EntriesAgreeFrom(e, writekey, data, map[]);
    assert SeenByReader(e, map[]) == map[];
  }

  // ---- New links ----------------------------------------------------------

  /** What is written of a child into the two cap fields, as it is read back. */
  function WriteField(p: Primitives, n: Node): Bytes
    requires HasUris(n)
  {
    StripSpaces(OrEmpty(WriteUri(p, n)))
  }

  function ReadField(p: Primitives, n: Node): Bytes
    requires HasUris(n)
  {
    StripSpaces(StripPrefixForRo(OrEmpty(ReadUri(p, n)), false))
  }

  /** Both views read a new link to this child alike. */
  predicate StoredAlike(p: Primitives, n: Node) {
    HasUris(n) ==> FieldsAgree(p, WriteField(p, n), ReadField(p, n))
  }

  lemma StoredAlikeIff(e: Env, writekey: Bytes, n: Node)
    requires HasUris(n)
    ensures StoredAlike(e.caps, n) <==> SameView(e, StoredNode(e, Writer(writekey), false, n), StoredNode(e, Reader, false, n))
  {
    hide NodeFor, FieldsAgree, SameView, StripSpaces, StripPrefixForRo, ToString;
    StripNothing();
    FieldsAgreeIff(e, WriteField(e.caps, n), ReadField(e.caps, n));
  }

  /** A link to be written: new, or read from an entry on which the views agree. */
  ghost predicate IsReady(e: Env, writekey: Bytes, name: string, slot: Slot) {
    if slot.raw.Some? then
      && ReadFrom(e, Writer(writekey), name, slot)
      && DecodeEntry(e, Reader, slot.raw.value) == Kept(name, AsSeen(e, slot.node), slot.metadata)
    else e.normalize(name) == name
  }

  ghost predicate AllReady(e: Env, writekey: Bytes, children: Children) {
    forall n :: n in children ==> IsReady(e, writekey, n, children[n])
  }

  lemma JudgeReader(name: string, node: Node, metadata: Metadata)
    ensures Judge(Reader, name, node, Some(Obj(metadata))) ==
      if NodeError(node).Some? then Dropped else Kept(name, node, metadata)
  {
  }

  /** What a reader should find of what the writer finds. */
  function SeenSlot(e: Env, slot: Option<Slot>): Option<Slot> {
    if slot.Some? then Some(slot.value.(node := AsSeen(e, slot.value.node))) else None
  }

  /** A reader always finds a new link readable, and finds what it should exactly if the child is stored alike. */
  lemma ReaderRestores(e: Env, writekey: Bytes, name: string, slot: Slot)
    requires EnvLaws(e) && IsReady(e, writekey, name, slot) && EntryFor(e, Some(writekey), false, name, slot).Some?
    ensures SpeaksFor(e, Reader, name, EntryFor(e, Some(writekey), false, name, slot).value)
    ensures RestoredSlot(e, Reader, Some(writekey), false, name, slot) == SeenSlot(e, Written(e, writekey, name, slot)) <==>
      slot.raw.Some? || StoredAlike(e.caps, slot.node)
  {
    hide FreshEntry, DecodeEntry, StoredNode, EnvLaws, AsSeen, StoredAlike, Judge;
    if slot.raw.Some? {
      UntouchedEntry(e, Writer(writekey), Some(writekey), false, name, slot);
    } else {
      StoredAlikeIff(e, writekey, slot.node);
      FreshDecodes(e, Reader, Some(writekey), false, name, slot.node, slot.metadata);
      JudgeReader(name, StoredNode(e, Reader, false, slot.node), slot.metadata);
      AsSeenError(e, StoredNode(e, Writer(writekey), false, slot.node));
    }
  }

  lemma ReadyIsMixed(e: Env, writekey: Bytes, children: Children)
    requires AllReady(e, writekey, children)
    ensures Mixed(e, writekey, children)
  {
    hide ReadFrom, DecodeEntry;
  }

  ghost predicate NewAlike(e: Env, children: Children) {
    forall n :: n in children && children[n].raw.None? ==> StoredAlike(e.caps, children[n].node)
  }

  /** Name by name: the reader's children are the writer's as seen. */
  lemma SeenNameByName(e: Env, writekey: Bytes, children: Children)
    ensures Restored(e, Reader, Some(writekey), false, children) == SeenByReader(e, AllWritten(e, writekey, children)) <==>
      forall n :: n in children ==>
        RestoredSlot(e, Reader, Some(writekey), false, n, children[n]) == SeenSlot(e, Written(e, writekey, n, children[n]))
  {
    hide RestoredSlot, Written, AsSeen;
    var theirs, mine := Restored(e, Reader, Some(writekey), false, children), SeenByReader(e, AllWritten(e, writekey, children));
    forall n | n in children
      ensures (n in theirs <==> RestoredSlot(e, Reader, Some(writekey), false, n, children[n]).Some?)
      ensures (n in mine <==> Written(e, writekey, n, children[n]).Some?)
      ensures n in mine ==> SeenSlot(e, Written(e, writekey, n, children[n])) == Some(mine[n])
    {
    }
    if theirs == mine {
      forall n | n in children
        ensures RestoredSlot(e, Reader, Some(writekey), false, n, children[n]) == SeenSlot(e, Written(e, writekey, n, children[n]))
      {
        assert n in theirs <==> n in mine;
      }
    }
  }

  /**
   * Whatever mixture of old links on which the views agree and of new ones is
   * written, they agree on the result if and only if each new child is stored alike.
   */
  lemma WrittenAgrees(e: Env, writekey: Bytes, children: Children)
    requires EnvLaws(e) && AllReady(e, writekey, children) && Packed(e, Some(writekey), false, children).Some?
    ensures ViewsAgree(e, writekey, Packed(e, Some(writekey), false, children).value) <==> NewAlike(e, children)
  {
    hide EntryFor, DecodeEntry, PackNames, UnpackFrom, RestoredSlot, Written, EnvLaws, SeenSlot, IsReady, SpeaksFor, Mixed, StoredAlike,
      Restored, SeenByReader, AllWritten;
    ReadyIsMixed(e, writekey, children);
    MixedPackUnpack(e, writekey, children);
    PackedEntriesExist(e, Some(writekey), false, children, SortedNames(children.Keys));
    forall n | n in children
      ensures SpeaksFor(e, Reader, n, EntryFor(e, Some(writekey), false, n, children[n]).value)
      ensures RestoredSlot(e, Reader, Some(writekey), false, n, children[n]) == SeenSlot(e, Written(e, writekey, n, children[n])) <==>
        children[n].raw.Some? || StoredAlike(e.caps, children[n].node)
    {
      ReaderRestores(e, writekey, n, children[n]);
    }
    PackThenUnpack(e, Reader, Some(writekey), false, children);
    SeenNameByName(e, writekey, children);
  }

  /** What is read from contents on which the views agree may be written again. */
  lemma ReadIsReady(e: Env, writekey: Bytes, data: Bytes)
    requires ViewsAgree(e, writekey, data)
    ensures AllReady(e, writekey, Unpacked(e, Writer(writekey), data).value)
    ensures var w := Unpacked(e, Writer(writekey), data).value; forall n :: n in w ==> w[n].raw.Some?
  {
    hide DecodeEntry, UnpackFrom, AsSeen;
    var w := Unpacked(e, Writer(writekey), data).value;
    var r := SeenByReader(e, w);
    ReadChildren(e, Writer(writekey), data);
    ReadChildren(e, Reader, data);
    forall n | n in w
      ensures IsReady(e, writekey, n, w[n])
    {
      assert ReadFrom(e, Reader, n, r[n]);
    }
  }

  // ---- Every modification -------------------------------------------------

  datatype Step =
    | Delete(name: string, deletion: DeleteOptions, firstTime: bool)
    | Describe(namex: string, metadata: Option<Metadata>, createReadonly: bool, now: Json)
    | Link(addition: AddOptions, time: Json, entries: seq<Entry>)

  ghost function Stepped(e: Env, writekey: Bytes, step: Step, contents: Bytes): Modified {
    match step
    case Delete(name, o, firstTime) => Deleted(e, writekey, name, o, contents, firstTime)
    case Describe(namex, m, ro, now) => MetadataSet(e, writekey, e.normalize(namex), m, ro, now, contents)
    case Link(o, now, entries) => Added(e, writekey, o, now, entries, contents)
  }

  /** The dictionary that a step packs. */
  ghost function Pending(e: Env, writekey: Bytes, step: Step, contents: Bytes): Children
    requires Stepped(e, writekey, step, contents).NewContents?
  {
    var before := Unpacked(e, Writer(writekey), contents).value;
    match step
    case Delete(name, _, _) => before - {name}
    case Describe(namex, m, ro, now) =>
      var name := e.normalize(namex);
      before[name := NewLink(e, ro, now, Some(before[name].metadata), m, before[name].node).value]
    case Link(o, now, entries) => WithEntries(e, o, now, before, entries).value
  }

  /** The links that a step writes anew are to children that both views read alike. */
  ghost predicate StepAlike(e: Env, writekey: Bytes, step: Step, contents: Bytes) {
    Stepped(e, writekey, step, contents).NewContents? ==> NewAlike(e, Pending(e, writekey, step, contents))
  }

  lemma StepPacks(e: Env, writekey: Bytes, step: Step, contents: Bytes)
    requires Stepped(e, writekey, step, contents).NewContents?
    ensures Unpacked(e, Writer(writekey), contents).Some?
    ensures Packed(e, Some(writekey), false, Pending(e, writekey, step, contents)) == Some(Stepped(e, writekey, step, contents).contents)
  {
    hide Unpacked, Packed, NewLink, WithEntries;
  }

  lemma PendingDescribed(e: Env, writekey: Bytes, step: Step, contents: Bytes)
    requires EnvLaws(e) && step.Describe? && Stepped(e, writekey, step, contents).NewContents?
    requires AllReady(e, writekey, Unpacked(e, Writer(writekey), contents).value)
    ensures AllReady(e, writekey, Pending(e, writekey, step, contents))
  {
    var name := e.normalize(step.namex);
    assert e.normalize(name) == name;
    hide Unpacked, Packed, NewLink, EnvLaws, AllReady;
    var before := Unpacked(e, Writer(writekey), contents).value;
    NewLinkIsFresh(e, step.createReadonly, step.now, Some(before[name].metadata), step.metadata, before[name].node);
    OneNewReady(e, writekey, before, name,
                NewLink(e, step.createReadonly, step.now, Some(before[name].metadata), step.metadata, before[name].node).value);
  }

  lemma OneNewReady(e: Env, writekey: Bytes, children: Children, name: string, slot: Slot)
    requires AllReady(e, writekey, children) && slot.raw == None && e.normalize(name) == name
    ensures AllReady(e, writekey, children[name := slot])
  {
    hide ReadFrom, DecodeEntry;
  }

  lemma PendingLinked(e: Env, writekey: Bytes, step: Step, contents: Bytes)
    requires EnvLaws(e) && step.Link? && Stepped(e, writekey, step, contents).NewContents?
    requires AllReady(e, writekey, Unpacked(e, Writer(writekey), contents).value)
    ensures AllReady(e, writekey, Pending(e, writekey, step, contents))
  {
    hide Unpacked, Packed, WithEntries, EnvLaws, ReadFrom, DecodeEntry, Named;
    var before := Unpacked(e, Writer(writekey), contents).value;
    var next := WithEntries(e, step.addition, step.time, before, step.entries).value;
    WithEntriesFrame(e, step.addition, step.time, before, step.entries);
    forall n | n in next
      ensures IsReady(e, writekey, n, next[n])
    {
      if n in Named(e, step.entries) {
        NamedNormalized(e, step.entries, n);
      }
    }
  }

  lemma PendingReady(e: Env, writekey: Bytes, step: Step, contents: Bytes)
    requires EnvLaws(e) && ViewsAgree(e, writekey, contents) && Stepped(e, writekey, step, contents).NewContents?
    ensures AllReady(e, writekey, Pending(e, writekey, step, contents))
  {
    hide EnvLaws, ViewsAgree, IsReady, Stepped, Unpacked, NewLink, WithEntries;
    StepPacks(e, writekey, step, contents);
    ReadIsReady(e, writekey, contents);
    match step
    case Delete(_, _, _) =>
    case Describe(_, _, _, _) => PendingDescribed(e, writekey, step, contents);
    case Link(_, _, _) => PendingLinked(e, writekey, step, contents);
  }

  /** A modification of contents on which the views agree keeps them in agreement if and only if what it links anew is stored alike. */
  lemma StepAgrees(e: Env, writekey: Bytes, step: Step, contents: Bytes)
    requires EnvLaws(e) && ViewsAgree(e, writekey, contents)
    ensures var r := Stepped(e, writekey, step, contents);
      (r.NewContents? ==> ViewsAgree(e, writekey, r.contents)) <==> StepAlike(e, writekey, step, contents)
  {
    hide EnvLaws, ViewsAgree, AllReady, Stepped, Pending, Packed, NewAlike;
    if Stepped(e, writekey, step, contents).NewContents? {
      StepPacks(e, writekey, step, contents);
      PendingReady(e, writekey, step, contents);
      WrittenAgrees(e, writekey, Pending(e, writekey, step, contents));
    }
  }

  // ---- Whole histories ----------------------------------------------------

  /** The contents after one step, which may fail. */
  ghost function AfterStep(e: Env, writekey: Bytes, step: Step, contents: Bytes): Bytes {
    var r := Stepped(e, writekey, step, contents);
    if r.NewContents? then r.contents else contents
  }

  ghost function History(e: Env, writekey: Bytes, steps: seq<Step>, contents: Bytes): Bytes
    decreases |steps|
  {
    if steps == [] then contents
    else History(e, writekey, steps[1..], AfterStep(e, writekey, steps[0], contents))
  }

  /** Every link that is written anew in the course of a history is to a child that both views read alike. */
  ghost predicate HistoryAlike(e: Env, writekey: Bytes, steps: seq<Step>, contents: Bytes)
    decreases |steps|
  {
    steps != [] ==>
      StepAlike(e, writekey, steps[0], contents) && HistoryAlike(e, writekey, steps[1..], AfterStep(e, writekey, steps[0], contents))
  }

  /** The views agree after each step. */
  ghost predicate AgreesThroughout(e: Env, writekey: Bytes, steps: seq<Step>, contents: Bytes) {
    forall k: nat :: k <= |steps| ==> ViewsAgree(e, writekey, History(e, writekey, steps[..k], contents))
  }

  lemma HistoryAfterFirst(e: Env, writekey: Bytes, steps: seq<Step>, contents: Bytes, k: nat)
    requires k < |steps|
    ensures History(e, writekey, steps[..k + 1], contents) ==
      History(e, writekey, steps[1..][..k], AfterStep(e, writekey, steps[0], contents))
  {
    hide AfterStep;
    assert steps[..k + 1][0] == steps[0] && steps[..k + 1][1..] == steps[1..][..k];
  }

  lemma ThroughoutStep(e: Env, writekey: Bytes, steps: seq<Step>, contents: Bytes)
    requires steps != []
    ensures AgreesThroughout(e, writekey, steps, contents) <==>
      ViewsAgree(e, writekey, contents) && AgreesThroughout(e, writekey, steps[1..], AfterStep(e, writekey, steps[0], contents))
  {
    hide ViewsAgree, AfterStep, History;
    var next := AfterStep(e, writekey, steps[0], contents);
    assert History(e, writekey, steps[..0], contents) == contents by { NoHistory(e, writekey, steps[..0], contents); }
    forall k: nat | k < |steps|
      ensures History(e, writekey, steps[..k + 1], contents) == History(e, writekey, steps[1..][..k], next)
    {
      HistoryAfterFirst(e, writekey, steps, contents, k);
    }
    if ViewsAgree(e, writekey, contents) && AgreesThroughout(e, writekey, steps[1..], next) {
      forall k: nat | k <= |steps|
        ensures ViewsAgree(e, writekey, History(e, writekey, steps[..k], contents))
      {
        if k > 0 {
          assert ViewsAgree(e, writekey, History(e, writekey, steps[1..][..k - 1], next));
          assert History(e, writekey, steps[..(k - 1) + 1], contents) == History(e, writekey, steps[1..][..k - 1], next);
        }
      }
    }
    if AgreesThroughout(e, writekey, steps, contents) {
      forall k: nat | k <= |steps[1..]|
        ensures ViewsAgree(e, writekey, History(e, writekey, steps[1..][..k], next))
      {
        assert ViewsAgree(e, writekey, History(e, writekey, steps[..k + 1], contents));
      }
    }
  }

  lemma NoHistory(e: Env, writekey: Bytes, steps: seq<Step>, contents: Bytes)
    requires steps == []
    ensures History(e, writekey, steps, contents) == contents
  {
  }

  /**
   * Over whole histories: starting from contents on which the views agree, they
   * agree after every step if and only if every link written anew on the way is
   * to a child that is stored alike at that time.
   */
  lemma {:induction false} HistoryAgrees(e: Env, writekey: Bytes, steps: seq<Step>, contents: Bytes)
    requires EnvLaws(e) && ViewsAgree(e, writekey, contents)
    ensures AgreesThroughout(e, writekey, steps, contents) <==> HistoryAlike(e, writekey, steps, contents)
    decreases |steps|
  {
    hide EnvLaws, ViewsAgree, StepAlike, AgreesThroughout, Stepped;
    if steps == [] {
      assert AgreesThroughout(e, writekey, [], contents) by { ThroughoutNothing(e, writekey, contents); }
    } else {
      var next := AfterStep(e, writekey, steps[0], contents);
      ThroughoutStep(e, writekey, steps, contents);
      StepAgrees(e, writekey, steps[0], contents);
      if AgreesThroughout(e, writekey, steps[1..], next) {
        ThroughoutStarts(e, writekey, steps[1..], next);
      }
      if ViewsAgree(e, writekey, next) {
        HistoryAgrees(e, writekey, steps[1..], next);
      }
    }
  }

  lemma ThroughoutNothing(e: Env, writekey: Bytes, contents: Bytes)
    requires ViewsAgree(e, writekey, contents)
    ensures AgreesThroughout(e, writekey, [], contents)
  {
    hide ViewsAgree, Stepped;
    var none: seq<Step> := [];
    forall k: nat | k <= |none|
      ensures ViewsAgree(e, writekey, History(e, writekey, none[..k], contents))
    {
      NoHistory(e, writekey, none[..k], contents);
    }
  }

  lemma ThroughoutStarts(e: Env, writekey: Bytes, steps: seq<Step>, contents: Bytes)
    requires AgreesThroughout(e, writekey, steps, contents)
    ensures ViewsAgree(e, writekey, contents)
  {
    hide ViewsAgree;
    assert ViewsAgree(e, writekey, History(e, writekey, steps[..0], contents));
    NoHistory(e, writekey, steps[..0], contents);
  }

  // ---- Children that can be judged once and for all -----------------------

  /**
   * Whatever is done with such a child, what is linked anew is again one that both
   * views read alike: a known one, an unknown one without a write cap, or one whose
   * read cap survives and means nothing either.
   */
  predicate SeenAlike(p: Primitives, n: Node) {
    n.Unknown? && n.rw.Some? ==>
      StorableInMutable(n) && n.ro.Some? && RO <= n.ro.value && Verdict0(p, n.ro.value[|RO|..], true, true).Inert?
  }

  ghost predicate AllSeenAlike(p: Primitives, children: Children) {
    forall n :: n in children ==> SeenAlike(p, children[n].node)
  }

  /** A node made from a read cap that is no write cap is the same for readers. */
  lemma ReadNodeSeen(e: Env, r: Bytes)
    requires FromString(e.caps, r, false).KnownUri? ==> IsReadonly(FromString(e.caps, r, false).cap)
    ensures var n := NodeFor(e.caps, e.blacklist, None, OrNone(Some(r)), false); AsSeen(e, n) == n && SeenAlike(e.caps, n)
  {
    hide FromString, Strengthen, StorageIndex, Verdict0;
  }

  lemma UnknownReadStored(e: Env, writekey: Bytes, n: Node)
    requires Laws(e.caps) && n.Unknown? && Producible(e.caps, n) && n.rw.None?
    ensures var w, r := StoredNode(e, Writer(writekey), false, n), StoredNode(e, Reader, false, n);
      r == AsSeen(e, w) && SeenAlike(e.caps, w)
  {
    hide FromString, NodeFor, StripPrefixForRo, StripSpaces, Producible, Laws, AsSeen, SeenAlike;
    StripNothing();
    StoredRoNotWriteable(e.caps, n);
    ReadNodeSeen(e, StoredRo(n));
  }

  /** Beside a write cap that means nothing, a read cap that survives is read as itself exactly if it means nothing either. */
  lemma UnknownWriteStored(e: Env, writekey: Bytes, n: Node)
    requires n.Unknown? && Producible(e.caps, n) && n.rw.Some? && StorableInMutable(n)
    ensures n.ro.Some? && RO <= n.ro.value
    ensures StoredNode(e, Writer(writekey), false, n) == n
    ensures StoredNode(e, Reader, false, n) == AsSeen(e, n) <==> SeenAlike(e.caps, n)
  {
    hide NodeFor, Verdict0, VerdictOf, StripSpaces, FromString;
    SurvivesMutable(e, writekey, n);
    var x := n.ro.value[|RO|..];
    StripNothing();
    AfterPrefix(n.ro.value, RO);
    KeepsSpaces(x);
    VerdictOnString(e.caps, x, false);
    if Verdict0(e.caps, x, true, true).Inert? {
      MakesUnknown(e.caps, e.blacklist, None, x, false);
    } else {
      MakesKnown(e.caps, e.blacklist, x);
    }
  }

  lemma MakesKnown(p: Primitives, blacklist: Blacklist, r: Bytes)
    requires r != "" && VerdictOf(FromString(p, r, false)).Makes?
    ensures !NodeFor(p, blacklist, None, Some(r), false).Unknown?
  {
    hide FromString;
  }

  lemma KnownStored(e: Env, writekey: Bytes, n: Node)
    requires EnvLaws(e) && !n.Unknown? && HasUris(n) && WellFormed(n.cap.f)
    ensures var w, r := StoredNode(e, Writer(writekey), false, n), StoredNode(e, Reader, false, n);
      r == AsSeen(e, w) && SeenAlike(e.caps, w)
  {
    hide StoredNode, EnvLaws, WellFormed, Readonly, StorageIndex;
    StoredKnown(e, Writer(writekey), false, n);
    StoredKnown(e, Reader, false, n);
  }

  /** What a reader is given for such a child is what it should see of what the writer is given, and that is such a child again. */
  lemma StoredViews(e: Env, writekey: Bytes, n: Node)
    requires EnvLaws(e) && IsMade(e.caps, n) && HasUris(n) && SeenAlike(e.caps, n)
    ensures var w, r := StoredNode(e, Writer(writekey), false, n), StoredNode(e, Reader, false, n);
      r == AsSeen(e, w) && SeenAlike(e.caps, w)
  {
    assert Laws(e.caps);
    hide StoredNode, EnvLaws, WellFormed, Laws, AsSeen, Producible, StorableInMutable, Verdict0;
    if !n.Unknown? {
      KnownStored(e, writekey, n);
    } else if n.rw.None? {
      UnknownReadStored(e, writekey, n);
    } else {
      UnknownWriteStored(e, writekey, n);
    }
  }

  lemma SeenIsStoredAlike(e: Env, writekey: Bytes, n: Node)
    requires EnvLaws(e) && IsMade(e.caps, n) && SeenAlike(e.caps, n)
    ensures StoredAlike(e.caps, n)
  {
    hide EnvLaws, IsMade, SeenAlike, FieldsAgree, AsSeen, StoredNode, WriteField, ReadField;
    if HasUris(n) {
      StoredViews(e, writekey, n);
      StoredAlikeIff(e, writekey, n);
      AsSeenError(e, StoredNode(e, Writer(writekey), false, n));
    }
  }

  /** A new link that is made from such a child is to such a child. */
  lemma NewLinkSeenAlike(e: Env, createReadonly: bool, now: Json, current: Option<Metadata>, update: Option<Metadata>, child: Node)
    requires Laws(e.caps) && IsMade(e.caps, child) && SeenAlike(e.caps, child)
    requires NewLink(e, createReadonly, now, current, update, child).Ok?
    ensures var n := NewLink(e, createReadonly, now, current, update, child).value.node; IsMade(e.caps, n) && SeenAlike(e.caps, n)
  {
    NoWriteIsEnforced(e, createReadonly, now, current, update, child);
    hide UpdatedMetadata, ReadonlyNode, IsMade, Laws, SeenAlike;
    if ReadonlyNode(e, child).Ok? {
      ReadonlyNodeSeenAlike(e, child);
    }
  }

  lemma ReadonlyNodeSeenAlike(e: Env, child: Node)
    requires SeenAlike(e.caps, child) && ReadonlyNode(e, child).Ok?
    ensures SeenAlike(e.caps, ReadonlyNode(e, child).value)
  {
    hide ToString, FromString, Strengthen, Verdict0, StorableInMutable;
  }

  ghost predicate EntriesAlike(e: Env, entries: seq<Entry>) {
    EntriesMade(e, entries) && forall i :: 0 <= i < |entries| ==> SeenAlike(e.caps, entries[i].child)
  }

  /** Old children and new ones, all of that kind. */
  ghost predicate AllLasting(e: Env, children: Children) {
    forall n :: n in children ==> IsMade(e.caps, children[n].node) && SeenAlike(e.caps, children[n].node)
  }

  lemma OneMoreLasts(e: Env, children: Children, name: string, slot: Slot)
    requires AllLasting(e, children) && IsMade(e.caps, slot.node) && SeenAlike(e.caps, slot.node)
    ensures AllLasting(e, children[name := slot])
  {
    hide IsMade, SeenAlike;
  }

  lemma WithEntryLasts(e: Env, o: AddOptions, now: Json, children: Children, entry: Entry)
    requires Laws(e.caps) && IsMade(e.caps, entry.child) && SeenAlike(e.caps, entry.child)
    requires AllLasting(e, children) && WithEntry(e, o, now, children, entry).Ok?
    ensures AllLasting(e, WithEntry(e, o, now, children, entry).value)
  {
    hide NewLink, IsMade, Laws, SeenAlike, AllLasting;
    var name := e.normalize(entry.namex);
    var current := if name in children then Some(children[name].metadata) else None;
    NewLinkSeenAlike(e, o.createReadonly, now, current, entry.metadata, entry.child);
    OneMoreLasts(e, children, name, NewLink(e, o.createReadonly, now, current, entry.metadata, entry.child).value);
  }

  lemma EntriesAlikeStep(e: Env, entries: seq<Entry>)
    requires EntriesAlike(e, entries) && entries != []
    ensures IsMade(e.caps, entries[0].child) && SeenAlike(e.caps, entries[0].child) && EntriesAlike(e, entries[1..])
  {
    hide IsMade, SeenAlike;
  }

  lemma {:induction false} WithEntriesLast(e: Env, o: AddOptions, now: Json, children: Children, entries: seq<Entry>)
    requires Laws(e.caps) && EntriesAlike(e, entries) && AllLasting(e, children) && WithEntries(e, o, now, children, entries).Ok?
    ensures AllLasting(e, WithEntries(e, o, now, children, entries).value)
    decreases |entries|
  {
    hide WithEntry, IsMade, Laws, SeenAlike, AllLasting, EntriesAlike;
    if entries != [] {
      EntriesAlikeStep(e, entries);
      WithEntryLasts(e, o, now, children, entries[0]);
      WithEntriesLast(e, o, now, WithEntry(e, o, now, children, entries[0]).value, entries[1..]);
    }
  }

  /** What the writer reads consists of such children only. */
  ghost predicate Lasting(e: Env, writekey: Bytes, data: Bytes) {
    Unpacked(e, Writer(writekey), data).Some? && AllLasting(e, Unpacked(e, Writer(writekey), data).value)
  }

  lemma PendingLasts(e: Env, writekey: Bytes, step: Step, contents: Bytes)
    requires Laws(e.caps) && Lasting(e, writekey, contents) && Stepped(e, writekey, step, contents).NewContents?
    requires step.Link? ==> EntriesAlike(e, step.entries)
    ensures AllLasting(e, Pending(e, writekey, step, contents))
  {
    hide Unpacked, Packed, NewLink, WithEntries, Laws, IsMade, SeenAlike, EntriesAlike;
    var before := Unpacked(e, Writer(writekey), contents).value;
    match step
    case Delete(_, _, _) =>
    case Describe(namex, m, ro, now) =>
      var name := e.normalize(namex);
      NewLinkSeenAlike(e, ro, now, Some(before[name].metadata), m, before[name].node);
      OneMoreLasts(e, before, name, NewLink(e, ro, now, Some(before[name].metadata), m, before[name].node).value);
    case Link(o, now, entries) => WithEntriesLast(e, o, now, before, entries);
  }

  lemma WrittenLasts(e: Env, writekey: Bytes, name: string, slot: Slot)
    requires EnvLaws(e) && IsMade(e.caps, slot.node) && SeenAlike(e.caps, slot.node)
    ensures var w := Written(e, writekey, name, slot); w.Some? ==> IsMade(e.caps, w.value.node) && SeenAlike(e.caps, w.value.node)
  {
    hide EnvLaws, IsMade, SeenAlike, FreshEntry, StoredNode;
    if slot.raw.None? && HasUris(slot.node) && NodeError(StoredNode(e, Writer(writekey), false, slot.node)).None? {
      StoredLasts(e, writekey, slot.node);
    }
  }

  lemma StoredLasts(e: Env, writekey: Bytes, n: Node)
    requires EnvLaws(e) && IsMade(e.caps, n) && HasUris(n) && SeenAlike(e.caps, n)
    requires NodeError(StoredNode(e, Writer(writekey), false, n)).None?
    ensures var stored := StoredNode(e, Writer(writekey), false, n); IsMade(e.caps, stored) && SeenAlike(e.caps, stored)
  {
    assert Laws(e.caps);
    hide EnvLaws, Laws, IsMade, SeenAlike, StoredNode, AsSeen;
    StoredViews(e, writekey, n);
    StoredIsMade(e, writekey, n);
  }

  lemma StoredIsMade(e: Env, writekey: Bytes, n: Node)
    requires Laws(e.caps) && HasUris(n) && NodeError(StoredNode(e, Writer(writekey), false, n)).None?
    ensures IsMade(e.caps, StoredNode(e, Writer(writekey), false, n))
  {
    hide NodeFor, IsMade, Laws, StripSpaces, StripPrefixForRo, ToString;
    var ro := StripPrefixForRo(OrEmpty(ReadUri(e.caps, n)), false);
    CreatedIsMade(e.caps, e.blacklist, OrNone(Some(StripSpaces(OrEmpty(WriteUri(e.caps, n))))), OrNone(Some(StripSpaces(ro))), false);
  }

  /** Contents made of such children read back as such children, on which the views agree. */
  lemma PackedLasts(e: Env, writekey: Bytes, children: Children)
    requires EnvLaws(e) && AllReady(e, writekey, children) && AllLasting(e, children) && Packed(e, Some(writekey), false, children).Some?
    ensures var data := Packed(e, Some(writekey), false, children).value; ViewsAgree(e, writekey, data) && Lasting(e, writekey, data)
  {
    hide EnvLaws, Packed, Unpacked, ViewsAgree, IsReady, Mixed, IsMade, SeenAlike, StoredAlike, Written;
    forall n | n in children
      ensures StoredAlike(e.caps, children[n].node)
      ensures var w := Written(e, writekey, n, children[n]); w.Some? ==> IsMade(e.caps, w.value.node) && SeenAlike(e.caps, w.value.node)
    {
      SeenIsStoredAlike(e, writekey, children[n].node);
      WrittenLasts(e, writekey, n, children[n]);
    }
    WrittenAgrees(e, writekey, children);
    ReadyIsMixed(e, writekey, children);
    MixedPackUnpack(e, writekey, children);
  }

  ghost predicate StepsAlike(e: Env, steps: seq<Step>) {
    forall i :: 0 <= i < |steps| && steps[i].Link? ==> EntriesAlike(e, steps[i].entries)
  }

  lemma {:induction false} LastingHistory(e: Env, writekey: Bytes, steps: seq<Step>, contents: Bytes)
    requires EnvLaws(e) && ViewsAgree(e, writekey, contents) && Lasting(e, writekey, contents) && StepsAlike(e, steps)
    ensures ViewsAgree(e, writekey, History(e, writekey, steps, contents)) && Lasting(e, writekey, History(e, writekey, steps, contents))
    decreases |steps|
  {
    assert Laws(e.caps);
    hide EnvLaws, Laws, ViewsAgree, Lasting, Stepped, EntriesAlike, Pending, Packed, AllLasting, AllReady;
    if steps != [] {
      if Stepped(e, writekey, steps[0], contents).NewContents? {
        StepPacks(e, writekey, steps[0], contents);
        PendingReady(e, writekey, steps[0], contents);
        PendingLasts(e, writekey, steps[0], contents);
        PackedLasts(e, writekey, Pending(e, writekey, steps[0], contents));
      }
      LastingHistory(e, writekey, steps[1..], AfterStep(e, writekey, steps[0], contents));
    }
  }

  /** A directory as it is created: nothing cached, normalized names, children that can be judged once and for all. */
  ghost predicate NewDirectory(e: Env, children: Children) {
    AllNew(e, children) && AllLasting(e, children)
  }

  lemma NewDirectoryReady(e: Env, writekey: Bytes, children: Children)
    requires AllNew(e, children)
    ensures AllReady(e, writekey, children)
  {
  }

  /**
   * Readers and writers agree: if every child ever linked is known, or has no
   * unknown write cap, or has one beside a read cap that survives and means
   * nothing, then whatever has been done to a directory since it was created,
   * someone with its read cap sees the same names and metadata as its writer, for
   * each known child the read-only form of it, and never a write cap.
   */
  lemma ReaderSeesReadonly(e: Env, writekey: Bytes, children: Children, steps: seq<Step>)
    requires EnvLaws(e) && NewDirectory(e, children) && StepsAlike(e, steps) && Packed(e, Some(writekey), false, children).Some?
    ensures
      var contents := History(e, writekey, steps, Packed(e, Some(writekey), false, children).value);
      var mine, theirs := Unpacked(e, Writer(writekey), contents), Unpacked(e, Reader, contents);
      && mine.Some? && theirs.Some? && theirs.value.Keys == mine.value.Keys
      && forall n :: n in mine.value ==>
           && theirs.value[n].metadata == mine.value[n].metadata
           && theirs.value[n].node == AsSeen(e, mine.value[n].node)
           && CannotWrite(e, theirs.value[n].node)
  {
    hide EnvLaws, Packed, AllLasting, AllReady, StepsAlike, History, Unpacked, AsSeen, CannotWrite, AllNew, Lasting;
    NewDirectoryReady(e, writekey, children);
    PackedLasts(e, writekey, children);
    var start := Packed(e, Some(writekey), false, children).value;
    LastingHistory(e, writekey, steps, start);
    var mine := Unpacked(e, Writer(writekey), History(e, writekey, steps, start)).value;
    forall n | n in mine
      ensures CannotWrite(e, AsSeen(e, mine[n].node))
    {
      SeenCannotWrite(e, mine[n].node);
    }
  }

  lemma SeenCannotWrite(e: Env, n: Node)
    ensures CannotWrite(e, AsSeen(e, n))
  {
    hide ToString;
  }

  // ---- Where the views disagree -------------------------------------------

  /** A known read cap beside an unknown write cap: the writer has an unknown child, the reader a known one. */
  lemma HiddenReadCap(e: Env, writekey: Bytes, name: string, c: Cap)
    requires EnvLaws(e) && e.normalize(name) == name && WellFormed(c.f) && !IsVerifier(c)
    ensures
      var entry := MadeEntry(e, writekey, name, ToString(e.caps, c), "future:x");
      var data := Netstring(entry);
      && Unpacked(e, Writer(writekey), data) ==
           Some(map[name := Slot(Unknown(None, Some("future:x"), Some(RO + ToString(e.caps, c))), map[], Some(entry))])
      && Unpacked(e, Reader, data) == Some(map[name := Slot(Guarded(e.caps, e.blacklist, c), map[], Some(entry))])
      && !ViewsAgree(e, writekey, data)
  {
    hide EnvLaws, WellFormed, MadeEntry, Netstring, Unpacked, ToString, NodeFor, Guarded;
    var u := ToString(e.caps, c);
    var entry := MadeEntry(e, writekey, name, u, "future:x");
    HiddenNodes(e, c);
    OneMadeEntry(e, writekey, name, u, "future:x", Unknown(None, Some("future:x"), Some(RO + u)));
    ReaderOfMade(e, writekey, name, u, "future:x");
    Disagree(e, writekey, Netstring(entry), name);
  }

  /** One name that readers do not see as they should is enough. */
  lemma Disagree(e: Env, writekey: Bytes, data: Bytes, name: string)
    requires Unpacked(e, Writer(writekey), data).Some? && Unpacked(e, Reader, data).Some? && name in Unpacked(e, Reader, data).value
    requires name in Unpacked(e, Writer(writekey), data).value ==>
      Unpacked(e, Reader, data).value[name].node.Unknown? != Unpacked(e, Writer(writekey), data).value[name].node.Unknown?
    ensures !ViewsAgree(e, writekey, data)
  {
    hide Unpacked;
    var w := Unpacked(e, Writer(writekey), data).value;
    if name in w {
      SeenKind(e, w[name].node);
      assert name in SeenByReader(e, w) && SeenByReader(e, w)[name].node == AsSeen(e, w[name].node);
    }
  }

  lemma SeenKind(e: Env, n: Node)
    ensures AsSeen(e, n).Unknown? == n.Unknown?
  {
  }

  lemma HiddenNodes(e: Env, c: Cap)
    requires EnvLaws(e) && WellFormed(c.f) && !IsVerifier(c)
    ensures var u := ToString(e.caps, c);
      && StripSpaces(u) == u && u != "" && StripSpaces("future:x") == "future:x"
      && NodeFor(e.caps, e.blacklist, Some("future:x"), Some(u), false) == Unknown(None, Some("future:x"), Some(RO + u))
      && NodeFor(e.caps, e.blacklist, None, Some(u), false) == Guarded(e.caps, e.blacklist, c)
      && !Guarded(e.caps, e.blacklist, c).Unknown?
  {
    assert Laws(e.caps);
    hide EnvLaws, Laws, WellFormed, ToString, FromString, StorageIndex, NodeFor, StripSpaces;
    var u := ToString(e.caps, c);
    PrintedPlain(e.caps, c, false);
    NodeForPrinted(e.caps, e.blacklist, c, None, false);
    ParsePlain(e.caps, c, false);
    SplitPrinted(e.caps, c);
    FutureMeansNothing(e.caps);
    MakesUnknown(e.caps, e.blacklist, Some("future:x"), u, false);
  }

  lemma FutureMeansNothing(p: Primitives)
    ensures StripSpaces("future:x") == "future:x" && FromString(p, "future:x", false) == UnknownUri("future:x", None)
  {
    hide Dispatch, ParseBits;
    NoClass(p, "future:x", true, true);
    assert !(IMM <= "future:x") && !(RO <= "future:x");
  }

  /** A child that creation returns and whose link only readers find again. */
  const ONLY_READERS: Node := Unknown(None, Some("w"), Some("ro.imm.x"))

  lemma OnlyReadersFields(e: Env)
    ensures NodeFor(e.caps, e.blacklist, Some("w"), Some("ro.imm.x"), false) == ONLY_READERS
    ensures WriteField(e.caps, ONLY_READERS) == "w" && ReadField(e.caps, ONLY_READERS) == "imm.x"
    ensures NodeError(NodeFor(e.caps, e.blacklist, Some("w"), Some("imm.x"), false)).Some?
    ensures NodeFor(e.caps, e.blacklist, None, Some("imm.x"), false) == Unknown(None, None, Some("imm.x"))
  {
    ImmutableReadCap(e.caps, e.blacklist);
    hide Dispatch, ParseBits;
    var ro, rest := "ro.imm.x", "imm.x";
    assert RO <= ro && ro[|RO|..] == rest && IMM <= rest && rest[|IMM|..] == "x";
    assert !(IMM <= ro) by { assert ro[0] == 'r'; }
    assert StripSpaces(rest) == rest && StripSpaces("w") == "w";
    NoClass(e.caps, "w", true, true);
    NoClass(e.caps, "x", false, false);
    assert FromUnprefixed(e.caps, rest, "x", false, false) == UnknownUri(rest, None);
  }

  /** What the two views read of a directory with one new link. */
  lemma OneNewLink(e: Env, writekey: Bytes, name: string, node: Node, metadata: Metadata)
    requires EnvLaws(e) && e.normalize(name) == name && HasUris(node) && NodeError(node).None?
    ensures
      var packed := Packed(e, Some(writekey), false, map[name := Slot(node, metadata, None)]);
      var mine, theirs := StoredNode(e, Writer(writekey), false, node), StoredNode(e, Reader, false, node);
      var entry := FreshEntry(e, Some(writekey), false, name, node, metadata);
      && packed.Some?
      && Unpacked(e, Writer(writekey), packed.value) ==
           Some(if NodeError(mine).Some? then map[] else map[name := Slot(mine, metadata, Some(entry))])
      && Unpacked(e, Reader, packed.value) ==
           Some(if NodeError(theirs).Some? then map[] else map[name := Slot(theirs, metadata, Some(entry))])
  {
    hide EnvLaws, PackNames, UnpackFrom, FreshEntry, StoredNode, DecodeEntry, Judge;
    var slot := Slot(node, metadata, None);
    var children: Children := map[name := slot];
    PackedEntriesExist(e, Some(writekey), false, children, SortedNames(children.Keys));
    MixedPackUnpack(e, writekey, children);
    FreshDecodes(e, Reader, Some(writekey), false, name, node, metadata);
    JudgeReader(name, StoredNode(e, Reader, false, node), metadata);
    PackThenUnpack(e, Reader, Some(writekey), false, children);
    var mine, theirs := StoredNode(e, Writer(writekey), false, node), StoredNode(e, Reader, false, node);
    var entry := FreshEntry(e, Some(writekey), false, name, node, metadata);
    assert AllWritten(e, writekey, children) == if NodeError(mine).Some? then map[] else map[name := Slot(mine, metadata, Some(entry))];
    assert Restored(e, Reader, Some(writekey), false, children) ==
      if NodeError(theirs).Some? then map[] else map[name := Slot(theirs, metadata, Some(entry))];
  }

  /** Adding one link to an empty directory packs that link. */
  lemma AddedToNothing(e: Env, writekey: Bytes, name: string, child: Node, now: Json)
    requires e.normalize(name) == name && HasUris(child) && NodeError(child).None?
    ensures var link := NewLink(e, false, now, None, None, child);
      && link.Ok? && link.value.node == child && link.value.raw == None
      && Added(e, writekey, AddOptions(Always, false), now, [Entry(name, child, None)], "") ==
           Repacked(Packed(e, Some(writekey), false, map[name := link.value]))
  {
    hide UnpackFrom, PackNames, UpdatedMetadata;
    UnpackStep(e, Writer(writekey), "", map[]);
    var entry := Entry(name, child, None);
    FirstTimes(None, None, now);
    var o, none: Children, next := AddOptions(Always, false), map[], map[name := NewLink(e, false, now, None, None, child).value];
    assert WithEntry(e, o, now, none, entry) == Ok(next);
    assert [entry][1..] == [] && WithEntries(e, o, now, next, []) == Ok(next);
    assert WithEntries(e, o, now, none, [entry]) == Ok(next);
  }

  /**
   * Such a child, added to an empty directory: its writer finds nothing, its
   * readers find a link under that name.
   */
  lemma NameOnlyReadersSee(e: Env, writekey: Bytes, name: string, now: Json)
    requires EnvLaws(e) && e.normalize(name) == name
    ensures
      var r := Added(e, writekey, AddOptions(Always, false), now, [Entry(name, ONLY_READERS, None)], "");
      && r.NewContents?
      && Unpacked(e, Writer(writekey), r.contents) == Some(map[])
      && Unpacked(e, Reader, r.contents).Some? && name in Unpacked(e, Reader, r.contents).value
      && Unpacked(e, Reader, r.contents).value[name].node == Unknown(None, None, Some("imm.x"))
      && !ViewsAgree(e, writekey, r.contents)
  {
    hide EnvLaws, Packed, Unpacked, NewLink, NodeFor, WriteField, ReadField, Added, FreshEntry;
    AddedToNothing(e, writekey, name, ONLY_READERS, now);
    var link := NewLink(e, false, now, None, None, ONLY_READERS).value;
    assert link == Slot(ONLY_READERS, link.metadata, None);
    OnlyReadersFields(e);
    OnlyReadersStored(e, writekey);
    OneNewLink(e, writekey, name, ONLY_READERS, link.metadata);
    Disagree(e, writekey, Packed(e, Some(writekey), false, map[name := link]).value, name);
  }

  lemma OnlyReadersStored(e: Env, writekey: Bytes)
    ensures NodeError(StoredNode(e, Writer(writekey), false, ONLY_READERS)).Some?
    ensures StoredNode(e, Reader, false, ONLY_READERS) == Unknown(None, None, Some("imm.x"))
  {
    hide NodeFor, StripSpaces;
    StripNothing();
    OnlyReadersFields(e);
  }

  lemma ReaderDecodes(e: Env, writekey: Bytes, name: string, roField: Bytes, rw: Bytes)
    requires EnvLaws(e) && e.normalize(name) == name
    requires NodeError(NodeFor(e.caps, e.blacklist, None, OrNone(Some(StripSpaces(roField))), false)).None?
    ensures DecodeEntry(e, Reader, MadeEntry(e, writekey, name, roField, rw)) ==
      Kept(name, NodeFor(e.caps, e.blacklist, None, OrNone(Some(StripSpaces(roField))), false), map[])
  {
    hide EnvLaws, NodeFor, StripSpaces, EncryptRwUri, DecodeEntry, Netstrings;
    StripNothing();
    EntryDecodes(e, Reader, name, roField, EncryptRwUri(e, writekey, rw), map[]);
  }

  lemma ReaderOfMade(e: Env, writekey: Bytes, name: string, roField: Bytes, rw: Bytes)
    requires EnvLaws(e) && e.normalize(name) == name
    requires NodeError(NodeFor(e.caps, e.blacklist, None, OrNone(Some(StripSpaces(roField))), false)).None?
    ensures var entry := MadeEntry(e, writekey, name, roField, rw);
      Unpacked(e, Reader, Netstring(entry)) ==
        Some(map[name := Slot(NodeFor(e.caps, e.blacklist, None, OrNone(Some(StripSpaces(roField))), false), map[], Some(entry))])
  {
    hide EnvLaws, NodeFor, StripSpaces, MadeEntry, DecodeEntry, Netstring, UnpackFrom;
    ReaderDecodes(e, writekey, name, roField, rw);
    OneEntry(e, Reader, name, MadeEntry(e, writekey, name, roField, rw),
             NodeFor(e.caps, e.blacklist, None, OrNone(Some(StripSpaces(roField))), false), map[]);
  }

  /** A write cap in the read field is given to every reader. */
  lemma WriteCapInReadField(e: Env, writekey: Bytes, name: string, c: Cap)
    requires EnvLaws(e) && e.normalize(name) == name && WellFormed(c.f) && !IsVerifier(c) && !IsReadonly(c)
    ensures
      var seen := Unpacked(e, Reader, Netstring(MadeEntry(e, writekey, name, ToString(e.caps, c), "")));
      && seen.Some? && name in seen.value && HasUris(seen.value[name].node)
      && WriteUri(e.caps, seen.value[name].node) == Some(ToString(e.caps, c))
  {
    hide EnvLaws, WellFormed, MadeEntry, Netstring, Unpacked, ToString, NodeFor;
    HiddenNodes(e, c);
    ReaderOfMade(e, writekey, name, ToString(e.caps, c), "");
  }
}
