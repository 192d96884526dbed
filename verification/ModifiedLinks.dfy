/** What is read under a name after its link was added or described anew. */
module ModifiedLinks {
  import opened Basics
  import opened Caps
  import opened CapProofs
  import opened Nodes
  import opened Directory
  import opened DirectoryProofs
  import opened FreshPacking
  import opened Modifiers
  import opened ModifierProofs

  // ---- Metadata -----------------------------------------------------------

  /** When the link was created: as recorded, or else its old "ctime", or else now. */
  function Creation(current: Option<Metadata>, now: Json): Json {
    if HasCreation(current) then current.value[TAHOE].fields[LINKCRTIME]
    else if current.Some? && CTIME in current.value && !current.value[CTIME].Null? then current.value[CTIME]
    else now
  }

  function SystemFields(current: Option<Metadata>): map<string, Json> {
    if current.Some? && TAHOE in current.value && current.value[TAHOE].Obj? then current.value[TAHOE].fields else map[]
  }

  /** The same values under all keys but these. */
  ghost predicate AgreeBut(a: Metadata, b: Metadata, except: set<string>) {
    forall k :: k !in except ==> (k in a <==> k in b) && (k in b ==> a[k] == b[k])
  }

  /** The user's part of the metadata: that of the update, or of the old link if there is none. */
  function UserPart(current: Option<Metadata>, update: Option<Metadata>): Metadata {
    if update.Some? then update.value else if current.Some? then current.value else map[]
  }

  /**
   * The metadata of a link after an update at time `now`: the user's part is that
   * of the update, system fields stay, except that the link was modified now and
   * has a creation time.
   */
  ghost predicate IsUpdated(m: Metadata, current: Option<Metadata>, update: Option<Metadata>, now: Json) {
    && AgreeBut(m, UserPart(current, update), {TAHOE})
    && HasTimes(m, Creation(current, now), now)
    && AgreeBut(m[TAHOE].fields, SystemFields(current), {LINKCRTIME, LINKMOTIME})
  }

  lemma UpdatedIs(current: Option<Metadata>, update: Option<Metadata>, now: Json)
    requires UpdatedMetadata(current, update, now).Some?
    ensures IsUpdated(UpdatedMetadata(current, update, now).value, current, update, now)
  {
    SystemKeysDiffer();
  }

  function Later(first: Option<Metadata>, second: Option<Metadata>): Option<Metadata> {
    if second.Some? then second else first
  }

  /** Two updates at one time are one update, with the later of the two user parts. */
  lemma UpdatedTwice(current: Option<Metadata>, first: Option<Metadata>, m: Metadata, second: Option<Metadata>, n: Metadata, now: Json)
    requires IsUpdated(m, current, first, now) && IsUpdated(n, Some(m), second, now)
    ensures IsUpdated(n, current, Later(first, second), now)
  {
  }

  lemma MarkIs(m: Metadata, current: Option<Metadata>, update: Option<Metadata>, now: Json)
    requires IsUpdated(m, current, update, now)
    ensures MarkedNoWrite(m) <==> WillBeMarked(current, update)
  {
    assert TAHOE[0] != NO_WRITE[0];
    assert NO_WRITE !in {TAHOE};
  }

  // ---- The child ----------------------------------------------------------

  /** The node that can only read what `child` is for. */
  function ReadForm(e: Env, child: Node): Node {
    if child.Unknown? then NodeFor(e.caps, e.blacklist, None, child.ro, false)
    else if !HasUris(child) || IsReadonly(child.cap) then child
    else Guarded(e.caps, e.blacklist, Readonly(e.caps, child.cap))
  }

  lemma ReadonlyNodeIs(e: Env, child: Node)
    requires Laws(e.caps) && IsMade(e.caps, child) && ReadonlyNode(e, child).Ok?
    ensures ReadonlyNode(e, child).value == ReadForm(e, child)
  {
    hide ToString, NodeFor, Guarded, Laws, WellFormed, Producible, Readonly;
    if !child.Unknown? && HasUris(child) && !IsReadonly(child.cap) {
      Attenuation(e.caps, child.cap);
      NodeForPrinted(e.caps, e.blacklist, Readonly(e.caps, child.cap), None, false);
    }
  }

  /** The node a new link holds. */
  function LinkedNode(e: Env, noWrite: bool, child: Node): Node {
    if noWrite then ReadForm(e, child) else child
  }

  /** A link, not packed yet, to `child` or its read form, with updated metadata. */
  ghost predicate IsLinkTo(e: Env, createReadonly: bool, now: Json, current: Option<Metadata>, update: Option<Metadata>, child: Node, link: Slot) {
    && IsUpdated(link.metadata, current, update, now)
    && link.node == LinkedNode(e, createReadonly && WillBeMarked(current, update), child)
  }

  lemma NewLinkIs(e: Env, createReadonly: bool, now: Json, current: Option<Metadata>, update: Option<Metadata>, child: Node)
    requires Laws(e.caps) && IsMade(e.caps, child) && NewLink(e, createReadonly, now, current, update, child).Ok?
    ensures IsLinkTo(e, createReadonly, now, current, update, child, NewLink(e, createReadonly, now, current, update, child).value)
  {
    hide UpdatedMetadata, ReadonlyNode, ReadForm, IsMade, Laws, IsUpdated, WillBeMarked;
    UpdatedIs(current, update, now);
    MarkIs(UpdatedMetadata(current, update, now).value, current, update, now);
    if createReadonly && WillBeMarked(current, update) {
      ReadonlyNodeIs(e, child);
    }
  }

  // ---- Several entries ----------------------------------------------------

  /** The last entry for a name, at `i`. */
  ghost predicate IsLast(e: Env, entries: seq<Entry>, name: string, i: nat) {
    && i < |entries| && e.normalize(entries[i].namex) == name
    && forall j :: i < j < |entries| ==> e.normalize(entries[j].namex) != name
  }

  /** The metadata of the last entry for a name that gives any. */
  function LastUpdate(e: Env, entries: seq<Entry>, name: string): Option<Metadata> {
    if entries == [] then None
    else Later(if e.normalize(entries[0].namex) == name then entries[0].metadata else None, LastUpdate(e, entries[1..], name))
  }

  lemma {:induction false} NoUpdate(e: Env, entries: seq<Entry>, name: string)
    requires name !in Named(e, entries)
    ensures LastUpdate(e, entries, name) == None
  {
    hide Named;
    if entries != [] {
      NamedStep(e, entries);
      NoUpdate(e, entries[1..], name);
    }
  }

  /** If the last entry for a name gives metadata, that is the one that counts. */
  lemma {:induction false} LastUpdateIs(e: Env, entries: seq<Entry>, name: string, i: nat)
    requires IsLast(e, entries, name, i)
    ensures entries[i].metadata.Some? ==> LastUpdate(e, entries, name) == entries[i].metadata
  {
    if i > 0 {
      LastUpdateIs(e, entries[1..], name, i - 1);
    } else {
      LastIsOnly(e, entries, name);
      NoUpdate(e, entries[1..], name);
    }
  }

  lemma LastIsOnly(e: Env, entries: seq<Entry>, name: string)
    requires IsLast(e, entries, name, 0)
    ensures name !in Named(e, entries[1..])
  {
    var rest := entries[1..];
    forall j | 0 <= j < |rest|
      ensures e.normalize(rest[j].namex) != name
    {
      assert rest[j] == entries[j + 1];
    }
  }

  function MetadataAt(children: Children, name: string): Option<Metadata> {
    if name in children then Some(children[name].metadata) else None
  }

  lemma {:induction false} WithEntriesLink(e: Env, o: AddOptions, now: Json, children: Children, entries: seq<Entry>, name: string, i: nat)
    requires Laws(e.caps) && EntriesMade(e, entries) && WithEntries(e, o, now, children, entries).Ok? && IsLast(e, entries, name, i)
    ensures var next := WithEntries(e, o, now, children, entries).value;
      name in next && IsLinkTo(e, o.createReadonly, now, MetadataAt(children, name), LastUpdate(e, entries, name), entries[i].child, next[name])
    decreases |entries|
  {
    hide NewLink, IsMade, Laws, IsUpdated, WillBeMarked, LinkedNode;
    var first := e.normalize(entries[0].namex);
    var mid := WithEntry(e, o, now, children, entries[0]).value;
    var next := WithEntries(e, o, now, children, entries).value;
    WithEntryFrame(e, o, now, children, entries[0]);
    NewLinkIs(e, o.createReadonly, now, MetadataAt(children, first), entries[0].metadata, entries[0].child);
    if i == 0 {
      LastIsOnly(e, entries, name);
      NoUpdate(e, entries[1..], name);
      WithEntriesFrame(e, o, now, mid, entries[1..]);
    } else {
      WithEntriesLink(e, o, now, mid, entries[1..], name, i - 1);
      if first == name {
        LinkedTwice(e, o.createReadonly, now, MetadataAt(children, name), entries[0].metadata, mid[name].metadata,
                    LastUpdate(e, entries[1..], name), entries[i].child, next[name]);
      }
    }
  }

  lemma LinkedTwice(e: Env, createReadonly: bool, now: Json, current: Option<Metadata>, first: Option<Metadata>, m: Metadata,
                    second: Option<Metadata>, child: Node, link: Slot)
    requires IsUpdated(m, current, first, now) && IsLinkTo(e, createReadonly, now, Some(m), second, child, link)
    ensures IsLinkTo(e, createReadonly, now, current, Later(first, second), child, link)
  {
    hide IsUpdated, WillBeMarked, LinkedNode;
    UpdatedTwice(current, first, m, second, link.metadata, now);
    MarkIs(link.metadata, Some(m), second, now);
    MarkIs(link.metadata, current, Later(first, second), now);
  }

  // ---- What is read afterwards --------------------------------------------

  /**
   * What the writer reads under `name`: nothing if the linked node is not kept,
   * else the updated metadata and what is stored for the node, which is the node
   * itself if it survives storing.
   */
  ghost predicate ReadsAs(e: Env, writekey: Bytes, createReadonly: bool, now: Json, current: Option<Metadata>, update: Option<Metadata>,
                          child: Node, after: Children, name: string)
  {
    var node := LinkedNode(e, createReadonly && WillBeMarked(current, update), child);
    && (name in after <==> LinkKept(e.caps, node))
    && (name in after ==>
          && IsUpdated(after[name].metadata, current, update, now)
          && HasUris(node) && after[name].node == StoredNode(e, Writer(writekey), false, node)
          && (SurvivesInMutable(e, node) ==> after[name].node == node))
  }

  lemma LinkReads(e: Env, writekey: Bytes, createReadonly: bool, now: Json, current: Option<Metadata>, update: Option<Metadata>,
                  child: Node, after: Children, name: string, link: Slot)
    requires IsLinkTo(e, createReadonly, now, current, update, child, link) && link.raw == None
    requires LinkMade(e, createReadonly, after, name, link)
    requires name in after ==> Written(e, writekey, name, link) == Some(after[name])
    ensures ReadsAs(e, writekey, createReadonly, now, current, update, child, after, name)
  {
    hide LinkedNode, WillBeMarked, IsUpdated, LinkKept, SurvivesInMutable, StoredNode, FreshEntry;
  }

  /**
   * After `set_metadata_for` the link reads with the metadata given, or its old
   * one, with its old creation time and modified now. It leads where it led
   * before, or only to the read form of that if it is marked "no-write".
   */
  lemma DescribedLink(e: Env, writekey: Bytes, namex: string, metadata: Option<Metadata>, createReadonly: bool, now: Json, contents: Bytes)
    requires EnvLaws(e)
    requires MetadataSet(e, writekey, e.normalize(namex), metadata, createReadonly, now, contents).NewContents?
    ensures
      var name := e.normalize(namex);
      var before := Unpacked(e, Writer(writekey), contents).value;
      var after := Unpacked(e, Writer(writekey), MetadataSet(e, writekey, name, metadata, createReadonly, now, contents).contents);
      && name in before && after.Some?
      && ReadsAs(e, writekey, createReadonly, now, Some(before[name].metadata), metadata, before[name].node, after.value, name)
  {
    assert Laws(e.caps);
    hide Unpacked, Packed, NewLink, Written, EnvLaws, Laws, LinkMade, ReadFrom, IsMade, ReadsAs, IsLinkTo;
    var name := e.normalize(namex);
    var before := Unpacked(e, Writer(writekey), contents).value;
    var slot := before[name];
    SetMetadataRefines(e, writekey, namex, metadata, createReadonly, now, contents);
    var after := Unpacked(e, Writer(writekey), MetadataSet(e, writekey, name, metadata, createReadonly, now, contents).contents).value;
    ReadChildren(e, Writer(writekey), contents);
    ReadIsMade(e, Writer(writekey), name, slot);
    NewLinkIs(e, createReadonly, now, Some(slot.metadata), metadata, slot.node);
    NewLinkIsFresh(e, createReadonly, now, Some(slot.metadata), metadata, slot.node);
    LinkReads(e, writekey, createReadonly, now, Some(slot.metadata), metadata, slot.node, after, name,
              NewLink(e, createReadonly, now, Some(slot.metadata), metadata, slot.node).value);
  }

  /**
   * After adding, the link under each name given leads to the child of the last
   * entry for that name, or to its read form if it is marked "no-write", with the
   * metadata of the last entry that gives any, or the old metadata, with the old
   * creation time and modified now.
   */
  lemma AddedLink(e: Env, writekey: Bytes, o: AddOptions, now: Json, entries: seq<Entry>, contents: Bytes, name: string, i: nat)
    requires EnvLaws(e) && EntriesMade(e, entries) && IsLast(e, entries, name, i)
    requires Added(e, writekey, o, now, entries, contents).NewContents?
    ensures
      var before := Unpacked(e, Writer(writekey), contents).value;
      var after := Unpacked(e, Writer(writekey), Added(e, writekey, o, now, entries, contents).contents);
      && after.Some?
      && ReadsAs(e, writekey, o.createReadonly, now, MetadataAt(before, name), LastUpdate(e, entries, name), entries[i].child, after.value, name)
  {
    assert Laws(e.caps);
    hide Unpacked, Packed, WithEntries, Written, EnvLaws, Laws, LinkMade, IsMade, ReadsAs, IsLinkTo, EntriesMade;
    var before := Unpacked(e, Writer(writekey), contents).value;
    var next := WithEntries(e, o, now, before, entries).value;
    AddRefines(e, writekey, o, now, entries, contents);
    var after := Unpacked(e, Writer(writekey), Added(e, writekey, o, now, entries, contents).contents).value;
    assert name in Named(e, entries);
    WithEntriesFrame(e, o, now, before, entries);
    WithEntriesLink(e, o, now, before, entries, name, i);
    LinkReads(e, writekey, o.createReadonly, now, MetadataAt(before, name), LastUpdate(e, entries, name), entries[i].child, after, name, next[name]);
  }

  // ---- Refusals -----------------------------------------------------------

  /** Why one entry is refused: its child records an error, or the name is taken and may not be replaced. */
  lemma EntryRefused(e: Env, o: AddOptions, now: Json, children: Children, entry: Entry)
    requires HasUris(entry.child)
    ensures
      var r := WithEntry(e, o, now, children, entry);
      var name := e.normalize(entry.namex);
      && (NodeError(entry.child).Some? ==> r == Err(BadChild(NodeError(entry.child).value)))
      && (r == Err(ExistingChild) <==>
            && NodeError(entry.child).None? && name in children
            && (o.overwrite.Never? || (o.overwrite.OnlyFiles? && IsDirectoryNode(children[name].node))))
  {
    hide UpdatedMetadata, NodeFor, ToString;
  }

  /** A batch stops at its first refused entry, and with that entry's error nothing is written. */
  lemma {:induction false} BatchRefused(e: Env, o: AddOptions, now: Json, children: Children, entries: seq<Entry>) returns (i: nat)
    requires WithEntries(e, o, now, children, entries).Err?
    ensures i < |entries| && WithEntries(e, o, now, children, entries[..i]).Ok?
    ensures
      var soFar := WithEntries(e, o, now, children, entries[..i]).value;
      WithEntry(e, o, now, soFar, entries[i]) == Err(WithEntries(e, o, now, children, entries).error)
    decreases |entries|
  {
    hide WithEntry;
    if WithEntry(e, o, now, children, entries[0]).Err? {
      i := 0;
    } else {
      var mid := WithEntry(e, o, now, children, entries[0]).value;
      var k := BatchRefused(e, o, now, mid, entries[1..]);
      i := k + 1;
      assert entries[..i][1..] == entries[1..][..k] && entries[..i][0] == entries[0];
    }
  }
}
