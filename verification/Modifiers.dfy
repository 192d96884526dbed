/** The byte-level directory modifiers: delete a link, set its metadata, add links. */
module Modifiers {
  import opened Basics
  import opened Caps
  import opened Nodes
  import opened Directory

  datatype ModifyError = NoSuchChild | ExistingChild | WrongType | BadChild(error: CapError) | Crashed

  datatype Result<+T> = Ok(value: T) | Err(error: ModifyError)

  /** What a modifier hands back: nothing to do, new contents, or the exception it raised. */
  datatype Modified = NoChange | NewContents(contents: Bytes) | Raised(error: ModifyError)

  function Repacked(packed: Option<Bytes>): Modified {
    match packed
    case None => Raised(Crashed)
    case Some(contents) => NewContents(contents)
  }

  // ---- Metadata -----------------------------------------------------------

  const TAHOE: string := "tahoe"
  const CTIME: string := "ctime"
  const LINKCRTIME: string := "linkcrtime"
  const LINKMOTIME: string := "linkmotime"
  const NO_WRITE: string := "no-write"

  /** `update_metadata`; None if the system metadata is not a dictionary. */
  function UpdatedMetadata(metadata: Option<Metadata>, newMetadata: Option<Metadata>, now: Json): Option<Metadata> {
    var before := if metadata.Some? then metadata.value else map[];
    var user :=
      if newMetadata.None? then before
      else (newMetadata.value - {TAHOE}) + (map k | k in before && k == TAHOE :: before[k]);
    if TAHOE in user && !user[TAHOE].Obj? then None
    else
      var sysmd := if TAHOE in user then user[TAHOE].fields else map[];
      var created := if LINKCRTIME in sysmd then sysmd[LINKCRTIME]
                     else if CTIME in before && !before[CTIME].Null? then before[CTIME]
                     else now;
      Some(user[TAHOE := Obj(sysmd[LINKCRTIME := created][LINKMOTIME := now])])
  }

  predicate Truthy(j: Json) {
    match j
    case Null => false
    case Bool(b) => b
    case Int(n) => n != 0
    case Float(x) => x.exponent != 0 || x.mantissa != 0
    case Str(s) => s != ""
    case Arr(items) => items != []
    case Obj(fields) => fields != map[]
  }

  // ---- One link -----------------------------------------------------------

  /** `_create_readonly_node` of a writeable directory. */
  function ReadonlyNode(e: Env, node: Node): Result<Node> {
    if !HasUris(node) then Err(Crashed)
    else if !node.Unknown? && IsReadonly(node.cap) then Ok(node)
    else
      var n := NodeFor(e.caps, e.blacklist, None, ReadUri(e.caps, node), false);
      if NodeError(n).Some? then Err(BadChild(NodeError(n).value)) else Ok(n)
  }

  /** The link a child and its metadata make, as not yet packed. */
  function NewLink(e: Env, createReadonly: bool, now: Json, current: Option<Metadata>, update: Option<Metadata>, child: Node): Result<Slot> {
    match UpdatedMetadata(current, update, now)
    case None => Err(Crashed)
    case Some(metadata) =>
      if createReadonly && NO_WRITE in metadata && Truthy(metadata[NO_WRITE]) then
        match ReadonlyNode(e, child)
        case Err(error) => Err(error)
        case Ok(n) => Ok(Slot(n, metadata, None))
      else Ok(Slot(child, metadata, None))
  }

  // ---- Deleting -----------------------------------------------------------

  datatype DeleteOptions = DeleteOptions(mustExist: bool, mustBeDirectory: bool, mustBeFile: bool)

  ghost function Deleted(e: Env, writekey: Bytes, name: string, o: DeleteOptions, contents: Bytes, firstTime: bool): Modified {
    match Unpacked(e, Writer(writekey), contents)
    case None => Raised(Crashed)
    case Some(children) =>
      if name !in children then
        if firstTime && o.mustExist then Raised(NoSuchChild) else NoChange
      else if o.mustBeDirectory && IsFileNode(children[name].node) then Raised(WrongType)
      else if o.mustBeFile && IsDirectoryNode(children[name].node) then Raised(WrongType)
      else Repacked(Packed(e, Some(writekey), false, children - {name}))
  }

  class Deleter {
    const e: Env
    const writekey: Bytes
    const name: string
    const options: DeleteOptions
    var oldChild: Option<Node>

    constructor (e: Env, writekey: Bytes, namex: string, options: DeleteOptions)
      ensures this.e == e && this.writekey == writekey && this.options == options && name == e.normalize(namex)
      ensures oldChild == None
    {
      this.e, this.writekey, this.options := e, writekey, options;
      name := e.normalize(namex);
      oldChild := None;
    }

    /** A second call on contents that lost the link in between is not an error. */
    method Modify(oldContents: Bytes, firstTime: bool) returns (r: Modified)
      modifies this`oldChild
      ensures r == Deleted(e, writekey, name, options, oldContents, firstTime)
      ensures r.NewContents? ==>
        oldChild == Some(Unpacked(e, Writer(writekey), oldContents).value[name].node)
      ensures r.NoChange? ==> oldChild == None
    {
      hide UnpackFrom, PackNames;
      var children := UnpackContents(e, Writer(writekey), oldContents);
      if children.None? {
        return Raised(Crashed);
      }
      var d := children.value;
      if name !in d.main {
        if firstTime && options.mustExist {
          return Raised(NoSuchChild);
        }
        oldChild := None;
        return NoChange;
      }
      oldChild := Some(d.main[name].0);
      if options.mustBeDirectory && IsFileNode(d.main[name].0) {
        return Raised(WrongType);
      }
      if options.mustBeFile && IsDirectoryNode(d.main[name].0) {
        return Raised(WrongType);
      }
      d.DelItem(name);
      var packed := PackNormalizedChildren(e, Some(writekey), false, d);
      return Repacked(packed);
    }
  }

  // ---- Setting metadata ---------------------------------------------------

  ghost function MetadataSet(e: Env, writekey: Bytes, name: string, metadata: Option<Metadata>, createReadonly: bool,
                             now: Json, contents: Bytes): Modified
  {
    match Unpacked(e, Writer(writekey), contents)
    case None => Raised(Crashed)
    case Some(children) =>
      if name !in children then Raised(NoSuchChild)
      else
        match NewLink(e, createReadonly, now, Some(children[name].metadata), metadata, children[name].node)
        case Err(error) => Raised(error)
        case Ok(slot) => Repacked(Packed(e, Some(writekey), false, children[name := slot]))
  }

  /** `MetadataSetter.modify` at time `now`. */
  method SetMetadata(e: Env, writekey: Bytes, namex: string, metadata: Option<Metadata>, createReadonly: bool,
                     now: Json, oldContents: Bytes)
      returns (r: Modified)
    ensures r == MetadataSet(e, writekey, e.normalize(namex), metadata, createReadonly, now, oldContents)
  {
    hide UnpackFrom, PackNames, NewLink;
    var name := e.normalize(namex);
    var children := UnpackContents(e, Writer(writekey), oldContents);
    if children.None? {
      return Raised(Crashed);
    }
    var d := children.value;
    if name !in d.main {
      return Raised(NoSuchChild);
    }
    var link := NewLink(e, createReadonly, now, Some(d.main[name].1), metadata, d.main[name].0);
    match link
    case Err(error) => return Raised(error);
    case Ok(slot) =>
      NewLinkIsFresh(e, createReadonly, now, Some(d.main[name].1), metadata, d.main[name].0);
      d.SetItem(name, slot.node, slot.metadata);
      var packed := PackNormalizedChildren(e, Some(writekey), false, d);
      return Repacked(packed);
  }

  lemma NewLinkIsFresh(e: Env, createReadonly: bool, now: Json, current: Option<Metadata>, update: Option<Metadata>, child: Node)
    ensures var link := NewLink(e, createReadonly, now, current, update, child); link.Ok? ==> link.value.raw == None
  {
    hide UpdatedMetadata, ReadonlyNode;
  }

  // ---- Adding -------------------------------------------------------------

  datatype Overwrite = Always | Never | OnlyFiles

  datatype Entry = Entry(namex: string, child: Node, metadata: Option<Metadata>)

  datatype AddOptions = AddOptions(overwrite: Overwrite, createReadonly: bool)

  /** The dictionary after one more entry. */
  function WithEntry(e: Env, o: AddOptions, now: Json, children: Children, entry: Entry): Result<Children> {
    var name := e.normalize(entry.namex);
    if !HasUris(entry.child) then Err(Crashed)
    else if NodeError(entry.child).Some? then Err(BadChild(NodeError(entry.child).value))
    else if name in children && o.overwrite.Never? then Err(ExistingChild)
    else if name in children && o.overwrite.OnlyFiles? && IsDirectoryNode(children[name].node) then Err(ExistingChild)
    else
      var current := if name in children then Some(children[name].metadata) else None;
      match NewLink(e, o.createReadonly, now, current, entry.metadata, entry.child)
      case Err(error) => Err(error)
      case Ok(slot) => Ok(children[name := slot])
  }

  function WithEntries(e: Env, o: AddOptions, now: Json, children: Children, entries: seq<Entry>): Result<Children>
    decreases |entries|
  {
    if entries == [] then Ok(children)
    else
      match WithEntry(e, o, now, children, entries[0])
      case Err(error) => Err(error)
      case Ok(next) => WithEntries(e, o, now, next, entries[1..])
  }

  ghost function Added(e: Env, writekey: Bytes, o: AddOptions, now: Json, entries: seq<Entry>, contents: Bytes): Modified {
    match Unpacked(e, Writer(writekey), contents)
    case None => Raised(Crashed)
    case Some(children) =>
      match WithEntries(e, o, now, children, entries)
      case Err(error) => Raised(error)
      case Ok(next) => Repacked(Packed(e, Some(writekey), false, next))
  }

  /** `Adder.modify` at time `now`. */
  method Add(e: Env, writekey: Bytes, o: AddOptions, now: Json, entries: seq<Entry>, oldContents: Bytes) returns (r: Modified)
    ensures r == Added(e, writekey, o, now, entries, oldContents)
  {
    hide UnpackFrom, PackNames, WithEntry, NewLink;
    var children := UnpackContents(e, Writer(writekey), oldContents);
    if children.None? {
      return Raised(Crashed);
    }
    var d := children.value;
    ghost var start := d.Contents();
    var i := 0;
    while i < |entries|
      invariant 0 <= i <= |entries|
      invariant d.Valid() && fresh(d)
      invariant WithEntries(e, o, now, start, entries) == WithEntries(e, o, now, d.Contents(), entries[i..])
    {
      var r1 := AddOne(e, o, now, d, entries[i]);
      assert entries[i..][1..] == entries[i + 1..];
      if r1.Err? {
        return Raised(r1.error);
      }
      i := i + 1;
    }
    var packed := PackNormalizedChildren(e, Some(writekey), false, d);
    return Repacked(packed);
  }

  /** One turn of the loop of `Adder.modify`. */
  method AddOne(e: Env, o: AddOptions, now: Json, d: AuxValueDict, entry: Entry) returns (r: Result<()>)
    requires d.Valid()
    modifies d
    ensures d.Valid()
    ensures match WithEntry(e, o, now, old(d.Contents()), entry)
      case Err(error) => r == Err(error)
      case Ok(next) => r.Ok? && d.Contents() == next
  {
    hide NewLink;
    var name := e.normalize(entry.namex);
    if !HasUris(entry.child) {
      return Err(Crashed);
    }
    if NodeError(entry.child).Some? {
      return Err(BadChild(NodeError(entry.child).value));
    }
    var current := None;
    if name in d.main {
      if o.overwrite.Never? {
        return Err(ExistingChild);
      }
      if o.overwrite.OnlyFiles? && IsDirectoryNode(d.main[name].0) {
        return Err(ExistingChild);
      }
      current := Some(d.main[name].1);
    }
    var link := NewLink(e, o.createReadonly, now, current, entry.metadata, entry.child);
    match link
    case Err(error) => return Err(error);
    case Ok(slot) =>
      NewLinkIsFresh(e, o.createReadonly, now, current, entry.metadata, entry.child);
      d.SetItem(name, slot.node, slot.metadata);
      return Ok(());
  }
}
