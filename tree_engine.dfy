/** The read-only tree engine: the four FUSE handlers of `GitFilesystem`, as
    functions of the object store and the identity table. Handlers that intern
    children return the new table beside their reply. */
module TreeEngine {
  import opened Objects
  import opened InodeTable
  import opened Fuse

  /** Outcome of resolving an inode and loading its object. */
  datatype Fetch<T> = Fetched(value: T) | NotFound | Underflow

  /** get_tree: the entries of the tree bound to `ino`. */
  function GetTree(store: Store, t: Table, ino: nat): (r: Fetch<seq<TreeEntry>>)
    ensures r.Underflow? <==> ino == 0
    ensures r.Fetched? <==>
      1 <= ino <= |t.forward| && t.forward[ino - 1] in store && store[t.forward[ino - 1]].Tree?
    ensures r.Fetched? ==> store[t.forward[ino - 1]] == Tree(r.value)
  {
    if ino == 0 then Underflow
    else match t.Forward(ino)
      case None => NotFound
      case Some(oid) =>
        match FindTree(store, oid)
        case None => NotFound
        case Some(entries) => Fetched(entries)
  }

  /** get_obj: the object, of any kind, bound to `ino`. */
  function GetObj(store: Store, t: Table, ino: nat): (r: Fetch<Object>)
    ensures r.Underflow? <==> ino == 0
    ensures r.Fetched? <==> 1 <= ino <= |t.forward| && t.forward[ino - 1] in store
    ensures r.Fetched? ==> store[t.forward[ino - 1]] == r.value
  {
    if ino == 0 then Underflow
    else match t.Forward(ino)
      case None => NotFound
      case Some(oid) =>
        match FindObject(store, oid)
        case None => NotFound
        case Some(obj) => Fetched(obj)
  }

  /** The file type a tree entry's declared kind maps to. */
  function EntryFileType(kind: ObjectType): (r: Option<FileType>)
    ensures r == Some(Directory) <==> kind == TreeType
    ensures r == Some(RegularFile) <==> kind == BlobType
    ensures r.None? <==> kind == OtherType
  {
    match kind
    case TreeType => Some(Directory)
    case BlobType => Some(RegularFile)
    case OtherType => None
  }

  datatype Info = Info(table: Table, ino: nat, kind: FileType, name: string)

  /** get_tree_entry_info: the entry's file type, then its interned inode.
      An unsupported kind fails before anything is interned. */
  function GetTreeEntryInfo(t: Table, entry: TreeEntry): (r: Option<Info>)
    ensures r.None? <==> entry.kind == OtherType
    ensures r.Some? ==>
      && Extends(t, r.value.table)
      && entry.id in r.value.table.reverse
      && r.value.table.reverse[entry.id] == r.value.ino
      && EntryFileType(entry.kind) == Some(r.value.kind)
      && r.value.name == entry.name
      && (r.value.table, r.value.ino) == t.Intern(entry.id)
      && (t.Valid() ==> r.value.table.Valid() && r.value.table.Forward(r.value.ino) == Some(entry.id))
  {
    match EntryFileType(entry.kind)
    case None => None
    case Some(kind) =>
      var (table, ino) := t.Intern(entry.id);
      Some(Info(table, ino, kind, entry.name))
  }

  /** The synthetic attribute record of a node of the given type and size. */
  function MakeAttr(ino: nat, kind: FileType, size: nat): FileAttr
  {
    FileAttr(
      ino := ino,
      size := size,
      blocks := (size + 4095) / 4096,
      atime := CREATE_TIME,
      mtime := CREATE_TIME,
      ctime := CREATE_TIME,
      crtime := CREATE_TIME,
      kind := kind,
      perm := PERM,
      nlink := NLINK,
      uid := OWNER,
      gid := OWNER,
      rdev := 0,
      flags := 0)
  }

  /** The metadata every node shares, whatever its object. */
  predicate Synthetic(a: FileAttr) {
    && a.atime == CREATE_TIME && a.mtime == CREATE_TIME
    && a.ctime == CREATE_TIME && a.crtime == CREATE_TIME
    && a.perm == PERM && a.nlink == NLINK && a.uid == OWNER && a.gid == OWNER
    && a.rdev == 0 && a.flags == 0
  }

  /** Attribute synthesis shared by lookup and getattr: a blob is a regular
      file of its content's length, a tree an empty directory, and any other
      object has no attributes. */
  function AttrOf(ino: nat, obj: Object): (r: Option<FileAttr>)
    ensures r.None? <==> obj.Other?
    ensures r.Some? ==> r.value.ino == ino && Synthetic(r.value)
    ensures r.Some? ==> (r.value.kind == RegularFile <==> obj.Blob?)
    ensures obj.Blob? ==> r.value.size == |obj.content|
    ensures obj.Tree? ==> r.value.size == 0 && r.value.blocks == 0
    ensures r.Some? ==>
      r.value.blocks * 4096 >= r.value.size > (r.value.blocks - 1) * 4096
      || r.value.size == r.value.blocks == 0
  {
    match obj
    case Blob(content) => Some(MakeAttr(ino, RegularFile, |content|))
    case Tree(_) => Some(MakeAttr(ino, Directory, 0))
    case Other => None
  }

  /** The index of the first entry called `name`, scanning in tree order. */
  function FindEntry(entries: seq<TreeEntry>, name: string): (r: Option<nat>)
    ensures r.Some? ==>
      && r.value < |entries|
      && entries[r.value].name == name
      && forall j :: 0 <= j < r.value ==> entries[j].name != name
    ensures r.None? ==> forall j :: 0 <= j < |entries| ==> entries[j].name != name
  {
    if entries == [] then None
    else if entries[0].name == name then Some(0)
    else match FindEntry(entries[1..], name)
      case None => None
      case Some(i) => Some(i + 1)
  }

  /** lookup's answer for the entry whose name matched: its file type, its
      interned inode, then the attributes of the object it names. */
  function LookupEntry(store: Store, t: Table, entry: TreeEntry): (r: (Reply, Table))
    ensures Extends(t, r.1)
    ensures t.Valid() ==> r.1.Valid()
    ensures r.0.EntryReply? || r.0.Panic?
    ensures r.0.EntryReply? ==>
      && r.0.ttl == TTL && r.0.generation == 0
      && entry.id in r.1.reverse && r.1.reverse[entry.id] == r.0.attr.ino
      && entry.id in store
      && AttrOf(r.0.attr.ino, store[entry.id]) == Some(r.0.attr)
    ensures entry.kind == OtherType ==> r == (Panic(UnexpectedEntryType), t)
    ensures entry.kind != OtherType && entry.id !in store ==> r.0 == Panic(ObjectMissing)
    ensures entry.kind != OtherType && entry.id in store && store[entry.id].Other? ==>
      r.0 == Panic(UnexpectedObjectType)
  {
    match GetTreeEntryInfo(t, entry)
    case None => (Panic(UnexpectedEntryType), t)
    case Some(info) =>
      match FindObject(store, entry.id)
      case None => (Panic(ObjectMissing), info.table)
      case Some(obj) =>
        match AttrOf(info.ino, obj)
        case None => (Panic(UnexpectedObjectType), info.table)
        case Some(attr) => (EntryReply(TTL, attr, 0), info.table)
  }

  /** lookup(parent, name): the first entry of the parent tree with exactly
      that name, or ENOENT. */
  function Lookup(store: Store, t: Table, parent: nat, name: string): (r: (Reply, Table))
    ensures Extends(t, r.1)
    ensures t.Valid() ==> r.1.Valid()
    ensures r.0.EntryReply? || r.0 == ErrorReply(ENOENT) || r.0.Panic?
    ensures r.0.ErrorReply? ==> r.1 == t
    ensures parent == 0 ==> r == (Panic(InodeUnderflow), t)
  {
    match GetTree(store, t, parent)
    case Underflow => (Panic(InodeUnderflow), t)
    case NotFound => (ErrorReply(ENOENT), t)
    case Fetched(entries) =>
      match FindEntry(entries, name)
      case None => (ErrorReply(ENOENT), t)
      case Some(i) => LookupEntry(store, t, entries[i])
  }

  /** getattr(ino): never changes the table. */
  function GetAttr(store: Store, t: Table, ino: nat): (r: Reply)
    ensures r.AttrReply? || r.Panic?
    ensures r.AttrReply? ==>
      && 1 <= ino <= |t.forward|
      && t.forward[ino - 1] in store
      && r.ttl == TTL
      && AttrOf(ino, store[t.forward[ino - 1]]) == Some(r.attr)
    ensures (ino == 0 || ino > |t.forward|) ==> r.Panic?
  {
    match GetObj(store, t, ino)
    case Underflow => Panic(InodeUnderflow)
    case NotFound => Panic(ObjectNotFound)
    case Fetched(obj) =>
      match AttrOf(ino, obj)
      case None => Panic(UnexpectedObjectType)
      case Some(attr) => AttrReply(TTL, attr)
  }

  /** read(ino, offset, size) exactly as the source slices: a range that runs
      past the end of the blob aborts. */
  function ReadAsWritten(store: Store, t: Table, ino: nat, offset: nat, size: nat): (r: Reply)
    ensures r.DataReply? || r.Panic?
    ensures r.DataReply? ==>
      && GetObj(store, t, ino).Fetched? && GetObj(store, t, ino).value.Blob?
      && offset + size <= |GetObj(store, t, ino).value.content|
      && |r.data| == size
      && forall j :: 0 <= j < size ==> r.data[j] == GetObj(store, t, ino).value.content[offset + j]
  {
    match GetObj(store, t, ino)
    case Underflow => Panic(InodeUnderflow)
    case NotFound => Panic(ObjectNotFound)
    case Fetched(obj) =>
      if !obj.Blob? then Panic(UnexpectedObjectType)
      else if offset + size <= |obj.content| then DataReply(obj.content[offset .. offset + size])
      else Panic(SliceOutOfRange)
  }

  function Min(a: nat, b: nat): nat { if a <= b then a else b }

  /** read(ino, offset, size) with the range clamped to the blob: a read at or
      past the end returns nothing, a read across the end returns the tail. */
  function Read(store: Store, t: Table, ino: nat, offset: nat, size: nat): (r: Reply)
    ensures r.DataReply? || r.Panic?
    ensures r.DataReply? <==> GetObj(store, t, ino).Fetched? && GetObj(store, t, ino).value.Blob?
    ensures r.DataReply? ==>
      var content := GetObj(store, t, ino).value.content;
      && |r.data| == (if offset >= |content| then 0 else Min(size, |content| - offset))
      && forall j :: 0 <= j < |r.data| ==> r.data[j] == content[offset + j]
  {
    match GetObj(store, t, ino)
    case Underflow => Panic(InodeUnderflow)
    case NotFound => Panic(ObjectNotFound)
    case Fetched(obj) =>
      if !obj.Blob? then Panic(UnexpectedObjectType)
      else
        var len := |obj.content|;
        DataReply(obj.content[Min(offset, len) .. Min(offset + size, len)])
  }

  /** Progress of the readdir loop over a tree's entries: the table after
      interning, the entries emitted so far, and whether an entry of an
      unsupported kind stopped it. */
  datatype Scan = Scan(table: Table, listed: seq<DirEntry>, aborted: bool)

  /** The readdir loop over `entries`, entry `i` listed at cursor `i + 2`. */
  function ListChildren(t: Table, entries: seq<TreeEntry>): (r: Scan)
    decreases |entries|
    ensures Extends(t, r.table)
    ensures t.Valid() ==> r.table.Valid()
    ensures r.aborted <==> exists i :: 0 <= i < |entries| && entries[i].kind == OtherType
    ensures !r.aborted ==>
      && |r.listed| == |entries|
      && forall i :: 0 <= i < |entries| ==>
        && entries[i].id in r.table.reverse
        && r.listed[i].ino == r.table.reverse[entries[i].id]
        && r.listed[i].offset == i + 2
        && EntryFileType(entries[i].kind) == Some(r.listed[i].kind)
        && r.listed[i].name == entries[i].name
  {
    if entries == [] then Scan(t, [], false)
    else
      var n := |entries| - 1;
      var prev := ListChildren(t, entries[..n]);
      if prev.aborted then prev
      else match GetTreeEntryInfo(prev.table, entries[n])
        case None => prev.(aborted := true)
        case Some(info) =>
          Scan(info.table, prev.listed + [DirEntry(info.ino, n + 2, info.kind, info.name)], false)
  }

  /** The "." and ".." entries every listing starts with, both bound to the
      mount root. */
  const DOTS: seq<DirEntry> :=
    [DirEntry(ROOT_INO, 0, Directory, "."), DirEntry(ROOT_INO, 1, Directory, "..")]

  /** readdir on a resolved tree: cursor 0 lists everything, cursor n + 1
      ends the listing, any other cursor is a protocol error. */
  function ReaddirTree(t: Table, entries: seq<TreeEntry>, offset: nat): (r: (Reply, Table))
    ensures Extends(t, r.1)
    ensures t.Valid() ==> r.1.Valid()
    ensures r.0.DirReply? || r.0.Panic?
    ensures offset != 0 ==> r.1 == t
  {
    if offset != 0 && offset != |entries| + 1 then (Panic(UnexpectedOffset), t)
    else if offset == 0 then
      var scan := ListChildren(t, entries);
      if scan.aborted then (Panic(UnexpectedEntryType), scan.table)
      else (DirReply(DOTS + scan.listed), scan.table)
    else (DirReply([]), t)
  }

  /** readdir(ino, offset): ENOENT unless `ino` is a loadable tree. */
  function Readdir(store: Store, t: Table, ino: nat, offset: nat): (r: (Reply, Table))
    ensures Extends(t, r.1)
    ensures t.Valid() ==> r.1.Valid()
    ensures r.0.DirReply? || r.0 == ErrorReply(ENOENT) || r.0.Panic?
    ensures offset != 0 ==> r.1 == t
    ensures ino == 0 ==> r == (Panic(InodeUnderflow), t)
  {
    match GetTree(store, t, ino)
    case Underflow => (Panic(InodeUnderflow), t)
    case NotFound => (ErrorReply(ENOENT), t)
    case Fetched(entries) => ReaddirTree(t, entries, offset)
  }
}
