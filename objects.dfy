/** The content-addressed object store that the filesystem serves: one immutable
    snapshot of a git repository, seen as a map from object ids to objects.
    The store is never written; a missing id is an explicit "not found". */
module Objects {

  datatype Option<+T> = None | Some(value: T)

  /** A git object id: the bytes of a content hash. Only equality is used. */
  datatype Oid = Oid(hash: seq<bv8>)

  /** The kind a tree entry declares for its child. Git trees can also name
      commits (submodules) or kinds the library cannot read: `OtherType`. */
  datatype ObjectType = TreeType | BlobType | OtherType

  datatype TreeEntry = TreeEntry(id: Oid, kind: ObjectType, name: string)

  /** A stored object: a directory listing in git's native order, raw file
      content, or any other kind of object (commit, tag). */
  datatype Object =
    | Tree(entries: seq<TreeEntry>)
    | Blob(content: seq<bv8>)
    | Other

  type Store = map<Oid, Object>

  /** Repository::find_object: the object stored under `id`, if any. */
  function FindObject(store: Store, id: Oid): Option<Object>
  {
    if id in store then Some(store[id]) else None
  }

  /** Repository::find_tree: fails when `id` is missing or is not a tree. */
  function FindTree(store: Store, id: Oid): Option<seq<TreeEntry>>
  {
    if id in store && store[id].Tree? then Some(store[id].entries) else None
  }
}
