/** The replies the filesystem hands back to the FUSE bridge, as values. */
module Fuse {

  datatype FileType = Directory | RegularFile

  datatype Timespec = Timespec(sec: int, nsec: int)

  /** Validity period sent with every entry and attribute reply: one second. */
  const TTL: Timespec := Timespec(1, 0)

  /** The single timestamp every node reports (2013-10-08 08:56). */
  const CREATE_TIME: Timespec := Timespec(1381237736, 0)

  /** Permission bits 0o755. */
  const PERM: nat := 493

  const NLINK: nat := 2
  const OWNER: nat := 99

  /** Linux errno "no such file or directory". */
  const ENOENT: int := 2

  datatype FileAttr = FileAttr(
    ino: nat,
    size: nat,
    blocks: nat,
    atime: Timespec,
    mtime: Timespec,
    ctime: Timespec,
    crtime: Timespec,
    kind: FileType,
    perm: nat,
    nlink: nat,
    uid: nat,
    gid: nat,
    rdev: nat,
    flags: nat)

  /** One `ReplyDirectory::add(ino, offset, kind, name)` call. */
  datatype DirEntry = DirEntry(ino: nat, offset: nat, kind: FileType, name: string)

  /** The places where the handlers abort the whole process. The model turns
      each into a reply of its own instead. */
  datatype PanicSite =
    | InodeUnderflow        // get_forward(0): `k - 1` underflows
    | UnexpectedEntryType   // a tree entry that is neither tree nor blob
    | ObjectMissing         // find_object(entry.id()).unwrap() in lookup
    | UnexpectedObjectType  // an object that is neither tree nor blob
    | ObjectNotFound        // getattr/read on an inode that does not resolve
    | SliceOutOfRange       // read past the end of a blob
    | UnexpectedOffset      // readdir resumed at a cursor other than 0 or n + 1

  datatype Reply =
    | EntryReply(ttl: Timespec, attr: FileAttr, generation: nat)
    | AttrReply(ttl: Timespec, attr: FileAttr)
    | DataReply(data: seq<bv8>)
    | DirReply(entries: seq<DirEntry>)
    | ErrorReply(errno: int)
    | Panic(site: PanicSite)
}
