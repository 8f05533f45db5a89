/** A worked mount: a root tree holding one file "a.txt" whose content is the
    two bytes "hi". */
module Scenarios {
  import opened Objects
  import opened InodeTable
  import opened Fuse
  import opened TreeEngine
  import GitFs
  import EngineProperties

  const RootId: Oid := Oid([0x01])
  const FileId: Oid := Oid([0x02])
  const Hi: seq<bv8> := [0x68, 0x69]

  const Repo: Store := map[
    RootId := Tree([TreeEntry(FileId, BlobType, "a.txt")]),
    FileId := Blob(Hi)]

  /** The table once "a.txt" has been met: the file is inode 2. */
  const Browsed: Table := Table([RootId, FileId], map[RootId := 1, FileId := 2])

  const RootEntries: seq<TreeEntry> := [TreeEntry(FileId, BlobType, "a.txt")]

  /** Meeting "a.txt" for the first time allocates inode 2; afterwards the
      root directory still resolves. */
  lemma FirstContact()
    ensures GetTree(Repo, Mount(RootId), ROOT_INO) == Fetched(RootEntries)
    ensures GetTree(Repo, Browsed, ROOT_INO) == Fetched(RootEntries)
    ensures GetTreeEntryInfo(Mount(RootId), RootEntries[0]) == Some(Info(Browsed, 2, RegularFile, "a.txt"))
    ensures GetTreeEntryInfo(Browsed, RootEntries[0]) == Some(Info(Browsed, 2, RegularFile, "a.txt"))
  {
    assert RootId.hash[0] != FileId.hash[0];
    assert Mount(RootId).Forward(ROOT_INO) == Some(RootId);
    assert FileId !in Mount(RootId).reverse;
    assert [RootId] + [FileId] == [RootId, FileId];
    assert Mount(RootId).Intern(FileId) == (Browsed, 2);
  }

  /** The readdir loop over the root, from either table, ends in `Browsed`
      with "a.txt" at inode 2 and cursor 2. */
  lemma ListOneChild(t: Table)
    requires GetTreeEntryInfo(t, RootEntries[0]) == Some(Info(Browsed, 2, RegularFile, "a.txt"))
    ensures ListChildren(t, RootEntries) == Scan(Browsed, [DirEntry(2, 2, RegularFile, "a.txt")], false)
  {
    assert RootEntries[..0] == [] && RootEntries[..1] == RootEntries;
    assert ListChildren(t, RootEntries[..0]) == Scan(t, [], false);
    EngineProperties.ListChildrenStep(t, RootEntries, 0);
    assert [] + [DirEntry(2, 2, RegularFile, "a.txt")] == [DirEntry(2, 2, RegularFile, "a.txt")];
  }

  /** Proof step only: the dots followed by the one child, as a literal. */
  lemma RootListing()
    ensures DOTS + [DirEntry(2, 2, RegularFile, "a.txt")] == [
      DirEntry(1, 0, Directory, "."),
      DirEntry(1, 1, Directory, ".."),
      DirEntry(2, 2, RegularFile, "a.txt")]
  {
  }

  lemma LookupNewFile()
    ensures var (r, t) := Lookup(Repo, Mount(RootId), ROOT_INO, "a.txt");
      && t == Browsed
      && r.EntryReply?
      && r.attr.ino == 2 && r.attr.kind == RegularFile
      && r.attr.size == 2 && r.attr.blocks == 1
  {
    FirstContact();
    assert FindEntry(RootEntries, "a.txt") == Some(0);
    assert AttrOf(2, Blob(Hi)) == Some(MakeAttr(2, RegularFile, 2));
    assert (2 + 4095) / 4096 == 1;
  }

  lemma LookupMissingName()
    ensures Lookup(Repo, Mount(RootId), ROOT_INO, "missing") == (ErrorReply(ENOENT), Mount(RootId))
  {
    FirstContact();
    assert |"missing"| != |"a.txt"|;
    assert FindEntry(RootEntries, "missing") == None;
  }

  lemma ReadFile()
    ensures Read(Repo, Browsed, 2, 0, 2) == DataReply(Hi)
    ensures Read(Repo, Browsed, 2, 1, 5) == DataReply([0x69])
    ensures Read(Repo, Browsed, 2, 5, 5) == DataReply([])
  {
    assert Hi[1..2] == [0x69];
  }

  /** As written, reading five bytes at offset 1 of a two-byte file aborts. */
  lemma ReadAsWrittenAborts()
    ensures ReadAsWritten(Repo, Browsed, 2, 1, 5) == Panic(SliceOutOfRange)
    ensures ReadAsWritten(Repo, Browsed, 2, 0, 2) == DataReply(Hi)
  {
  }

  lemma ListRoot()
    ensures Readdir(Repo, Mount(RootId), ROOT_INO, 0) == (DirReply([
      DirEntry(1, 0, Directory, "."),
      DirEntry(1, 1, Directory, ".."),
      DirEntry(2, 2, RegularFile, "a.txt")]), Browsed)
    ensures Readdir(Repo, Browsed, ROOT_INO, 2) == (DirReply([]), Browsed)
    ensures Readdir(Repo, Browsed, ROOT_INO, 3) == (Panic(UnexpectedOffset), Browsed)
  {
    RootListing();
    FirstContact();
    ListOneChild(Mount(RootId));
  }

  lemma GetAttrUnknownInode()
    ensures GetAttr(Repo, Browsed, 9999) == Panic(ObjectNotFound)
  {
  }

  /** The same session against the mutable filesystem: later requests see
      the inode the lookup allocated. */
  method Session() returns (entry: Reply, attr: Reply, data: Reply, listing: Reply)
    ensures entry.EntryReply? && entry.attr.ino == 2 && entry.attr.size == 2
    ensures attr == AttrReply(TTL, entry.attr)
    ensures data == DataReply([0x69])
    ensures listing == DirReply([
      DirEntry(1, 0, Directory, "."),
      DirEntry(1, 1, Directory, ".."),
      DirEntry(2, 2, RegularFile, "a.txt")])
  {
    var fs := new GitFs.GitFilesystem(Repo, RootId);
    LookupNewFile();
    entry := fs.Lookup(ROOT_INO, "a.txt");
    GetAttrBrowsedFile(fs.nodes.Model());
    attr := fs.GetAttr(entry.attr.ino);
    ReadFile();
    data := fs.Read(2, 1, 5);
    ListRootAgain();
    listing := fs.Readdir(ROOT_INO, 0);
  }

  lemma GetAttrBrowsedFile(t: Table)
    requires t == Browsed
    ensures GetAttr(Repo, t, 2) == AttrReply(TTL, MakeAttr(2, RegularFile, 2))
  {
    assert GetObj(Repo, t, 2) == Fetched(Blob(Hi));
  }

  /** Listing the root after the lookup reuses inode 2 for "a.txt". */
  lemma ListRootAgain()
    ensures Readdir(Repo, Browsed, ROOT_INO, 0) == (DirReply([
      DirEntry(1, 0, Directory, "."),
      DirEntry(1, 1, Directory, ".."),
      DirEntry(2, 2, RegularFile, "a.txt")]), Browsed)
  {
    FirstContact();
    RootListing();
    ListOneChild(Browsed);
  }
}
