/** The mounted filesystem: the object store and the identity bimap it shares
    across requests. Each handler is proved to behave as the corresponding
    function of `TreeEngine` on the bimap's current value. */
module GitFs {
  import opened Objects
  import opened InodeTable
  import opened Fuse
  import TreeEngine
  import EngineProperties

  class GitFilesystem {
    const repo: Store
    const nodes: Bimap
    /** The root tree the mount was created from. */
    ghost const root: Oid

    /** The bijection invariant holds and inode 1 is the root. */
    ghost predicate Valid()
      reads this, nodes
    {
      nodes.Model().Valid() && |nodes.forward| >= 1 && nodes.forward[0] == root
    }

    /** GitFilesystem::new: the root tree becomes inode 1. */
    constructor (repo: Store, root: Oid)
      ensures Valid()
      ensures this.repo == repo && this.root == root
      ensures nodes.Model() == Mount(root)
      ensures fresh(nodes)
    {
      this.repo := repo;
      this.root := root;
      var bimap := new Bimap();
      bimap.forward := [root];
      bimap.reverse := map[root := ROOT_INO];
      nodes := bimap;
    }

    /** get_tree_entry_info: the entry's inode (interning its object), file
        type and name. */
    method GetTreeEntryInfo(entry: TreeEntry) returns (r: Option<(nat, FileType, string)>)
      requires Valid()
      modifies nodes
      ensures Valid()
      ensures match TreeEngine.GetTreeEntryInfo(old(nodes.Model()), entry)
        case None => r.None? && nodes.Model() == old(nodes.Model())
        case Some(info) => r == Some((info.ino, info.kind, info.name)) && nodes.Model() == info.table
    {
      match TreeEngine.EntryFileType(entry.kind) {
        case None =>
          return None;
        case Some(kind) =>
          var ino := nodes.GetReverseOrAlloc(entry.id);
          return Some((ino, kind, entry.name));
      }
    }

    method Lookup(parent: nat, name: string) returns (r: Reply)
      requires Valid()
      modifies nodes
      ensures Valid()
      ensures (r, nodes.Model()) == TreeEngine.Lookup(repo, old(nodes.Model()), parent, name)
    {
      match TreeEngine.GetTree(repo, nodes.Model(), parent) {
        case Underflow =>
          return Panic(InodeUnderflow);
        case NotFound =>
          return ErrorReply(ENOENT);
        case Fetched(entries) =>
          var i := 0;
          while i < |entries|
            invariant i <= |entries|
            invariant forall j :: 0 <= j < i ==> entries[j].name != name
            invariant Valid() && nodes.Model() == old(nodes.Model())
          {
            if entries[i].name == name {
              assert TreeEngine.FindEntry(entries, name) == Some(i);
              var info := GetTreeEntryInfo(entries[i]);
              match info {
                case None =>
                  return Panic(UnexpectedEntryType);
                case Some((ino, _, _)) =>
                  match FindObject(repo, entries[i].id) {
                    case None =>
                      return Panic(ObjectMissing);
                    case Some(obj) =>
                      match TreeEngine.AttrOf(ino, obj) {
                        case None =>
                          return Panic(UnexpectedObjectType);
                        case Some(attr) =>
                          return EntryReply(TTL, attr, 0);
                      }
                  }
              }
            }
            i := i + 1;
          }
          return ErrorReply(ENOENT);
      }
    }

    method GetAttr(ino: nat) returns (r: Reply)
      requires Valid()
      ensures r == TreeEngine.GetAttr(repo, nodes.Model(), ino)
    {
      r := TreeEngine.GetAttr(repo, nodes.Model(), ino);
    }

    method Read(ino: nat, offset: nat, size: nat) returns (r: Reply)
      requires Valid()
      ensures r == TreeEngine.Read(repo, nodes.Model(), ino, offset, size)
    {
      r := TreeEngine.Read(repo, nodes.Model(), ino, offset, size);
    }

    /** The readdir loop: each child in tree order, interned and listed at
        cursor `i + 2`, stopping at the first entry of unsupported kind. */
    method ListChildren(entries: seq<TreeEntry>) returns (listed: seq<DirEntry>, aborted: bool)
      requires Valid()
      modifies nodes
      ensures Valid()
      ensures TreeEngine.Scan(nodes.Model(), listed, aborted)
        == TreeEngine.ListChildren(old(nodes.Model()), entries)
    {
      listed := [];
      var i := 0;
      while i < |entries|
        invariant i <= |entries|
        invariant Valid()
        invariant TreeEngine.Scan(nodes.Model(), listed, false)
          == TreeEngine.ListChildren(old(nodes.Model()), entries[..i])
      {
        EngineProperties.ListChildrenStep(old(nodes.Model()), entries, i);
        var info := GetTreeEntryInfo(entries[i]);
        match info {
          case None =>
            EngineProperties.AbortedScanStops(old(nodes.Model()), entries, i + 1);
            return listed, true;
          case Some((child, kind, name)) =>
            listed := listed + [DirEntry(child, i + 2, kind, name)];
        }
        i := i + 1;
      }
      assert entries[..i] == entries;
      return listed, false;
    }

    method Readdir(ino: nat, offset: nat) returns (r: Reply)
      requires Valid()
      modifies nodes
      ensures Valid()
      ensures (r, nodes.Model()) == TreeEngine.Readdir(repo, old(nodes.Model()), ino, offset)
    {
      match TreeEngine.GetTree(repo, nodes.Model(), ino) {
        case Underflow =>
          return Panic(InodeUnderflow);
        case NotFound =>
          return ErrorReply(ENOENT);
        case Fetched(entries) =>
          r := ReaddirTree(entries, offset);
      }
    }

    /** readdir once `ino` resolved to a tree with these entries. */
    method ReaddirTree(entries: seq<TreeEntry>, offset: nat) returns (r: Reply)
      requires Valid()
      modifies nodes
      ensures Valid()
      ensures (r, nodes.Model()) == TreeEngine.ReaddirTree(old(nodes.Model()), entries, offset)
    {
      if offset != 0 && offset != |entries| + 1 {
        return Panic(UnexpectedOffset);
      }
      if offset == 0 {
        var children, aborted := ListChildren(entries);
        if aborted {
          return Panic(UnexpectedEntryType);
        }
        return DirReply(TreeEngine.DOTS + children);
      }
      return DirReply([]);
    }
  }
}
