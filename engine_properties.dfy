/** Properties that relate several calls of the tree engine. */
module EngineProperties {
  import opened Objects
  import opened InodeTable
  import opened Fuse
  import opened TreeEngine

  /** lookup answers ENOENT exactly when the parent is not a loadable tree or
      no entry of it carries the name. */
  lemma LookupNotFound(store: Store, t: Table, parent: nat, name: string)
    requires parent >= 1
    ensures Lookup(store, t, parent, name).0 == ErrorReply(ENOENT) <==>
      || GetTree(store, t, parent).NotFound?
      || (&& GetTree(store, t, parent).Fetched?
          && var entries := GetTree(store, t, parent).value;
             forall j :: 0 <= j < |entries| ==> entries[j].name != name)
  {
  }

  /** lookup answers for the first entry with that exact name: it interns the
      entry's object, replies with that inode, and synthesizes the attributes
      of the object the entry names. */
  lemma LookupFirstMatch(store: Store, t: Table, parent: nat, name: string, i: nat)
    requires t.Valid()
    requires GetTree(store, t, parent).Fetched?
    requires var entries := GetTree(store, t, parent).value;
      && i < |entries| && entries[i].name == name
      && (forall j :: 0 <= j < i ==> entries[j].name != name)
      && entries[i].kind != OtherType
      && entries[i].id in store && !store[entries[i].id].Other?
    ensures var entries := GetTree(store, t, parent).value;
      var (r, t') := Lookup(store, t, parent, name);
      && r.EntryReply? && r.ttl == TTL && r.generation == 0
      && r.attr.ino == t.Intern(entries[i].id).1
      && t' == t.Intern(entries[i].id).0
      && t'.Forward(r.attr.ino) == Some(entries[i].id)
      && Some(r.attr) == AttrOf(r.attr.ino, store[entries[i].id])
  {
    var entries := GetTree(store, t, parent).value;
    assert FindEntry(entries, name) == Some(i);
  }

  /** When the first entry with that name cannot be answered, lookup fails:
      an unsupported kind before anything is interned, a missing or
      unsupported object after the entry's id is interned. */
  lemma LookupFirstMatchFails(store: Store, t: Table, parent: nat, name: string, i: nat)
    requires GetTree(store, t, parent).Fetched?
    requires var entries := GetTree(store, t, parent).value;
      && i < |entries| && entries[i].name == name
      && (forall j :: 0 <= j < i ==> entries[j].name != name)
    ensures var entries := GetTree(store, t, parent).value;
      var (r, t') := Lookup(store, t, parent, name);
      && (entries[i].kind == OtherType ==> r == Panic(UnexpectedEntryType) && t' == t)
      && (entries[i].kind != OtherType && entries[i].id !in store ==>
            r == Panic(ObjectMissing) && t' == t.Intern(entries[i].id).0)
      && (entries[i].kind != OtherType && entries[i].id in store && store[entries[i].id].Other? ==>
            r == Panic(UnexpectedObjectType) && t' == t.Intern(entries[i].id).0)
  {
    var entries := GetTree(store, t, parent).value;
    assert FindEntry(entries, name) == Some(i);
  }

  /** getattr on an inode bound to a tree or blob replies with the
      attributes synthesized from that object. */
  lemma GetAttrBound(store: Store, t: Table, ino: nat, attr: FileAttr)
    requires 1 <= ino <= |t.forward| && t.forward[ino - 1] in store
    requires AttrOf(ino, store[t.forward[ino - 1]]) == Some(attr)
    ensures GetAttr(store, t, ino) == AttrReply(TTL, attr)
  {
    assert GetObj(store, t, ino) == Fetched(store[t.forward[ino - 1]]);
  }

  /** Attribute consistency, for the matched entry: getattr on the inode
      lookup answered with gives the very attributes lookup replied with. */
  lemma LookupEntryThenGetAttr(store: Store, t: Table, entry: TreeEntry)
    requires t.Valid()
    ensures var (r, t') := LookupEntry(store, t, entry);
      r.EntryReply? ==> GetAttr(store, t', r.attr.ino) == AttrReply(TTL, r.attr)
  {
    var (r, t') := LookupEntry(store, t, entry);
    if r.EntryReply? {
      assert t'.Reverse(entry.id) == Some(r.attr.ino);
      GetAttrBound(store, t', r.attr.ino, r.attr);
    }
  }

  /** Attribute consistency: getattr on the inode that lookup returned gives
      the very attributes lookup replied with. */
  lemma LookupThenGetAttr(store: Store, t: Table, parent: nat, name: string)
    requires t.Valid()
    ensures var (r, t') := Lookup(store, t, parent, name);
      r.EntryReply? ==> GetAttr(store, t', r.attr.ino) == AttrReply(TTL, r.attr)
  {
    if parent >= 1 && GetTree(store, t, parent).Fetched? {
      var entries := GetTree(store, t, parent).value;
      if FindEntry(entries, name).Some? {
        var entry := entries[FindEntry(entries, name).value];
        assert Lookup(store, t, parent, name) == LookupEntry(store, t, entry);
        LookupEntryThenGetAttr(store, t, entry);
      }
    }
  }

  /** Answering for an entry that is already interned allocates nothing and
      gives the same reply. */
  lemma LookupEntryRepeatable(store: Store, t: Table, entry: TreeEntry)
    requires t.Valid()
    ensures var (r, t') := LookupEntry(store, t, entry);
      LookupEntry(store, t', entry) == (r, t')
  {
    match GetTreeEntryInfo(t, entry)
    case None =>
    case Some(info) =>
      var t' := info.table;
      assert t'.Intern(entry.id) == (t', info.ino);
      assert GetTreeEntryInfo(t', entry) == Some(info);
      var answer := match FindObject(store, entry.id)
        case None => (Panic(ObjectMissing), t')
        case Some(obj) =>
          match AttrOf(info.ino, obj)
          case None => (Panic(UnexpectedObjectType), t')
          case Some(attr) => (EntryReply(TTL, attr, 0), t');
      assert LookupEntry(store, t, entry) == answer;
      assert LookupEntry(store, t', entry) == answer;
  }

  /** Looking the same name up again gives the same reply and allocates
      nothing more. */
  lemma LookupRepeatable(store: Store, t: Table, parent: nat, name: string)
    requires t.Valid()
    ensures var (r, t') := Lookup(store, t, parent, name);
      Lookup(store, t', parent, name) == (r, t')
  {
    var (r, t') := Lookup(store, t, parent, name);
    if parent >= 1 && GetTree(store, t, parent).Fetched? {
      var entries := GetTree(store, t, parent).value;
      BindingStable(t, t', parent);
      assert GetTree(store, t', parent) == Fetched(entries);
      if FindEntry(entries, name).Some? {
        LookupEntryRepeatable(store, t, entries[FindEntry(entries, name).value]);
      }
    }
  }

  /** readdir at cursor 0 on a tree whose entries are all supported emits
      the dots followed by the loop's listing. */
  lemma ReaddirFull(store: Store, t: Table, ino: nat)
    requires GetTree(store, t, ino).Fetched?
    requires !ListChildren(t, GetTree(store, t, ino).value).aborted
    ensures var scan := ListChildren(t, GetTree(store, t, ino).value);
      Readdir(store, t, ino, 0) == (DirReply(DOTS + scan.listed), scan.table)
  {
  }

  /** A full listing: ".", "..", then every child in tree order at cursor
      `i + 2`, each under the inode its object is now bound to. */
  lemma ReaddirListing(store: Store, t: Table, ino: nat)
    requires GetTree(store, t, ino).Fetched?
    requires var entries := GetTree(store, t, ino).value;
      forall i :: 0 <= i < |entries| ==> entries[i].kind != OtherType
    ensures var entries := GetTree(store, t, ino).value;
      var (r, t') := Readdir(store, t, ino, 0);
      && r.DirReply?
      && |r.entries| == |entries| + 2
      && r.entries[0] == DirEntry(ROOT_INO, 0, Directory, ".")
      && r.entries[1] == DirEntry(ROOT_INO, 1, Directory, "..")
      && forall i :: 0 <= i < |entries| ==>
        && t'.Reverse(entries[i].id) == Some(r.entries[i + 2].ino)
        && r.entries[i + 2].offset == i + 2
        && EntryFileType(entries[i].kind) == Some(r.entries[i + 2].kind)
        && r.entries[i + 2].name == entries[i].name
  {
    var entries := GetTree(store, t, ino).value;
    var scan := ListChildren(t, entries);
    assert !scan.aborted;
    ReaddirFull(store, t, ino);
    var listing := DOTS + scan.listed;
    forall i | 0 <= i < |entries|
      ensures listing[i + 2] == scan.listed[i]
    {
    }
  }

  /** An entry of an unsupported kind anywhere in the tree fails the listing. */
  lemma ReaddirUnsupported(store: Store, t: Table, ino: nat, i: nat)
    requires GetTree(store, t, ino).Fetched?
    requires i < |GetTree(store, t, ino).value|
    requires GetTree(store, t, ino).value[i].kind == OtherType
    ensures Readdir(store, t, ino, 0).0 == Panic(UnexpectedEntryType)
  {
  }

  /** readdir answers ENOENT exactly for a nonzero inode that is unbound or
      not bound to a stored tree, whatever the cursor, and then allocates
      nothing. */
  lemma ReaddirNotFound(store: Store, t: Table, ino: nat, offset: nat)
    requires ino >= 1
    ensures Readdir(store, t, ino, offset).0 == ErrorReply(ENOENT) <==>
      !(ino <= |t.forward| && t.forward[ino - 1] in store && store[t.forward[ino - 1]].Tree?)
    ensures Readdir(store, t, ino, offset).0 == ErrorReply(ENOENT) ==>
      Readdir(store, t, ino, offset).1 == t
  {
  }

  /** The follow-up call at cursor n + 1 ends the listing; any other non-zero
      cursor is a protocol error. Neither allocates. */
  lemma ReaddirCursor(store: Store, t: Table, ino: nat, offset: nat)
    requires GetTree(store, t, ino).Fetched? && offset != 0
    ensures var n := |GetTree(store, t, ino).value|;
      Readdir(store, t, ino, offset) ==
        if offset == n + 1 then (DirReply([]), t) else (Panic(UnexpectedOffset), t)
  {
  }

  /** One more iteration of the readdir loop: entry `i` is interned and
      listed at cursor `i + 2`, or stops the loop. */
  lemma ListChildrenStep(t: Table, entries: seq<TreeEntry>, i: nat)
    requires i < |entries|
    ensures var prev := ListChildren(t, entries[..i]);
      ListChildren(t, entries[..i + 1]) ==
        if prev.aborted then prev
        else match GetTreeEntryInfo(prev.table, entries[i])
          case None => prev.(aborted := true)
          case Some(info) =>
            Scan(info.table, prev.listed + [DirEntry(info.ino, i + 2, info.kind, info.name)], false)
  {
    assert entries[..i + 1][..i] == entries[..i];
  }

  /** Once the readdir loop has stopped on an unsupported entry, the entries
      after it change nothing: neither the listing nor the table. */
  lemma {:induction false} AbortedScanStops(t: Table, entries: seq<TreeEntry>, k: nat)
    requires k <= |entries| && ListChildren(t, entries[..k]).aborted
    ensures ListChildren(t, entries) == ListChildren(t, entries[..k])
    decreases |entries| - k
  {
    if k < |entries| {
      assert entries[..k + 1][..k] == entries[..k];
      AbortedScanStops(t, entries, k + 1);
    } else {
      assert entries[..k] == entries;
    }
  }

  /** The object ids the entries name. */
  ghost function Ids(entries: seq<TreeEntry>): set<Oid>
  {
    set i | 0 <= i < |entries| :: entries[i].id
  }

  /** The ids among `entries` that are neither in `known` nor met earlier in
      the sequence, in the order they are first met. */
  ghost function NewIds(known: set<Oid>, entries: seq<TreeEntry>): seq<Oid>
    decreases |entries|
  {
    if entries == [] then []
    else
      var n := |entries| - 1;
      var prev := NewIds(known, entries[..n]);
      if entries[n].id in known + Ids(entries[..n]) then prev else prev + [entries[n].id]
  }

  /** The ids of a sequence are those of all but its last entry, plus the last. */
  lemma IdsSnoc(entries: seq<TreeEntry>)
    requires |entries| > 0
    ensures Ids(entries) == Ids(entries[..|entries| - 1]) + {entries[|entries| - 1].id}
  {
    var n := |entries| - 1;
    var front := entries[..n];
    forall x | x in Ids(entries) ensures x in Ids(front) + {entries[n].id} {
      var i :| 0 <= i < |entries| && entries[i].id == x;
      if i < n { assert front[i].id == x; }
    }
    forall x | x in Ids(front) ensures x in Ids(entries) {
      var i :| 0 <= i < |front| && front[i].id == x;
      assert entries[i].id == x;
    }
  }

  /** The readdir loop interns the children's ids and nothing else: a
      finished listing binds exactly the old ids plus the children's, and a
      listing that stopped early binds no id outside these. */
  lemma {:induction false} ListChildrenKeys(t: Table, entries: seq<TreeEntry>)
    ensures ListChildren(t, entries).table.reverse.Keys <= t.reverse.Keys + Ids(entries)
    ensures !ListChildren(t, entries).aborted ==>
      ListChildren(t, entries).table.reverse.Keys == t.reverse.Keys + Ids(entries)
    decreases |entries|
  {
    if entries != [] {
      var n := |entries| - 1;
      ListChildrenKeys(t, entries[..n]);
      IdsSnoc(entries);
      ListChildrenStep(t, entries, n);
      assert entries[..n + 1] == entries;
    } else {
      assert Ids(entries) == {};
    }
  }

  /** A finished listing gives the new inodes to the children's ids not
      seen before, one each, in tree order. */
  lemma {:induction false} ListChildrenInterns(t: Table, entries: seq<TreeEntry>)
    ensures var r := ListChildren(t, entries);
      !r.aborted ==> r.table.forward == t.forward + NewIds(t.reverse.Keys, entries)
    decreases |entries|
  {
    if entries != [] {
      var n := |entries| - 1;
      var front := entries[..n];
      var id := entries[n].id;
      ListChildrenInterns(t, front);
      var prev := ListChildren(t, front);
      ListChildrenStep(t, entries, n);
      assert entries[..n + 1] == entries;
      if !prev.aborted && entries[n].kind != OtherType {
        ListChildrenKeys(t, front);
        var info := GetTreeEntryInfo(prev.table, entries[n]).value;
        assert (info.table, info.ino) == prev.table.Intern(id);
        var known := t.reverse.Keys;
        var seen := NewIds(known, front);
        assert NewIds(known, entries) == if id in known + Ids(front) then seen else seen + [id];
        if id !in prev.table.reverse {
          assert info.table.forward == (t.forward + seen) + [id];
          assert (t.forward + seen) + [id] == t.forward + (seen + [id]);
        }
      }
    }
  }

  /** Listing entries whose objects are all interned already allocates
      nothing. */
  lemma {:induction false} ListChildrenKnown(t: Table, entries: seq<TreeEntry>)
    requires forall i :: 0 <= i < |entries| ==> entries[i].id in t.reverse
    ensures ListChildren(t, entries).table == t
  {
    if entries != [] {
      var n := |entries| - 1;
      ListChildrenKnown(t, entries[..n]);
    }
  }

  /** Running the readdir loop a second time, over the table the first run
      left, reproduces the first run exactly. */
  lemma ListChildrenRepeatable(t: Table, entries: seq<TreeEntry>)
    requires !ListChildren(t, entries).aborted
    ensures var first := ListChildren(t, entries);
      ListChildren(first.table, entries) == first
  {
    var first := ListChildren(t, entries);
    ListChildrenKnown(first.table, entries);
    var second := ListChildren(first.table, entries);
    assert second.listed == first.listed;
  }

  /** Directory-order determinism: listing the same directory twice gives the
      same entries in the same order, and the second listing allocates
      nothing. */
  lemma ReaddirRepeatable(store: Store, t: Table, ino: nat)
    requires t.Valid()
    ensures var (r, t') := Readdir(store, t, ino, 0);
      r.DirReply? ==> Readdir(store, t', ino, 0) == (r, t')
  {
    var (r, t') := Readdir(store, t, ino, 0);
    if r.DirReply? {
      var entries := GetTree(store, t, ino).value;
      assert t' == ListChildren(t, entries).table;
      BindingStable(t, t', ino);
      assert GetTree(store, t', ino) == Fetched(entries);
      ListChildrenRepeatable(t, entries);
    }
  }

  /** The clamped read agrees with the source's slice on every range that
      lies within the blob. */
  lemma ReadAgreesInRange(store: Store, t: Table, ino: nat, offset: nat, size: nat)
    requires GetObj(store, t, ino).Fetched? && GetObj(store, t, ino).value.Blob?
    requires offset + size <= |GetObj(store, t, ino).value.content|
    ensures ReadAsWritten(store, t, ino, offset, size) == Read(store, t, ino, offset, size)
  {
  }

  /** As written, any read that runs past the end of a blob aborts, where the
      clamped read returns the available tail. */
  lemma ReadAsWrittenPastEnd(store: Store, t: Table, ino: nat, offset: nat, size: nat)
    requires GetObj(store, t, ino).Fetched? && GetObj(store, t, ino).value.Blob?
    requires offset + size > |GetObj(store, t, ino).value.content|
    ensures ReadAsWritten(store, t, ino, offset, size) == Panic(SliceOutOfRange)
    ensures Read(store, t, ino, offset, size).DataReply?
  {
  }
}
