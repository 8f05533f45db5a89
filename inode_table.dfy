/** The identity bimap between object ids and inode numbers. Inode `k` is the
    object at position `k - 1` of `forward`; `reverse` maps each interned
    object back to its inode. Entries are only ever appended. */
module InodeTable {
  import opened Objects

  /** The mount root is always inode 1. */
  const ROOT_INO: nat := 1

  /** The value held by a `Bimap`. */
  datatype Table = Table(forward: seq<Oid>, reverse: map<Oid, nat>) {

    /** The bijection invariant: `reverse` inverts `forward`, and its keys are
        exactly the interned objects. */
    ghost predicate Valid() {
      && (forall i :: 0 <= i < |forward| ==> forward[i] in reverse && reverse[forward[i]] == i + 1)
      && (forall v :: v in reverse ==> 1 <= reverse[v] <= |forward| && forward[reverse[v] - 1] == v)
    }

    /** get_forward: the object bound to inode `k`. Inode 0 has no binding
        and the source underflows on it, so callers must rule it out. */
    function Forward(k: nat): (r: Option<Oid>)
      requires k >= 1
      ensures r.Some? <==> k <= |forward|
      ensures Valid() && r.Some? ==> r.value in reverse && reverse[r.value] == k
    {
      if k <= |forward| then Some(forward[k - 1]) else None
    }

    /** get_reverse: the inode bound to `v`, if `v` was interned. */
    function Reverse(v: Oid): (r: Option<nat>)
      ensures Valid() ==> (r.Some? <==> v in forward)
      ensures Valid() && r.Some? ==> 1 <= r.value <= |forward| && forward[r.value - 1] == v
    {
      if v in reverse then Some(reverse[v]) else None
    }

    /** get_reverse_or_alloc: the existing inode of `v`, or else `v` appended
        under the next inode number. Returns the new table and the inode. */
    function Intern(v: Oid): (r: (Table, nat))
      ensures Extends(this, r.0)
      ensures v in r.0.reverse && r.0.reverse[v] == r.1
      ensures v in reverse ==> r.0 == this
      ensures v !in reverse ==>
        && r.0.forward == forward + [v]
        && r.1 == |forward| + 1
        && r.0.reverse.Keys == reverse.Keys + {v}
      ensures Valid() ==> r.1 >= 1 && r.0.Valid() && r.0.Forward(r.1) == Some(v)
    {
      if v in reverse then (this, reverse[v])
      else
        AppendKeepsValid(this, v);
        (Table(forward + [v], reverse[v := |forward| + 1]), |forward| + 1)
    }
  }

  /** Appending an object that is not interned yet, under the next inode,
      extends the table and keeps the bijection. */
  lemma AppendKeepsValid(t: Table, v: Oid)
    requires v !in t.reverse
    ensures var u := Table(t.forward + [v], t.reverse[v := |t.forward| + 1]);
      && Extends(t, u)
      && (t.Valid() ==> u.Valid())
  {
    if t.Valid() {
      AppendForward(t, v);
      AppendReverse(t, v);
    }
  }

  lemma AppendForward(t: Table, v: Oid)
    requires t.Valid() && v !in t.reverse
    ensures var u := Table(t.forward + [v], t.reverse[v := |t.forward| + 1]);
      forall i :: 0 <= i < |u.forward| ==> u.forward[i] in u.reverse && u.reverse[u.forward[i]] == i + 1
  {
    var u := Table(t.forward + [v], t.reverse[v := |t.forward| + 1]);
    forall i | 0 <= i < |u.forward|
      ensures u.forward[i] in u.reverse && u.reverse[u.forward[i]] == i + 1
    {
      if i < |t.forward| {
        assert u.forward[i] == t.forward[i] && t.forward[i] in t.reverse;
      }
    }
  }

  lemma AppendReverse(t: Table, v: Oid)
    requires t.Valid() && v !in t.reverse
    ensures var u := Table(t.forward + [v], t.reverse[v := |t.forward| + 1]);
      forall w :: w in u.reverse ==> 1 <= u.reverse[w] <= |u.forward| && u.forward[u.reverse[w] - 1] == w
  {
    var u := Table(t.forward + [v], t.reverse[v := |t.forward| + 1]);
    forall w | w in u.reverse
      ensures 1 <= u.reverse[w] <= |u.forward| && u.forward[u.reverse[w] - 1] == w
    {
      if w != v {
        assert w in t.reverse && u.forward[t.reverse[w] - 1] == t.forward[t.reverse[w] - 1];
      }
    }
  }

  /** `u` is `t` after some allocations: nothing was renumbered or removed. */
  ghost predicate Extends(t: Table, u: Table) {
    && t.forward <= u.forward
    && (forall v :: v in t.reverse ==> v in u.reverse && u.reverse[v] == t.reverse[v])
  }

  /** GitFilesystem::new seeds the table with the root tree as inode 1. */
  function Mount(root: Oid): (t: Table)
    ensures t.Valid()
    ensures t.Forward(ROOT_INO) == Some(root) && t.Reverse(root) == Some(ROOT_INO)
    ensures forall k :: k > ROOT_INO ==> t.Forward(k).None?
  {
    Table([root], map[root := ROOT_INO])
  }

  /** Under the invariant no object is bound to two inodes. */
  lemma NoDuplicates(t: Table)
    requires t.Valid()
    ensures forall i, j :: 0 <= i < j < |t.forward| ==> t.forward[i] != t.forward[j]
  {
    forall i, j | 0 <= i < j < |t.forward|
      ensures t.forward[i] != t.forward[j]
    {
      assert t.reverse[t.forward[i]] == i + 1;
      assert t.reverse[t.forward[j]] == j + 1;
    }
  }

  /** Interning the same object twice gives the same inode and changes nothing
      the second time. */
  lemma InternIdempotent(t: Table, v: Oid)
    ensures t.Intern(v).0.Intern(v) == t.Intern(v)
  {
  }

  /** Resolving an inode and interning the object it names gives back the
      same inode and leaves the table as it was. */
  lemma ResolveThenIntern(t: Table, k: nat)
    requires t.Valid() && 1 <= k <= |t.forward|
    ensures t.Intern(t.forward[k - 1]) == (t, k)
  {
  }

  /** Allocation never rebinds an inode: whatever inode `k` resolved to, it
      still resolves to it. In particular inode 1 stays the root. */
  lemma BindingStable(t: Table, u: Table, k: nat)
    requires Extends(t, u) && k >= 1 && t.Forward(k).Some?
    ensures u.Forward(k) == t.Forward(k)
  {
  }

  /** The mutable bimap. Its two fields are the source's `Vec` and `HashMap`. */
  class Bimap {
    var forward: seq<Oid>
    var reverse: map<Oid, nat>

    function Model(): Table
      reads this
    {
      Table(forward, reverse)
    }

    /** Bimap::new: both collections empty. */
    constructor ()
      ensures Model() == Table([], map[])
      ensures Model().Valid()
    {
      forward := [];
      reverse := map[];
    }

    function GetForward(k: nat): (r: Option<Oid>)
      reads this
      requires k >= 1
      ensures r.Some? <==> k <= |forward|
      ensures r.Some? ==> r.value == forward[k - 1]
      ensures Model().Valid() && r.Some? ==> r.value in reverse && reverse[r.value] == k
    {
      Model().Forward(k)
    }

    function GetReverse(v: Oid): (r: Option<nat>)
      reads this
      ensures Model().Valid() ==> (r.Some? <==> v in forward)
      ensures Model().Valid() && r.Some? ==> 1 <= r.value <= |forward| && forward[r.value - 1] == v
    {
      Model().Reverse(v)
    }

    method GetReverseOrAlloc(v: Oid) returns (k: nat)
      modifies this
      ensures (Model(), k) == old(Model()).Intern(v)
      ensures old(Model().Valid()) ==> Model().Valid() && GetForward(k) == Some(v)
    {
      var known := GetReverse(v);
      if known.Some? {
        return known.value;
      }
      forward := forward + [v];
      k := |forward|;
      reverse := reverse[v := k];
    }
  }
}
