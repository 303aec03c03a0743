/**
 * Relational tables as sequences of rows in rowid order. Every table of the
 * store has an integer primary key assigned by SQLite: an insert that does
 * not name one gets one more than the largest id present (1 on an empty
 * table), so ids increase along the sequence.
 */
module Tables {
  import opened Common

  datatype Row<T> = Row(id: nat, data: T)

  type Table<T> = seq<Row<T>>

  /** Rowid order: ids strictly increase along the table. */
  predicate IdsIncreasing<T>(t: Table<T>) {
    forall i, j :: 0 <= i < j < |t| ==> t[i].id < t[j].id
  }

  /** A unique index on `key`: two rows with the same key are the same row. */
  predicate UniqueKey<T(==,!new), K(==)>(t: Table<T>, key: T -> K) {
    forall r1, r2 :: r1 in t && r2 in t && key(r1.data) == key(r2.data) ==> r1 == r2
  }

  /** The largest id in the table, 0 when it is empty. */
  function MaxId<T>(t: Table<T>): (m: nat)
    ensures forall i :: 0 <= i < |t| ==> t[i].id <= m
    decreases |t|
  {
    if t == [] then 0
    else
      var m := MaxId(t[..|t| - 1]);
      if t[|t| - 1].id > m then t[|t| - 1].id else m
  }

  /** The id SQLite gives to a row inserted without one. */
  function NextId<T>(t: Table<T>): (id: nat)
    ensures id >= 1 && forall i :: 0 <= i < |t| ==> t[i].id < id
  {
    MaxId(t) + 1
  }

  /** INSERT without an id: the new row goes last with NextId. */
  function Insert<T>(t: Table<T>, data: T): (t': Table<T>)
    ensures |t'| == |t| + 1 && t'[..|t|] == t
    ensures t'[|t|].data == data && forall i :: 0 <= i < |t| ==> t[i].id < t'[|t|].id
  {
    t + [Row(NextId(t), data)]
  }

  lemma InsertKeepsIncreasing<T>(t: Table<T>, data: T)
    requires IdsIncreasing(t)
    ensures IdsIncreasing(Insert(t, data))
  {
  }

  /** The rows that `keep` accepts, in table order (SELECT/DELETE ... WHERE). */
  function Where<T(==,!new)>(t: Table<T>, keep: Row<T> -> bool): (w: Table<T>)
    ensures |w| <= |t|
    ensures forall r :: r in w <==> r in t && keep(r)
    decreases |t|
  {
    if t == [] then []
    else
      var w := Where(t[..|t| - 1], keep);
      assert forall r :: r in t <==> r in t[..|t| - 1] || r == t[|t| - 1];
      if keep(t[|t| - 1]) then w + [t[|t| - 1]] else w
  }

  /** Filtering keeps rowid order. */
  lemma {:induction false} WhereKeepsIncreasing<T(!new)>(t: Table<T>, keep: Row<T> -> bool)
    requires IdsIncreasing(t)
    ensures IdsIncreasing(Where(t, keep))
    decreases |t|
  {
    if t != [] {
      var p := t[..|t| - 1];
      WhereKeepsIncreasing(p, keep);
      var w := Where(p, keep);
      forall r | r in w ensures r.id < t[|t| - 1].id {
        var i :| 0 <= i < |p| && p[i] == r;
      }
    }
  }

  /** A filter that accepts every row is the identity. */
  lemma {:induction false} WhereAll<T(!new)>(t: Table<T>, keep: Row<T> -> bool)
    requires forall i :: 0 <= i < |t| ==> keep(t[i])
    ensures Where(t, keep) == t
    decreases |t|
  {
    if t != [] {
      WhereAll(t[..|t| - 1], keep);
      assert t == t[..|t| - 1] + [t[|t| - 1]];
    }
  }

  /** A filter that accepts no row gives the empty table. */
  lemma {:induction false} WhereNone<T(!new)>(t: Table<T>, keep: Row<T> -> bool)
    requires forall i :: 0 <= i < |t| ==> !keep(t[i])
    ensures Where(t, keep) == []
    decreases |t|
  {
    if t != [] {
      WhereNone(t[..|t| - 1], keep);
    }
  }

  /** A filter and its complement partition the table. */
  lemma {:induction false} WherePartition<T(!new)>(t: Table<T>, keep: Row<T> -> bool, drop: Row<T> -> bool)
    requires forall r :: drop(r) == !keep(r)
    ensures |Where(t, keep)| + |Where(t, drop)| == |t|
    decreases |t|
  {
    if t != [] {
      WherePartition(t[..|t| - 1], keep, drop);
    }
  }

  /** Position of the first row that `p` accepts. */
  function FindFirst<T>(t: Table<T>, p: Row<T> -> bool): (r: Option<nat>)
    ensures r.None? <==> forall i :: 0 <= i < |t| ==> !p(t[i])
    ensures r.Some? ==> r.value < |t| && p(t[r.value]) && forall j :: 0 <= j < r.value ==> !p(t[j])
    decreases |t|
  {
    if t == [] then None
    else if p(t[0]) then Some(0)
    else match FindFirst(t[1..], p)
      case None => None
      case Some(k) => Some(k + 1)
  }

  /** The first accepted position is the one FindFirst returns. */
  lemma FindFirstIs<T>(t: Table<T>, p: Row<T> -> bool, i: nat)
    requires i < |t| && p(t[i]) && forall j :: 0 <= j < i ==> !p(t[j])
    ensures FindFirst(t, p) == Some(i)
  {
    var r := FindFirst(t, p);
    assert r.Some?;
    assert !(r.value < i);
    assert !(i < r.value);
  }

  /** Position of the row with primary key `id` (Model.get_by_id). */
  function IndexOfId<T>(t: Table<T>, id: int): (r: Option<nat>)
    ensures r.None? <==> forall i :: 0 <= i < |t| ==> t[i].id != id
    ensures r.Some? ==> r.value < |t| && t[r.value].id == id
  {
    FindFirst(t, (row: Row<T>) => row.id == id)
  }

  /** In rowid order the id of row `i` leads back to `i` (what Model.save relies on). */
  lemma IndexOfIdAt<T>(t: Table<T>, i: nat)
    requires IdsIncreasing(t) && i < |t|
    ensures IndexOfId(t, t[i].id) == Some(i)
  {
    FindFirstIs(t, (row: Row<T>) => row.id == t[i].id, i);
  }

  /** Replaces the data of row `i`, keeping its id. */
  function SetData<T>(t: Table<T>, i: nat, d: T): (t': Table<T>)
    requires i < |t|
    ensures |t'| == |t| && t'[i] == Row(t[i].id, d)
    ensures forall j :: 0 <= j < |t| && j != i ==> t'[j] == t[j]
  {
    t[i := Row(t[i].id, d)]
  }

  lemma SetDataKeepsIncreasing<T>(t: Table<T>, i: nat, d: T)
    requires i < |t| && IdsIncreasing(t)
    ensures IdsIncreasing(SetData(t, i, d))
  {
  }

  /** Rows whose key is `k` (WHERE key = k). */
  function HasKey<T, K(==)>(key: T -> K, k: K): Row<T> -> bool {
    (r: Row<T>) => key(r.data) == k
  }

  /** Rows whose key is not `k`. */
  function LacksKey<T, K(==)>(key: T -> K, k: K): Row<T> -> bool {
    (r: Row<T>) => key(r.data) != k
  }

  /** Under a unique index at most one row carries a given key. */
  lemma WhereKeyAtMostOne<T(!new), K>(t: Table<T>, key: T -> K, k: K)
    requires IdsIncreasing(t) && UniqueKey(t, key)
    ensures |Where(t, HasKey(key, k))| <= 1
  {
    var w := Where(t, HasKey(key, k));
    WhereKeepsIncreasing(t, HasKey(key, k));
    forall i | 0 <= i < |w| ensures w[i] == w[0] {
      assert w[i] in w && w[0] in w;
    }
  }

  /** Removing the rows with key `k` removes one row when the key is present, none otherwise. */
  lemma WhereLacksKeyCount<T(!new), K>(t: Table<T>, key: T -> K, k: K)
    requires IdsIncreasing(t) && UniqueKey(t, key)
    ensures |Where(t, LacksKey(key, k))| == |t| - (if exists r :: r in t && key(r.data) == k then 1 else 0)
  {
    WherePartition(t, HasKey(key, k), LacksKey(key, k));
    WhereKeyAtMostOne(t, key, k);
    var w := Where(t, HasKey(key, k));
    if exists r :: r in t && key(r.data) == k {
      var r :| r in t && key(r.data) == k;
      assert r in w;
    } else {
      forall i | 0 <= i < |t| ensures !HasKey(key, k)(t[i]) {
        assert t[i] in t;
      }
      WhereNone(t, HasKey(key, k));
    }
  }

  /** Inserting a row whose key is absent keeps the index unique. */
  lemma InsertKeepsUnique<T(!new), K>(t: Table<T>, key: T -> K, d: T)
    requires IdsIncreasing(t) && UniqueKey(t, key)
    requires forall i :: 0 <= i < |t| ==> key(t[i].data) != key(d)
    ensures IdsIncreasing(Insert(t, d)) && UniqueKey(Insert(t, d), key)
  {
    var t' := Insert(t, d);
    forall r1, r2 | r1 in t' && r2 in t' && key(r1.data) == key(r2.data) ensures r1 == r2 {
      if r1 != t'[|t|] && r2 != t'[|t|] {
        assert r1 in t && r2 in t;
      }
    }
  }

  /** Appending a row with a larger id and a key that is absent keeps both invariants. */
  lemma AppendKeepsUnique<T(!new), K>(t: Table<T>, key: T -> K, row: Row<T>)
    requires IdsIncreasing(t) && UniqueKey(t, key)
    requires forall i :: 0 <= i < |t| ==> t[i].id < row.id && key(t[i].data) != key(row.data)
    ensures IdsIncreasing(t + [row]) && UniqueKey(t + [row], key)
  {
    var t' := t + [row];
    forall r1, r2 | r1 in t' && r2 in t' && key(r1.data) == key(r2.data) ensures r1 == r2 {
      if r1 != row && r2 != row {
        assert r1 in t && r2 in t;
      }
    }
  }

  /** Changing one row keeps the index unique when no other row carries the new key. */
  lemma SetDataKeepsUnique<T(!new), K>(t: Table<T>, key: T -> K, i: nat, d: T)
    requires i < |t| && IdsIncreasing(t) && UniqueKey(t, key)
    requires forall j :: 0 <= j < |t| && j != i ==> key(t[j].data) != key(d)
    ensures IdsIncreasing(SetData(t, i, d)) && UniqueKey(SetData(t, i, d), key)
  {
    var t' := SetData(t, i, d);
    forall r1, r2 | r1 in t' && r2 in t' && key(r1.data) == key(r2.data) ensures r1 == r2 {
      var a :| 0 <= a < |t'| && t'[a] == r1;
      var b :| 0 <= b < |t'| && t'[b] == r2;
      if a != i && b != i {
        assert r1 in t && r2 in t;
      }
    }
  }

  /** Changing one row without changing its key keeps the index unique. */
  lemma SetDataSameKeyKeepsUnique<T(!new), K>(t: Table<T>, key: T -> K, i: nat, d: T)
    requires i < |t| && IdsIncreasing(t) && UniqueKey(t, key)
    requires key(d) == key(t[i].data)
    ensures IdsIncreasing(SetData(t, i, d)) && UniqueKey(SetData(t, i, d), key)
  {
    forall j | 0 <= j < |t| && j != i ensures key(t[j].data) != key(d) {
      assert t[j] in t && t[i] in t && t[j].id != t[i].id;
    }
    SetDataKeepsUnique(t, key, i, d);
  }

  /** Two rows of a table in rowid order with the same id are the same position. */
  lemma IdsIncreasingInjective<T>(t: Table<T>, i: nat, j: nat)
    requires IdsIncreasing(t) && i < |t| && j < |t| && t[i].id == t[j].id
    ensures i == j
  {
  }

  /** A filter keeps the unique index. */
  lemma WhereKeepsUnique<T(!new), K>(t: Table<T>, keep: Row<T> -> bool, key: T -> K)
    requires UniqueKey(t, key)
    ensures UniqueKey(Where(t, keep), key)
  {
  }

  function NotId<T>(id: int): Row<T> -> bool {
    (r: Row<T>) => r.id != id
  }

  /** DELETE ... WHERE id = `id` (Model.delete_instance). */
  function RemoveId<T(==,!new)>(t: Table<T>, id: int): (t': Table<T>)
    ensures forall r :: r in t' <==> r in t && r.id != id
  {
    Where(t, NotId(id))
  }

  function IsId<T>(id: int): Row<T> -> bool {
    (r: Row<T>) => r.id == id
  }

  /** In rowid order exactly one row carries an id that is present, none one that is absent. */
  lemma WhereIdCount<T(!new)>(t: Table<T>, id: int)
    requires IdsIncreasing(t)
    ensures |Where(t, IsId(id))| == if IndexOfId(t, id).Some? then 1 else 0
  {
    var w := Where(t, IsId(id));
    WhereKeepsIncreasing(t, IsId(id));
    forall i | 0 <= i < |w| ensures w[i] == w[0] {
      assert w[i] in w && w[0] in w;
    }
    match IndexOfId(t, id)
    case None =>
      WhereNone(t, IsId(id));
    case Some(k) =>
      assert t[k] in w;
  }

  /**
   * Deleting by id removes exactly the one row with that id, keeps the
   * order of the others and every unique index.
   */
  lemma RemoveIdFacts<T(!new), K>(t: Table<T>, id: int, key: T -> K)
    requires IdsIncreasing(t) && UniqueKey(t, key)
    ensures IdsIncreasing(RemoveId(t, id)) && UniqueKey(RemoveId(t, id), key)
    ensures |RemoveId(t, id)| == |t| - (if IndexOfId(t, id).Some? then 1 else 0)
  {
    WhereKeepsIncreasing(t, NotId(id));
    WhereKeepsUnique(t, NotId(id), key);
    WherePartition(t, NotId(id), IsId(id));
    WhereIdCount(t, id);
  }
}
