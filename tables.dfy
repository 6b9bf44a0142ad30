/** A database table as Hibernate sees it through this application: rows in
    storage order and the sequence that generates the next key
    (`@SequenceGenerator` with `allocationSize = 1`, one sequence per table).
    `persist` and `merge` are the only writes the catalogue issues besides
    deleting pictures. */
module Tables {
  import opened Entities

  datatype Table<R> = Table(rows: seq<R>, next: int)

  /** `key` reads the identifier of a row and `rekey` sets it. */
  ghost predicate Rekeys<R(!new)>(key: R -> int, rekey: (R, int) -> R) {
    forall r: R, k: int :: key(rekey(r, k)) == k
  }

  /** Keys are distinct, and all were handed out before the sequence's
      current value. */
  ghost predicate WellKeyed<R>(t: Table<R>, key: R -> int) {
    && (forall i :: 0 <= i < |t.rows| ==> key(t.rows[i]) < t.next)
    && (forall i, j :: 0 <= i < j < |t.rows| ==> key(t.rows[i]) != key(t.rows[j]))
  }

  /** Some row is stored under key `k`. */
  predicate Stored<R>(rows: seq<R>, key: R -> int, k: int) {
    exists i :: 0 <= i < |rows| && key(rows[i]) == k
  }

  /** Loading by primary key: the first row stored under `k`. */
  function Lookup<R>(rows: seq<R>, key: R -> int, k: int): (r: Option<R>)
    ensures r.Some? ==> r.value in rows && key(r.value) == k
    ensures r.None? <==> !Stored(rows, key, k)
  {
    if rows == [] then None
    else if key(rows[0]) == k then Some(rows[0])
    else
      var r := Lookup(rows[1..], key, k);
      assert r.None? ==> forall i :: 1 <= i < |rows| ==> key(rows[i]) == key(rows[1..][i - 1]);
      r
  }

  /** Following a nullable foreign key. */
  function Fetch<R>(rows: seq<R>, key: R -> int, k: Option<int>): Option<R> {
    match k
    case Some(id) => Lookup(rows, key, id)
    case None => None
  }

  /** Where keys are distinct, a lookup finds the one row under its key. */
  lemma LookupFindsUnique<R>(rows: seq<R>, key: R -> int, i: int)
    requires 0 <= i < |rows|
    requires forall a, b :: 0 <= a < b < |rows| ==> key(rows[a]) != key(rows[b])
    ensures Lookup(rows, key, key(rows[i])) == Some(rows[i])
  {
    var r := Lookup(rows, key, key(rows[i]));
    assert Stored(rows, key, key(rows[i]));
    var j :| 0 <= j < |rows| && rows[j] == r.value;
    assert key(rows[j]) == key(rows[i]);
  }

  /** A sequence without members is empty. */
  lemma NoMemberMeansEmpty<T>(r: seq<T>)
    ensures (forall x :: x !in r) ==> r == []
  {
    if r != [] {
      assert r[0] in r;
    }
  }

  /** `Session.persist`: the row is inserted under the next generated key. */
  function Persist<R>(t: Table<R>, row: R, rekey: (R, int) -> R): Table<R> {
    Table(t.rows + [rekey(row, t.next)], t.next + 1)
  }

  /** `Session.merge`: a row stored under the entity's key takes the
      entity's state; an entity whose key is not stored is inserted as by
      `persist`. */
  function Merge<R>(t: Table<R>, row: R, key: R -> int, rekey: (R, int) -> R): Table<R> {
    if Stored(t.rows, key, key(row))
    then Table(seq(|t.rows|, i requires 0 <= i < |t.rows| => if key(t.rows[i]) == key(row) then row else t.rows[i]),
               t.next)
    else Persist(t, row, rekey)
  }

  /** The key under which a merged entity ends up. */
  function MergedKey<R>(t: Table<R>, row: R, key: R -> int): int {
    if Stored(t.rows, key, key(row)) then key(row) else t.next
  }

  /** A persisted row gets a key no row had before; the table stays well
      keyed, and loading by the new key gives the row back. */
  lemma PersistFresh<R(!new)>(t: Table<R>, row: R, key: R -> int, rekey: (R, int) -> R)
    requires WellKeyed(t, key) && Rekeys(key, rekey)
    ensures !Stored(t.rows, key, t.next)
    ensures WellKeyed(Persist(t, row, rekey), key)
    ensures Lookup(Persist(t, row, rekey).rows, key, t.next) == Some(rekey(row, t.next))
  {
    var p := Persist(t, row, rekey);
    assert key(p.rows[|t.rows|]) == t.next;
    forall i | 0 <= i < |t.rows|
      ensures key(p.rows[i]) < p.next && key(p.rows[i]) != t.next
    {
      assert p.rows[i] == t.rows[i];
    }
    LookupFindsUnique(p.rows, key, |t.rows|);
  }

  /** A merge keeps the table well keyed, loading the merged key gives the
      entity's state back, and every row under another key stays where and
      what it was. */
  lemma MergeThenLookup<R(!new)>(t: Table<R>, row: R, key: R -> int, rekey: (R, int) -> R)
    requires WellKeyed(t, key) && Rekeys(key, rekey)
    ensures WellKeyed(Merge(t, row, key, rekey), key)
    ensures Lookup(Merge(t, row, key, rekey).rows, key, MergedKey(t, row, key))
            == Some(if Stored(t.rows, key, key(row)) then row else rekey(row, t.next))
    ensures |t.rows| <= |Merge(t, row, key, rekey).rows|
    ensures forall i :: 0 <= i < |t.rows| && key(t.rows[i]) != key(row) ==> Merge(t, row, key, rekey).rows[i] == t.rows[i]
  {
    var m := Merge(t, row, key, rekey);
    if Stored(t.rows, key, key(row)) {
      var j :| 0 <= j < |t.rows| && key(t.rows[j]) == key(row);
      assert forall i :: 0 <= i < |t.rows| ==> key(m.rows[i]) == key(t.rows[i]);
      assert m.rows[j] == row;
      LookupFindsUnique(m.rows, key, j);
    } else {
      PersistFresh(t, row, key, rekey);
    }
  }

  /** Merging an entity whose key is stored at position `i` rewrites rows in
      place: the table keeps its length and its sequence, and loading the
      key gives the entity. */
  lemma MergeStored<R(!new)>(t: Table<R>, i: int, row: R, key: R -> int, rekey: (R, int) -> R)
    requires WellKeyed(t, key) && Rekeys(key, rekey)
    requires 0 <= i < |t.rows| && key(t.rows[i]) == key(row)
    ensures |Merge(t, row, key, rekey).rows| == |t.rows| && Merge(t, row, key, rekey).next == t.next
    ensures Lookup(Merge(t, row, key, rekey).rows, key, key(row)) == Some(row)
  {
    assert Stored(t.rows, key, key(row));
    MergeThenLookup(t, row, key, rekey);
  }
}
