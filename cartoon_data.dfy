/** `SimpleCartoonDataAccess`: reads and writes of the cartoon table. Every
    database call may fail; `fault` stands for the exception that the method
    catches and logs. */
module CartoonData {
  import opened Entities
  import opened Tables
  import opened Queries
  import opened Store

  /** The title of every cartoon, in table order; null on failure. */
  method FindAllCartoonNames(db: Catalogue, fault: bool) returns (titles: Option<seq<string>>)
    ensures titles.None? <==> fault
    ensures titles.Some? ==> |titles.value| == |db.cartoons.rows|
    ensures titles.Some? ==> forall i :: 0 <= i < |titles.value| ==> titles.value[i] == db.cartoons.rows[i].title
  {
    if fault {
      return None;
    }
    titles := Some(Titles(db.cartoons.rows));
  }

  /** The cartoon whose title equals `title` exactly; null when none or
      several match, or on failure. */
  method FindCartoon(db: Catalogue, title: string, fault: bool) returns (cartoon: Option<Cartoon>)
    ensures cartoon.Some? ==> !fault && cartoon.value in db.cartoons.rows && cartoon.value.title == title
    ensures cartoon.Some? ==> forall c :: c in db.cartoons.rows && c.title == title ==> c == cartoon.value
    ensures cartoon.None? <==> fault || |CartoonsTitled(db.cartoons.rows, title)| != 1
    ensures !fault ==> cartoon == UniqueResult(CartoonsTitled(db.cartoons.rows, title))
  {
    if fault {
      return None;
    }
    var matches := CartoonsTitled(db.cartoons.rows, title);
    cartoon := UniqueResult(matches);
    if cartoon.Some? {
      assert matches == [cartoon.value];
    }
  }

  /** `persist` in its own transaction: true after the commit, false (and
      nothing stored) on failure. */
  method AddCartoon(db: Catalogue, cartoon: Cartoon, fault: bool) returns (ok: bool)
    requires db.Valid()
    modifies db
    ensures db.Valid()
    ensures ok == !fault
    ensures ok ==> db.Snapshot() == old(db.Snapshot()).(cartoons := Persist(old(db.cartoons), cartoon, WithCartoonKey))
    ensures !ok ==> db.Snapshot() == old(db.Snapshot())
  {
    if fault {
      return false;
    }
    assert Rekeys(CartoonKey, WithCartoonKey);
    PersistFresh(db.cartoons, cartoon, CartoonKey, WithCartoonKey);
    db.SetCartoons(Persist(db.cartoons, cartoon, WithCartoonKey));
    return true;
  }

  /** `merge` in its own transaction. */
  method UpdateCartoon(db: Catalogue, cartoon: Cartoon, fault: bool) returns (ok: bool)
    requires db.Valid()
    modifies db
    ensures db.Valid()
    ensures ok == !fault
    ensures ok ==> db.Snapshot() == old(db.Snapshot()).(cartoons := Merge(old(db.cartoons), cartoon, CartoonKey, WithCartoonKey))
    ensures !ok ==> db.Snapshot() == old(db.Snapshot())
  {
    if fault {
      return false;
    }
    assert Rekeys(CartoonKey, WithCartoonKey);
    MergeThenLookup(db.cartoons, cartoon, CartoonKey, WithCartoonKey);
    db.SetCartoons(Merge(db.cartoons, cartoon, CartoonKey, WithCartoonKey));
    return true;
  }
}
