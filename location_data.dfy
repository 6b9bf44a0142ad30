/** `SimpleLocationDataAccess`: reads and writes of the location table. A
    location is stored with the key of its cartoon and loaded with the cartoon
    itself. `fault` stands for the exception each method catches and logs. */
module LocationData {
  import opened Text
  import opened Entities
  import opened Tables
  import opened Queries
  import opened Store

  /** The names of the locations of `cartoon`; null on failure, including
      the null pointer dereferenced when no cartoon is given. */
  method FindCartoonLocationNames(db: Catalogue, cartoon: Option<Cartoon>, fault: bool) returns (names: Option<seq<string>>)
    ensures names.None? <==> fault || cartoon.None?
    ensures names.Some? ==> var rows := LocationsOfCartoon(db.locations.rows, cartoon.value.cartoonId);
              |names.value| == |rows| && forall i :: 0 <= i < |rows| ==> names.value[i] == rows[i].locationName
    ensures names.Some? ==> forall n :: n in names.value <==>
              exists l :: l in db.locations.rows && l.cartoonId == Some(cartoon.value.cartoonId) && l.locationName == n
  {
    if fault || cartoon.None? {
      return None;
    }
    var rows := LocationsOfCartoon(db.locations.rows, cartoon.value.cartoonId);
    names := Some(LocationNames(rows));
  }

  /** The location whose name equals `name` ignoring case, in any cartoon;
      null when none or several match, or on failure. */
  method FindCartoonLocation(db: Catalogue, name: string, fault: bool) returns (location: Option<CartoonLocation>)
    ensures location.None? <==> fault || |LocationsNamed(db.locations.rows, name)| != 1
    ensures location.Some? ==> exists row :: row in db.locations.rows && NameLike(row.locationName, name)
                                              && location.value == LoadLocation(db.cartoons.rows, row)
                                              && LocationsNamed(db.locations.rows, name) == [row]
  {
    if fault {
      return None;
    }
    var matches := LocationsNamed(db.locations.rows, name);
    if |matches| == 1 {
      assert matches[0] in matches;
      location := Some(LoadLocation(db.cartoons.rows, matches[0]));
    } else {
      location := None;
    }
  }

  /** The location named `name` (ignoring case) within `cartoon`; null when
      none or several match, when no cartoon is given, or on failure. */
  method FindCartoonLocationIn(db: Catalogue, name: string, cartoon: Option<Cartoon>, fault: bool)
    returns (location: Option<CartoonLocation>)
    ensures location.None? <==> fault || |LocationsNamedIn(db.locations.rows, name, CartoonKeyOf(cartoon))| != 1
    ensures location.Some? ==> cartoon.Some?
    ensures location.Some? ==> exists row :: row in db.locations.rows && NameLike(row.locationName, name)
                                              && row.cartoonId == Some(cartoon.value.cartoonId)
                                              && location.value == LoadLocation(db.cartoons.rows, row)
  {
    if fault {
      return None;
    }
    var matches := LocationsNamedIn(db.locations.rows, name, CartoonKeyOf(cartoon));
    if |matches| == 1 {
      assert matches[0] in matches;
      location := Some(LoadLocation(db.cartoons.rows, matches[0]));
    } else {
      location := None;
    }
  }

  /** `persist` of the location's row in its own transaction. */
  method AddLocation(db: Catalogue, location: CartoonLocation, fault: bool) returns (ok: bool)
    requires db.Valid()
    modifies db
    ensures db.Valid()
    ensures ok == !fault
    ensures ok ==> db.Snapshot() == old(db.Snapshot()).(locations := Persist(old(db.locations), LocationRowOf(location), WithLocationKey))
    ensures !ok ==> db.Snapshot() == old(db.Snapshot())
  {
    if fault {
      return false;
    }
    assert Rekeys(LocationRowKey, WithLocationKey);
    PersistFresh(db.locations, LocationRowOf(location), LocationRowKey, WithLocationKey);
    db.SetLocations(Persist(db.locations, LocationRowOf(location), WithLocationKey));
    return true;
  }

  /** `merge` of the location's row in its own transaction. */
  method UpdateLocation(db: Catalogue, location: CartoonLocation, fault: bool) returns (ok: bool)
    requires db.Valid()
    modifies db
    ensures db.Valid()
    ensures ok == !fault
    ensures ok ==> db.Snapshot() == old(db.Snapshot()).(locations := Merge(old(db.locations), LocationRowOf(location), LocationRowKey, WithLocationKey))
    ensures !ok ==> db.Snapshot() == old(db.Snapshot())
  {
    if fault {
      return false;
    }
    assert Rekeys(LocationRowKey, WithLocationKey);
    MergeThenLookup(db.locations, LocationRowOf(location), LocationRowKey, WithLocationKey);
    db.SetLocations(Merge(db.locations, LocationRowOf(location), LocationRowKey, WithLocationKey));
    return true;
  }
}
