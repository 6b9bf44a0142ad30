/** `SaveLocationTask`: adds a location to a cartoon unless the cartoon
    already has a location of that name. */
module SaveLocation {
  import opened Entities
  import opened Tables
  import opened Queries
  import opened Store
  import opened CartoonData
  import opened LocationData

  const Saved: string := "Location saved successfully."
  const AlreadyExists: string := "The location already exists."

  class SaveLocationTask {
    const cartoonName: string
    const locationName: string
    const locationDescription: string
    var successful: bool

    constructor (cartoonName: string, locationName: string, locationDescription: string)
      ensures this.cartoonName == cartoonName && this.locationName == locationName
      ensures this.locationDescription == locationDescription && !successful
    {
      this.cartoonName := cartoonName;
      this.locationName := locationName;
      this.locationDescription := locationDescription;
      successful := false;
    }

    function Message(): string
      reads this
    {
      if successful then Saved else AlreadyExists
    }

    /** The row stored for the new location of `cartoon`. */
    function NewRow(cartoon: Option<Cartoon>): LocationRow {
      LocationRowOf(CartoonLocation(0, locationName, locationDescription, cartoon))
    }

    /** `call`: the cartoon is looked up by title, then the location by name
        within that cartoon; a location found blocks the add, otherwise the
        outcome of `addLocation` is the task's outcome. A cartoon that is not
        found leaves the new location without a cartoon. */
    method Call(db: Catalogue, findCartoonFault: bool, findLocationFault: bool, addFault: bool)
      requires db.Valid()
      modifies this, db
      ensures db.Valid()
      ensures var cartoon := if findCartoonFault then None else UniqueResult(CartoonsTitled(old(db.cartoons.rows), cartoonName));
              var found := !findLocationFault && |LocationsNamedIn(old(db.locations.rows), locationName, CartoonKeyOf(cartoon))| == 1;
              && (successful <==> !found && !addFault)
              && (successful ==> db.Snapshot() == old(db.Snapshot()).(locations := Persist(old(db.locations), NewRow(cartoon), WithLocationKey)))
      ensures !successful ==> db.Snapshot() == old(db.Snapshot()) && Message() == AlreadyExists
      ensures successful ==> Message() == Saved
      ensures !findLocationFault && LocationNamesUniquePerCartoon(old(db.locations.rows)) ==>
                LocationNamesUniquePerCartoon(db.locations.rows)
    {
      ghost var before := db.locations;
      var cartoon := FindCartoon(db, cartoonName, findCartoonFault);
      var existing := FindCartoonLocationIn(db, locationName, cartoon, findLocationFault);
      if existing.Some? {
        successful := false;
      } else {
        var location := CartoonLocation(0, locationName, locationDescription, cartoon);
        if !findLocationFault && LocationNamesUniquePerCartoon(before.rows) {
          UniqueLocationNamesMatchAtMostOnce(before.rows, locationName, CartoonKeyOf(cartoon));
          var row := WithLocationKey(LocationRowOf(location), before.next);
          assert LocationsNamedIn(before.rows, row.locationName, row.cartoonId) == [];
          GuardedAddKeepsLocationNamesUnique(before.rows, row);
        }
        successful := AddLocation(db, location, addFault);
      }
    }
  }
}
