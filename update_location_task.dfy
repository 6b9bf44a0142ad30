/** `UpdateLocationTask`: rewrites a stored location with the entered
    cartoon, name and description. */
module UpdateLocation {
  import opened Entities
  import opened Tables
  import opened Queries
  import opened Store
  import opened CartoonData
  import opened LocationData

  const Updated: string := "Location updated successfully."
  const NotFound: string := "The location does not exist."

  class UpdateLocationTask {
    const cartoonName: string
    const locationName: string
    const locationDescription: string
    var successful: bool

    constructor (cartoonName: string, locationName: string, locationDescription: string)
      ensures this.cartoonName == cartoonName && this.locationName == locationName
      ensures this.locationDescription == locationDescription && !successful
    {
      this.cartoonName := cartoonName;
      this.locationName := locationName;
      this.locationDescription := locationDescription;
      successful := false;
    }

    function Message(): string
      reads this
    {
      if successful then Updated else NotFound
    }

    /** The stored location row `row` with the entered values. */
    function UpdatedRow(row: LocationRow, cartoon: Option<Cartoon>): LocationRow {
      LocationRow(row.locationId, locationName, locationDescription, CartoonKeyOf(cartoon))
    }

    /** `call`: the location is found by its name alone, in any cartoon;
        when it is found its cartoon becomes the one found by title (none
        when that lookup fails), and `updateLocation` decides the outcome. */
    method Call(db: Catalogue, findLocationFault: bool, findCartoonFault: bool, updateFault: bool)
      requires db.Valid()
      modifies this, db
      ensures db.Valid()
      ensures var matches := LocationsNamed(old(db.locations.rows), locationName);
              var cartoon := if findCartoonFault then None else UniqueResult(CartoonsTitled(old(db.cartoons.rows), cartoonName));
              && (successful <==> !findLocationFault && |matches| == 1 && !updateFault)
              && (successful ==> db.Snapshot() == old(db.Snapshot()).(
                    locations := Merge(old(db.locations), UpdatedRow(matches[0], cartoon), LocationRowKey, WithLocationKey)))
              && (successful ==> Lookup(db.locations.rows, LocationRowKey, matches[0].locationId)
                                 == Some(UpdatedRow(matches[0], cartoon)))
      ensures successful ==> |db.locations.rows| == |old(db.locations.rows)| && db.locations.next == old(db.locations.next)
      ensures !successful ==> db.Snapshot() == old(db.Snapshot())
      ensures Message() == if successful then Updated else NotFound
    {
      ghost var matches := LocationsNamed(db.locations.rows, locationName);
      var location := FindCartoonLocation(db, locationName, findLocationFault);
      if location.None? {
        successful := false;
        return;
      }
      var cartoon := FindCartoon(db, cartoonName, findCartoonFault);
      var updated := location.value.(cartoon := cartoon, locationName := locationName, description := locationDescription);
      assert matches[0] in matches;
      ghost var i :| 0 <= i < |db.locations.rows| && db.locations.rows[i] == matches[0];
      assert Rekeys(LocationRowKey, WithLocationKey);
      MergeStored(db.locations, i, LocationRowOf(updated), LocationRowKey, WithLocationKey);
      successful := UpdateLocation(db, updated, updateFault);
    }
  }
}
