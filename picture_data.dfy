/** `CartoonPictureDataAccess`, `LocationPictureDataAccess` and
    `CharacterPictureDataAccess`: the three classes do the same thing, each
    on its own table, so one set of operations takes the table's kind.
    `fault` stands for the exception each method catches and logs. */
module PictureData {
  import opened Entities
  import opened Tables
  import opened Queries
  import opened Store

  /** The pictures owned by `ownerId`, in table order; empty on failure,
      never null. */
  method FindPictures(db: Catalogue, kind: PictureType, ownerId: int, fault: bool) returns (pictures: seq<Picture>)
    ensures fault ==> pictures == []
    ensures !fault ==> pictures == PicturesOf(db.Pictures(kind).rows, ownerId)
  {
    pictures := [];
    if fault {
      return;
    }
    var rows := db.Pictures(kind).rows;
    var i := 0;
    while i < |rows|
      invariant 0 <= i <= |rows|
      invariant pictures == PicturesOf(rows[..i], ownerId)
    {
      assert rows[..i + 1][..i] == rows[..i];
      if rows[i].ownerId == Some(ownerId) {
        pictures := pictures + [rows[i]];
      }
      i := i + 1;
    }
    assert rows[..i] == rows;
  }

  /** The picture stored with path `path` for `owner`; null when none or
      several match, when no owner is given, or on failure. */
  method FindPicture(db: Catalogue, kind: PictureType, path: string, owner: Option<int>, fault: bool)
    returns (picture: Option<Picture>)
    ensures picture.None? <==> fault || |PicturesAt(db.Pictures(kind).rows, path, owner)| != 1
    ensures picture.Some? ==> picture.value in db.Pictures(kind).rows
                              && picture.value.pictureLocation == path && owner.Some? && picture.value.ownerId == owner
  {
    if fault {
      return None;
    }
    var matches := PicturesAt(db.Pictures(kind).rows, path, owner);
    picture := UniqueResult(matches);
    if picture.Some? {
      assert picture.value in matches;
    }
  }

  /** `persist` of the picture row in its own transaction. */
  method SavePicture(db: Catalogue, kind: PictureType, picture: Picture, fault: bool) returns (ok: bool)
    requires db.Valid()
    modifies db
    ensures db.Valid()
    ensures ok == !fault
    ensures ok ==> db.Pictures(kind) == Persist(old(db.Pictures(kind)), picture, WithPictureKey)
    ensures !ok ==> db.Pictures(kind) == old(db.Pictures(kind))
    ensures forall other :: other != kind ==> db.Pictures(other) == old(db.Pictures(other))
    ensures db.cartoons == old(db.cartoons) && db.locations == old(db.locations)
    ensures db.characters == old(db.characters) && db.demographics == old(db.demographics)
  {
    if fault {
      return false;
    }
    assert Rekeys(PictureKey, WithPictureKey);
    PersistFresh(db.Pictures(kind), picture, PictureKey, WithPictureKey);
    db.SetPictures(kind, Persist(db.Pictures(kind), picture, WithPictureKey));
    return true;
  }

  /** Deletes, in one transaction, every row stored with `path` whoever
      owns it. True after the commit even when no row matched; false, with
      nothing deleted, on failure. */
  method DeletePicture(db: Catalogue, kind: PictureType, path: string, fault: bool) returns (ok: bool)
    requires db.Valid()
    modifies db
    ensures db.Valid()
    ensures ok == !fault
    ensures ok ==> db.Pictures(kind) == Table(WithoutPath(old(db.Pictures(kind)).rows, path), old(db.Pictures(kind)).next)
    ensures !ok ==> db.Pictures(kind) == old(db.Pictures(kind))
    ensures forall other :: other != kind ==> db.Pictures(other) == old(db.Pictures(other))
    ensures db.cartoons == old(db.cartoons) && db.locations == old(db.locations)
    ensures db.characters == old(db.characters) && db.demographics == old(db.demographics)
  {
    if fault {
      return false;
    }
    var table := db.Pictures(kind);
    var rows := table.rows;
    var kept := [];
    var i := 0;
    while i < |rows|
      invariant 0 <= i <= |rows|
      invariant kept == WithoutPath(rows[..i], path)
    {
      assert rows[..i + 1][..i] == rows[..i];
      if rows[i].pictureLocation != path {
        kept := kept + [rows[i]];
      }
      i := i + 1;
    }
    assert rows[..i] == rows;
    DeleteKeepsInvariants(table, path);
    db.SetPictures(kind, Table(kept, table.next));
    return true;
  }
}
