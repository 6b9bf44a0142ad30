/** `DeletePictureTask`: deletes a picture file and then every row recording
    its path, in all three picture tables. */
module DeletePicture {
  import opened Entities
  import opened Tables
  import opened Queries
  import opened Store
  import opened PictureData
  import opened FileUtil

  const Deleted: string := "The picture was deleted successfully."
  const NotDeleted: string := "An error occurred while deleting the picture."

  /** A picture table after `deletePicture(path)` with the given outcome. */
  function AfterDelete(t: Table<Picture>, path: string, fault: bool): (r: Table<Picture>)
    ensures r.next == t.next
    ensures forall p :: p in r.rows <==> p in t.rows && (fault || p.pictureLocation != path)
  {
    if fault then t else Table(WithoutPath(t.rows, path), t.next)
  }

  class DeletePictureTask {
    /** The path of the picture file to delete. */
    const imageFile: string
    const pictureType: PictureType
    const cartoonPicture: Option<Picture>
    const locationPicture: Option<Picture>
    const characterPicture: Option<Picture>
    var successful: bool

    constructor (imageFile: string, pictureType: PictureType, cartoonPicture: Option<Picture>,
                 locationPicture: Option<Picture>, characterPicture: Option<Picture>)
      ensures this.imageFile == imageFile && this.pictureType == pictureType
      ensures this.cartoonPicture == cartoonPicture && this.locationPicture == locationPicture
      ensures this.characterPicture == characterPicture && !successful
    {
      this.imageFile := imageFile;
      this.pictureType := pictureType;
      this.cartoonPicture := cartoonPicture;
      this.locationPicture := locationPicture;
      this.characterPicture := characterPicture;
      successful := false;
    }

    function Message(): string
      reads this
    {
      if successful then Deleted else NotDeleted
    }

    /** The picture object of the selected type, whose path is deleted. */
    function Selected(): Option<Picture> {
      match pictureType
      case CARTOON => cartoonPicture
      case LOCATION => locationPicture
      case CHARACTER => characterPicture
    }

    /** `deleteCartoonPicture`, `deleteLocationPicture` and
        `deleteCharacterPicture` in that order, each overwriting
        `successful`: the last table's outcome is the task's. */
    method DeleteRows(db: Catalogue, path: string, cartoonFault: bool, locationFault: bool, characterFault: bool)
      requires db.Valid()
      modifies this, db
      ensures db.Valid()
      ensures successful == !characterFault
      ensures db.cartoonPictures == AfterDelete(old(db.cartoonPictures), path, cartoonFault)
      ensures db.locationPictures == AfterDelete(old(db.locationPictures), path, locationFault)
      ensures db.characterPictures == AfterDelete(old(db.characterPictures), path, characterFault)
      ensures db.cartoons == old(db.cartoons) && db.locations == old(db.locations)
      ensures db.characters == old(db.characters) && db.demographics == old(db.demographics)
    {
      ghost var locations, characters := db.locationPictures, db.characterPictures;
      successful := DeletePicture(db, CARTOON, path, cartoonFault);
      assert db.Pictures(LOCATION) == locations && db.Pictures(CHARACTER) == characters;
      ghost var cartoons := db.cartoonPictures;
      successful := DeletePicture(db, LOCATION, path, locationFault);
      assert db.Pictures(CARTOON) == cartoons && db.Pictures(CHARACTER) == characters;
      ghost var locationsAfter := db.locationPictures;
      successful := DeletePicture(db, CHARACTER, path, characterFault);
      assert db.Pictures(CARTOON) == cartoons && db.Pictures(LOCATION) == locationsAfter;
    }

    /** `call`: when the file is deleted, the selected picture's path is
        deleted from all three picture tables; when the file is not deleted,
        no row is touched. A missing picture object of the selected type
        stops the task before any row is deleted. */
    method Call(db: Catalogue, disk: Disk, cartoonFault: bool, locationFault: bool, characterFault: bool)
      requires db.Valid() && disk.Valid()
      modifies this, db, disk
      ensures db.Valid() && disk.Valid()
      ensures disk.files == old(disk.files) - {imageFile} && disk.dirs == old(disk.dirs)
      ensures var proceeds := imageFile in old(disk.files) && Selected().Some?;
              && (successful <==> proceeds && !characterFault)
              && (!proceeds ==> db.Snapshot() == old(db.Snapshot()))
              && (proceeds ==> var path := Selected().value.pictureLocation;
                    && db.cartoonPictures == AfterDelete(old(db.cartoonPictures), path, cartoonFault)
                    && db.locationPictures == AfterDelete(old(db.locationPictures), path, locationFault)
                    && db.characterPictures == AfterDelete(old(db.characterPictures), path, characterFault))
      ensures db.cartoons == old(db.cartoons) && db.locations == old(db.locations)
      ensures db.characters == old(db.characters) && db.demographics == old(db.demographics)
      ensures Message() == if successful then Deleted else NotDeleted
    {
      successful := false;
      var deleted := disk.DeleteImage(imageFile);
      if !deleted {
        return;
      }
      var picture := Selected();
      if picture.None? {
        return;
      }
      DeleteRows(db, picture.value.pictureLocation, cartoonFault, locationFault, characterFault);
    }
  }

  /** Whatever its outcome, a deletion keeps a picture table's keys and its
      one-row-per-path-and-owner rule, and a deletion that commits leaves no
      row with the path. */
  lemma AfterDeleteKeepsInvariants(t: Table<Picture>, path: string, fault: bool)
    requires WellKeyed(t, PictureKey)
    ensures WellKeyed(AfterDelete(t, path, fault), PictureKey)
    ensures OnePicturePerPathAndOwner(t.rows) ==> OnePicturePerPathAndOwner(AfterDelete(t, path, fault).rows)
    ensures !fault ==> forall p :: p in AfterDelete(t, path, fault).rows ==> p.pictureLocation != path
  {
    DeleteKeepsInvariants(t, path);
  }
}
