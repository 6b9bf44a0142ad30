/** `SavePictureTask`: copies a chosen image into the cartoon's image
    directory and records it for a cartoon, a location or a character. */
module SavePicture {
  import opened Entities
  import opened Tables
  import opened Queries
  import opened Store
  import opened PictureData
  import opened FileUtil

  const Saved: string := "Picture saved successfully."
  const NotSaved: string := "Error! The picture could not be saved."

  class SavePictureTask {
    /** The path of the image file chosen for upload. */
    const imageFile: string
    const pictureType: PictureType
    const cartoon: Cartoon
    const cartoonLocation: Option<CartoonLocation>
    const cartoonCharacter: CartoonCharacter?
    var successful: bool

    constructor (imageFile: string, pictureType: PictureType, cartoon: Cartoon,
                 cartoonLocation: Option<CartoonLocation>, cartoonCharacter: CartoonCharacter?)
      ensures this.imageFile == imageFile && this.pictureType == pictureType && this.cartoon == cartoon
      ensures this.cartoonLocation == cartoonLocation && this.cartoonCharacter == cartoonCharacter
      ensures !successful
    {
      this.imageFile := imageFile;
      this.pictureType := pictureType;
      this.cartoon := cartoon;
      this.cartoonLocation := cartoonLocation;
      this.cartoonCharacter := cartoonCharacter;
      successful := false;
    }

    function Message(): string
      reads this
    {
      if successful then Saved else NotSaved
    }

    /** The key of the picture's owner, which the picture type selects; null
        when the selected location or character is null. */
    function Owner(): Option<int>
      reads cartoonCharacter
    {
      match pictureType
      case CARTOON => Some(cartoon.cartoonId)
      case LOCATION => LocationKey(cartoonLocation)
      case CHARACTER => if cartoonCharacter == null then None else Some(cartoonCharacter.characterId)
    }

    /** Where the copy of the image goes. */
    function NewImageFile(workingDir: string): string {
      GetNewImageFile(workingDir, cartoon.title, FileName(imageFile))
    }

    /** The path recorded in the database. */
    function NewImagePath(): string {
      GetNewImagePath(cartoon.title, FileName(imageFile))
    }

    /** The file half of `call`: the image is copied only when nothing is
        at the target path, after the cartoon's image directory is ensured;
        a failed copy is ignored. */
    method StoreImage(disk: Disk, workingDir: string)
      requires disk.Valid()
      modifies disk
      ensures disk.Valid()
      ensures var target := NewImageFile(workingDir);
              if target in old(disk.dirs) || target in old(disk.files)
              then disk.dirs == old(disk.dirs) && disk.files == old(disk.files)
              else disk.dirs == Disk.WithImageDirectories(old(disk.dirs), old(disk.files), workingDir, cartoon.title)
                   && disk.files == if CanCopy(disk.dirs, old(disk.files), imageFile, target)
                                    then old(disk.files)[target := old(disk.files)[imageFile]]
                                    else old(disk.files)
    {
      var newImageFile := GetNewImageFile(workingDir, cartoon.title, FileName(imageFile));
      if !(newImageFile in disk.dirs || newImageFile in disk.files) {
        disk.CreateCartoonImageDirectory(workingDir, cartoon.title);
        var _ := disk.CopyImage(imageFile, newImageFile);
      }
    }

    /** `saveCartoonPicture`, `saveLocationPicture` and
        `saveCharacterPicture`: the row is added to the table of the picture
        type unless a row with the same path and owner is found, and the
        task succeeds exactly when that add commits. */
    method SaveRow(db: Catalogue, findFault: bool, saveFault: bool)
      requires db.Valid() && !successful
      modifies this, db
      ensures db.Valid()
      ensures var found := !findFault && |PicturesAt(old(db.Pictures(pictureType).rows), NewImagePath(), Owner())| == 1;
              successful <==> !found && !saveFault
      ensures successful ==> db.Pictures(pictureType) == Persist(old(db.Pictures(pictureType)), Picture(0, NewImagePath(), Owner()), WithPictureKey)
      ensures !successful ==> db.Pictures(pictureType) == old(db.Pictures(pictureType))
      ensures forall other :: other != pictureType ==> db.Pictures(other) == old(db.Pictures(other))
      ensures db.cartoons == old(db.cartoons) && db.locations == old(db.locations)
      ensures db.characters == old(db.characters) && db.demographics == old(db.demographics)
      ensures !findFault && OnePicturePerPathAndOwner(old(db.Pictures(pictureType).rows)) ==>
                OnePicturePerPathAndOwner(db.Pictures(pictureType).rows)
    {
      var path := NewImagePath();
      var owner := Owner();
      ghost var before := db.Pictures(pictureType);
      var existing := FindPicture(db, pictureType, path, owner, findFault);
      if existing.None? {
        var picture := Picture(0, path, owner);
        if !findFault && OnePicturePerPathAndOwner(before.rows) {
          UniquePlacementMatchesAtMostOnce(before.rows, path, owner);
          NoMemberMeansEmpty(PicturesAt(before.rows, path, owner));
          GuardedAddKeepsPathsUnique(before.rows, WithPictureKey(picture, before.next));
        }
        var ok := SavePicture(db, pictureType, picture, saveFault);
        if ok {
          successful := true;
        }
      }
    }

    /** `call`: the image is stored, then the row is saved; a row saved
        records a path that locates the stored image. */
    method Call(db: Catalogue, disk: Disk, workingDir: string, findFault: bool, saveFault: bool)
      requires db.Valid() && disk.Valid()
      modifies this, db, disk
      ensures db.Valid() && disk.Valid()
      ensures var target := NewImageFile(workingDir);
              if target in old(disk.dirs) || target in old(disk.files)
              then disk.dirs == old(disk.dirs) && disk.files == old(disk.files)
              else disk.dirs == Disk.WithImageDirectories(old(disk.dirs), old(disk.files), workingDir, cartoon.title)
                   && disk.files == if CanCopy(disk.dirs, old(disk.files), imageFile, target)
                                    then old(disk.files)[target := old(disk.files)[imageFile]]
                                    else old(disk.files)
      ensures var found := !findFault && |PicturesAt(old(db.Pictures(pictureType).rows), NewImagePath(), Owner())| == 1;
              successful <==> !found && !saveFault
      ensures successful ==> db.Pictures(pictureType) == Persist(old(db.Pictures(pictureType)), Picture(0, NewImagePath(), Owner()), WithPictureKey)
      ensures !successful ==> db.Pictures(pictureType) == old(db.Pictures(pictureType))
      ensures forall other :: other != pictureType ==> db.Pictures(other) == old(db.Pictures(other))
      ensures db.cartoons == old(db.cartoons) && db.locations == old(db.locations)
      ensures db.characters == old(db.characters) && db.demographics == old(db.demographics)
      ensures !findFault && OnePicturePerPathAndOwner(old(db.Pictures(pictureType).rows)) ==>
                OnePicturePerPathAndOwner(db.Pictures(pictureType).rows)
      ensures successful ==> var rows := db.Pictures(pictureType).rows;
                             |rows| > 0 && GetImageFile(workingDir, rows[|rows| - 1].pictureLocation) == NewImageFile(workingDir)
      ensures Message() == if successful then Saved else NotSaved
    {
      successful := false;
      StoreImage(disk, workingDir);
      SaveRow(db, findFault, saveFault);
      StoredPathLocatesNewFile(workingDir, cartoon.title, FileName(imageFile));
    }
  }
}
