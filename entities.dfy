/** The catalogue's entities. Rows of the tables refer to their parents by
    key; the values a lookup hands back carry their parents (Hibernate loads a
    `@ManyToOne` association with the entity). `CartoonCharacter` is the one
    entity that the tasks change through its setters, so it is a class. */
module Entities {

  datatype Option<T> = None | Some(value: T)

  /** Reference data: a code ("M", "F", "U" or "N") and its description. */
  datatype Gender = Gender(gender: string, description: string)

  /** A row of the cartoon table, which is also the loaded entity. */
  datatype Cartoon = Cartoon(cartoonId: int, title: string, description: string)

  /** A row of the cartoon_location table; the owning cartoon by key. */
  datatype LocationRow = LocationRow(locationId: int, locationName: string, description: string,
                                     cartoonId: Option<int>)

  /** A loaded `CartoonLocation`, holding its cartoon (null when the row has none). */
  datatype CartoonLocation = CartoonLocation(locationId: int, locationName: string, description: string,
                                             cartoon: Option<Cartoon>)

  /** A row of the cartoon_character table; the home location by key. */
  datatype CharacterRow = CharacterRow(characterId: int, characterName: string, description: string,
                                       homeId: Option<int>)

  /** A row of the character_demographic table, which is also the loaded
      entity; `villain` is the nullable tri-state flag. */
  datatype CharacterDemographic = CharacterDemographic(demographicId: int, gender: Option<Gender>,
                                                       villain: Option<bool>, characterId: Option<int>)

  /** `CartoonPicture`, `LocationPicture` and `CharacterPicture` have one
      shape: a key, the stored path, and the key of the owning cartoon,
      location or character. */
  datatype Picture = Picture(pictureId: int, pictureLocation: string, ownerId: Option<int>)

  /** `SavePictureTask.PictureType`. */
  datatype PictureType = CARTOON | LOCATION | CHARACTER

  /** The key a foreign-key column receives for an associated location. */
  function LocationKey(home: Option<CartoonLocation>): Option<int> {
    if home.Some? then Some(home.value.locationId) else None
  }

  /** The key a foreign-key column receives for an associated cartoon. */
  function CartoonKeyOf(cartoon: Option<Cartoon>): Option<int> {
    if cartoon.Some? then Some(cartoon.value.cartoonId) else None
  }

  /** A cartoon character entity; its properties change through setters. */
  class CartoonCharacter {
    var characterId: int
    var characterName: string
    var description: string
    var characterHome: Option<CartoonLocation>

    constructor (id: int, name: string, description: string, home: Option<CartoonLocation>)
      ensures characterId == id && characterName == name
      ensures this.description == description && characterHome == home
    {
      characterId := id;
      characterName := name;
      this.description := description;
      characterHome := home;
    }

    function GetCharacterName(): string
      reads this
    {
      characterName
    }

    function GetCharacterHome(): Option<CartoonLocation>
      reads this
    {
      characterHome
    }

    /** The title of the home location's cartoon, or null when the character
        has no home or the home has no cartoon. */
    function GetCartoonTitle(): (title: Option<string>)
      reads this
      ensures title.Some? <==> characterHome.Some? && characterHome.value.cartoon.Some?
      ensures title.Some? ==> title.value == characterHome.value.cartoon.value.title
    {
      match characterHome
      case Some(home) =>
        (match home.cartoon
         case Some(cartoon) => Some(cartoon.title)
         case None => None)
      case None => None
    }

    method SetCharacterName(name: string)
      modifies this
      ensures GetCharacterName() == name
      ensures characterId == old(characterId) && description == old(description)
      ensures characterHome == old(characterHome)
    {
      characterName := name;
    }

    method SetCharacterHome(home: Option<CartoonLocation>)
      modifies this
      ensures GetCharacterHome() == home
      ensures GetCartoonTitle() == if home.Some? && home.value.cartoon.Some?
                                   then Some(home.value.cartoon.value.title) else None
      ensures characterId == old(characterId) && characterName == old(characterName)
      ensures description == old(description)
    {
      characterHome := home;
    }

    method SetDescription(description: string)
      modifies this
      ensures this.description == description
      ensures characterId == old(characterId) && characterName == old(characterName)
      ensures characterHome == old(characterHome)
    {
      this.description := description;
    }
  }
}
