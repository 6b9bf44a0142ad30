/** The catalogue database: one table per entity kind, each with its own key
    sequence. The data-access modules read and write these tables. */
module Store {
  import opened Entities
  import opened Tables
  import opened Queries

  /** The contents of every table at one moment. */
  datatype State = State(cartoons: Table<Cartoon>, locations: Table<LocationRow>,
                         characters: Table<CharacterRow>, demographics: Table<CharacterDemographic>,
                         cartoonPictures: Table<Picture>, locationPictures: Table<Picture>,
                         characterPictures: Table<Picture>)

  class Catalogue {
    var cartoons: Table<Cartoon>
    var locations: Table<LocationRow>
    var characters: Table<CharacterRow>
    var demographics: Table<CharacterDemographic>
    var cartoonPictures: Table<Picture>
    var locationPictures: Table<Picture>
    var characterPictures: Table<Picture>

    /** Every table keeps distinct keys below its sequence. */
    ghost predicate Valid()
      reads this
    {
      && WellKeyed(cartoons, CartoonKey)
      && WellKeyed(locations, LocationRowKey)
      && WellKeyed(characters, CharacterKey)
      && WellKeyed(demographics, DemographicKey)
      && WellKeyed(cartoonPictures, PictureKey)
      && WellKeyed(locationPictures, PictureKey)
      && WellKeyed(characterPictures, PictureKey)
    }

    function Snapshot(): State
      reads this
    {
      State(cartoons, locations, characters, demographics, cartoonPictures, locationPictures, characterPictures)
    }

    /** An empty database whose sequences all start at 1. */
    constructor ()
      ensures Valid()
      ensures cartoons.rows == [] && locations.rows == [] && characters.rows == [] && demographics.rows == []
      ensures cartoonPictures.rows == [] && locationPictures.rows == [] && characterPictures.rows == []
    {
      cartoons := Table([], 1);
      locations := Table([], 1);
      characters := Table([], 1);
      demographics := Table([], 1);
      cartoonPictures := Table([], 1);
      locationPictures := Table([], 1);
      characterPictures := Table([], 1);
    }

    /** The picture table that holds pictures of the given kind. */
    function Pictures(kind: PictureType): Table<Picture>
      reads this
    {
      match kind
      case CARTOON => cartoonPictures
      case LOCATION => locationPictures
      case CHARACTER => characterPictures
    }

    /** Replaces the cartoons table and no other. */
    method SetCartoons(t: Table<Cartoon>)
      requires Valid() && WellKeyed(t, CartoonKey)
      modifies this
      ensures Valid()
      ensures Snapshot() == old(Snapshot()).(cartoons := t)
    {
      cartoons := t;
    }

    /** Replaces the locations table and no other. */
    method SetLocations(t: Table<LocationRow>)
      requires Valid() && WellKeyed(t, LocationRowKey)
      modifies this
      ensures Valid()
      ensures Snapshot() == old(Snapshot()).(locations := t)
    {
      locations := t;
    }

    /** Replaces the characters table and no other. */
    method SetCharacters(t: Table<CharacterRow>)
      requires Valid() && WellKeyed(t, CharacterKey)
      modifies this
      ensures Valid()
      ensures Snapshot() == old(Snapshot()).(characters := t)
    {
      characters := t;
    }

    /** Replaces the demographics table and no other. */
    method SetDemographics(t: Table<CharacterDemographic>)
      requires Valid() && WellKeyed(t, DemographicKey)
      modifies this
      ensures Valid()
      ensures Snapshot() == old(Snapshot()).(demographics := t)
    {
      demographics := t;
    }

    /** Replaces the picture table of one kind and no other table. */
    method SetPictures(kind: PictureType, t: Table<Picture>)
      requires Valid() && WellKeyed(t, PictureKey)
      modifies this
      ensures Valid()
      ensures Pictures(kind) == t
      ensures forall other :: other != kind ==> Pictures(other) == old(Pictures(other))
      ensures cartoons == old(cartoons) && locations == old(locations)
      ensures characters == old(characters) && demographics == old(demographics)
    {
      match kind
      case CARTOON => cartoonPictures := t;
      case LOCATION => locationPictures := t;
      case CHARACTER => characterPictures := t;
    }
  }
}
