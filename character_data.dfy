/** `SimpleCharacterDataAccess`: the character search and the reads and
    writes of the character table. A loaded character is a fresh
    `CartoonCharacter` object holding its home location, which holds its
    cartoon. `fault` stands for the exception each method catches and logs. */
module CharacterData {
  import opened Text
  import opened Entities
  import opened Tables
  import opened Queries
  import opened Store

  /** `ch` is the object Hibernate builds from `row`. */
  predicate Loads(db: Catalogue, ch: CartoonCharacter, row: CharacterRow)
    reads db, ch
  {
    && ch.characterId == row.characterId
    && ch.characterName == row.characterName
    && ch.description == row.description
    && ch.characterHome == HomeOf(db.locations.rows, db.cartoons.rows, row)
  }

  /** The row that `persist` or `merge` writes for a character object. */
  function RowOf(ch: CartoonCharacter): CharacterRow
    reads ch
  {
    CharacterRow(ch.characterId, ch.characterName, ch.description, LocationKey(ch.characterHome))
  }

  /** Writing back a loaded character gives its row again, provided its
      home key (if any) refers to a stored location. */
  lemma LoadThenStore(db: Catalogue, ch: CartoonCharacter, row: CharacterRow)
    requires Loads(db, ch, row)
    requires row.homeId.Some? ==> Stored(db.locations.rows, LocationRowKey, row.homeId.value)
    ensures RowOf(ch) == row
  {
  }

  /** The search: the characters the join reaches whose name contains
      `characterName` and whose cartoon's title contains `cartoonTitle`,
      both ignoring case, an empty filter matching everything. Empty on
      failure, never null. */
  method FindCartoonCharacters(db: Catalogue, characterName: string, cartoonTitle: string, fault: bool)
    returns (matching: seq<CartoonCharacter>)
    ensures fault ==> matching == []
    ensures !fault ==> |matching| == |SearchResults(db.characters.rows, db.locations.rows, db.cartoons.rows, characterName, cartoonTitle)|
    ensures !fault ==> forall i :: 0 <= i < |matching| ==>
              Loads(db, matching[i], SearchResults(db.characters.rows, db.locations.rows, db.cartoons.rows, characterName, cartoonTitle)[i])
    ensures forall i :: 0 <= i < |matching| ==> matching[i].GetCartoonTitle().Some?
    ensures forall i :: 0 <= i < |matching| && !IsEmpty(characterName) ==>
              Contains(Lower(matching[i].characterName), Lower(characterName))
    ensures forall i :: 0 <= i < |matching| && !IsEmpty(cartoonTitle) ==>
              Contains(Lower(matching[i].GetCartoonTitle().value), Lower(cartoonTitle))
  {
    matching := [];
    if fault {
      return;
    }
    var list := SearchResults(db.characters.rows, db.locations.rows, db.cartoons.rows, characterName, cartoonTitle);
    var i := 0;
    while i < |list|
      invariant 0 <= i <= |list|
      invariant |matching| == i
      invariant forall j :: 0 <= j < i ==> Loads(db, matching[j], list[j])
    {
      var row := list[i];
      var ch := new CartoonCharacter(row.characterId, row.characterName, row.description,
                                     HomeOf(db.locations.rows, db.cartoons.rows, row));
      matching := matching + [ch];
      i := i + 1;
    }
    forall j | 0 <= j < |matching|
      ensures matching[j].GetCartoonTitle() == JoinedTitle(db.locations.rows, db.cartoons.rows, list[j])
      ensures MatchesSearch(db.locations.rows, db.cartoons.rows, list[j], characterName, cartoonTitle)
    {
      assert list[j] in list;
    }
  }

  /** The character named exactly `name`; null when none or several match,
      or on failure. */
  method FindCartoonCharacter(db: Catalogue, name: string, fault: bool) returns (ch: CartoonCharacter?)
    ensures ch != null <==> !fault && |CharactersNamed(db.characters.rows, name)| == 1
    ensures ch != null ==> fresh(ch) && ch.characterName == name
    ensures ch != null ==> Loads(db, ch, CharactersNamed(db.characters.rows, name)[0])
  {
    if fault {
      return null;
    }
    var matches := CharactersNamed(db.characters.rows, name);
    match UniqueResult(matches)
    case Some(row) =>
      assert row in matches;
      ch := new CartoonCharacter(row.characterId, row.characterName, row.description,
                                 HomeOf(db.locations.rows, db.cartoons.rows, row));
    case None =>
      ch := null;
  }

  /** The character named exactly `name` whose home is `location`; null
      when none or several match, when no location is given, or on failure. */
  method FindCartoonCharacterAt(db: Catalogue, name: string, location: Option<CartoonLocation>, fault: bool)
    returns (ch: CartoonCharacter?)
    ensures ch != null <==> !fault && |CharactersNamedAt(db.characters.rows, name, LocationKey(location))| == 1
    ensures ch != null ==> fresh(ch) && ch.characterName == name && location.Some?
    ensures ch != null ==> Loads(db, ch, CharactersNamedAt(db.characters.rows, name, LocationKey(location))[0])
  {
    if fault {
      return null;
    }
    var matches := CharactersNamedAt(db.characters.rows, name, LocationKey(location));
    match UniqueResult(matches)
    case Some(row) =>
      assert row in matches;
      ch := new CartoonCharacter(row.characterId, row.characterName, row.description,
                                 HomeOf(db.locations.rows, db.cartoons.rows, row));
    case None =>
      ch := null;
  }

  /** The names of the characters living at `location`; null on failure,
      including the null pointer dereferenced when no location is given. */
  method FindCartoonCharacterNames(db: Catalogue, location: Option<CartoonLocation>, fault: bool)
    returns (names: Option<seq<string>>)
    ensures names.None? <==> fault || location.None?
    ensures names.Some? ==> var rows := CharactersAt(db.characters.rows, location.value.locationId);
              |names.value| == |rows| && forall i :: 0 <= i < |rows| ==> names.value[i] == rows[i].characterName
    ensures names.Some? ==> forall n :: n in names.value <==>
              exists c :: c in db.characters.rows && c.homeId == Some(location.value.locationId) && c.characterName == n
  {
    if fault || location.None? {
      return None;
    }
    names := Some(CharacterNames(CharactersAt(db.characters.rows, location.value.locationId)));
  }

  /** Persists the character and then its demographic in one transaction.
      `persist` writes the generated key into the character object, and the
      demographic row refers to that key. `persistFault` stands for a failure
      of the character's own `persist`, before it holds a key; `commitFault`
      for a failure of the demographic's `persist` or of the commit, after
      the key is written into the object, where it stays. On either failure
      nothing is stored. */
  method AddCharacter(db: Catalogue, character: CartoonCharacter, demographic: CharacterDemographic,
                      persistFault: bool, commitFault: bool)
    returns (ok: bool)
    requires db.Valid()
    modifies db, character
    ensures db.Valid()
    ensures ok == (!persistFault && !commitFault)
    ensures !persistFault ==> character.characterId == old(db.characters.next)
    ensures persistFault ==> character.characterId == old(character.characterId)
    ensures ok ==> db.Snapshot() == old(db.Snapshot()).(
              characters := Persist(old(db.characters), old(RowOf(character)), WithCharacterKey),
              demographics := Persist(old(db.demographics), demographic.(characterId := Some(old(db.characters.next))),
                                      WithDemographicKey))
    ensures !ok ==> db.Snapshot() == old(db.Snapshot())
    ensures character.characterName == old(character.characterName) && character.description == old(character.description)
    ensures character.characterHome == old(character.characterHome)
  {
    if persistFault {
      return false;
    }
    var row := RowOf(character);
    var characters, demographics := db.characters, db.demographics;
    assert Rekeys(CharacterKey, WithCharacterKey);
    PersistFresh(characters, row, CharacterKey, WithCharacterKey);
    var d := demographic.(characterId := Some(characters.next));
    assert Rekeys(DemographicKey, WithDemographicKey);
    PersistFresh(demographics, d, DemographicKey, WithDemographicKey);
    character.characterId := characters.next;
    if commitFault {
      return false;
    }
    db.SetCharacters(Persist(characters, row, WithCharacterKey));
    db.SetDemographics(Persist(demographics, d, WithDemographicKey));
    return true;
  }

  /** Merges the character and then its demographic in one transaction;
      on failure nothing changes. */
  method UpdateCharacter(db: Catalogue, character: CartoonCharacter, demographic: CharacterDemographic, fault: bool)
    returns (ok: bool)
    requires db.Valid()
    modifies db
    ensures db.Valid()
    ensures ok == !fault
    ensures ok ==> db.Snapshot() == old(db.Snapshot()).(
              characters := Merge(old(db.characters), RowOf(character), CharacterKey, WithCharacterKey),
              demographics := Merge(old(db.demographics), demographic, DemographicKey, WithDemographicKey))
    ensures !ok ==> db.Snapshot() == old(db.Snapshot())
  {
    if fault {
      return false;
    }
    assert Rekeys(CharacterKey, WithCharacterKey);
    MergeThenLookup(db.characters, RowOf(character), CharacterKey, WithCharacterKey);
    db.SetCharacters(Merge(db.characters, RowOf(character), CharacterKey, WithCharacterKey));
    assert Rekeys(DemographicKey, WithDemographicKey);
    MergeThenLookup(db.demographics, demographic, DemographicKey, WithDemographicKey);
    db.SetDemographics(Merge(db.demographics, demographic, DemographicKey, WithDemographicKey));
    return true;
  }
}
