/** `SaveCharacterTask`: adds a character and its demographic unless a
    character of that name already lives at the given location. */
module SaveCharacter {
  import opened Entities
  import opened Tables
  import opened Queries
  import opened Store
  import opened CharacterData

  const Saved: string := "Character saved successfully."
  const NotSaved: string := "Error! The character could not be saved."

  class SaveCharacterTask {
    const character: CartoonCharacter
    const cartoonLocation: Option<CartoonLocation>
    const characterDemographic: CharacterDemographic
    var successful: bool

    constructor (character: CartoonCharacter, cartoonLocation: Option<CartoonLocation>,
                 characterDemographic: CharacterDemographic)
      ensures this.character == character && this.cartoonLocation == cartoonLocation
      ensures this.characterDemographic == characterDemographic && !successful
    {
      this.character := character;
      this.cartoonLocation := cartoonLocation;
      this.characterDemographic := characterDemographic;
      successful := false;
    }

    function Message(): string
      reads this
    {
      if successful then Saved else NotSaved
    }

    /** `call`: the duplicate check looks at the character's name and the
        given location only; when it finds nothing, the outcome of
        `addCharacter` is the task's outcome, and a failure after the
        character's `persist` leaves the generated key in the object. */
    method Call(db: Catalogue, findFault: bool, persistFault: bool, commitFault: bool)
      requires db.Valid()
      modifies this, db, character
      ensures db.Valid()
      ensures var found := !findFault && |CharactersNamedAt(old(db.characters.rows), old(character.characterName),
                                                             LocationKey(cartoonLocation))| == 1;
              && (successful <==> !found && !persistFault && !commitFault)
              && (!found && !persistFault ==> character.characterId == old(db.characters.next))
              && (found || persistFault ==> character.characterId == old(character.characterId))
      ensures successful ==> db.Snapshot() == old(db.Snapshot()).(
                characters := Persist(old(db.characters), old(RowOf(character)), WithCharacterKey),
                demographics := Persist(old(db.demographics), characterDemographic.(characterId := Some(old(db.characters.next))),
                                        WithDemographicKey))
      ensures !successful ==> db.Snapshot() == old(db.Snapshot())
      ensures character.characterName == old(character.characterName) && character.characterHome == old(character.characterHome)
      ensures Message() == if successful then Saved else NotSaved
      ensures (!findFault && LocationKey(old(character.characterHome)) == LocationKey(cartoonLocation)
               && CharacterNamesUniquePerLocation(old(db.characters.rows)))
              ==> CharacterNamesUniquePerLocation(db.characters.rows)
    {
      ghost var before := db.characters;
      ghost var row := RowOf(character);
      var existing := FindCartoonCharacterAt(db, character.GetCharacterName(), cartoonLocation, findFault);
      if existing != null {
        successful := false;
      } else {
        if !findFault && row.homeId == LocationKey(cartoonLocation) && CharacterNamesUniquePerLocation(before.rows) {
          UniqueCharacterNamesMatchAtMostOnce(before.rows, row.characterName, row.homeId);
          GuardedAddKeepsCharacterNamesUnique(before.rows, WithCharacterKey(row, before.next));
        }
        successful := AddCharacter(db, character, characterDemographic, persistFault, commitFault);
      }
    }
  }
}
