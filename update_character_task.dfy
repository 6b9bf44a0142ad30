/** `UpdateCharacterTask`: rewrites a stored character and its demographic
    with the values entered for it. */
module UpdateCharacter {
  import opened Entities
  import opened Tables
  import opened Queries
  import opened Store
  import opened CharacterData
  import opened DemographicData

  const Updated: string := "Character updated successfully."
  const UpdateFailed: string := "Error! Character update failed."
  const NoDemographic: string := "The demographic data for this character does not exist."
  const NoCharacter: string := "The character does not exist."

  class UpdateCharacterTask {
    const character: CartoonCharacter
    const characterDemographic: CharacterDemographic
    var successful: bool
    var updateMessage: string

    constructor (character: CartoonCharacter, characterDemographic: CharacterDemographic)
      ensures this.character == character && this.characterDemographic == characterDemographic
      ensures !successful && updateMessage == ""
    {
      this.character := character;
      this.characterDemographic := characterDemographic;
      successful := false;
      updateMessage := "";
    }

    /** The stored character row `row` with the entered home, name and
        description. */
    function UpdatedRow(row: CharacterRow): CharacterRow
      reads character
    {
      CharacterRow(row.characterId, character.characterName, character.description, LocationKey(character.characterHome))
    }

    /** The stored demographic `d` with the entered gender and villain flag. */
    function UpdatedDemographic(d: CharacterDemographic): CharacterDemographic {
      d.(gender := characterDemographic.gender, villain := characterDemographic.villain)
    }

    /** `call`: the character is found by its name and its demographic by
        the entered character's key; only when both exist are the two
        merged, and `updateCharacter` decides the outcome. */
    method Call(db: Catalogue, findFault: bool, demographicFault: bool, updateFault: bool)
      requires db.Valid()
      modifies this, db
      ensures db.Valid()
      ensures var rows := CharactersNamed(old(db.characters.rows), character.characterName);
              var demographics := DemographicsOf(old(db.demographics.rows), character.characterId);
              var found := !findFault && |rows| == 1;
              var demographicFound := !demographicFault && |demographics| == 1;
              && (!found ==> updateMessage == NoCharacter)
              && (found && !demographicFound ==> updateMessage == NoDemographic)
              && (successful <==> found && demographicFound && !updateFault)
              && (found && demographicFound ==> updateMessage == if successful then Updated else UpdateFailed)
              && (successful ==> db.Snapshot() == old(db.Snapshot()).(
                    characters := Merge(old(db.characters), UpdatedRow(rows[0]), CharacterKey, WithCharacterKey),
                    demographics := Merge(old(db.demographics), UpdatedDemographic(demographics[0]),
                                          DemographicKey, WithDemographicKey)))
              && (successful ==> Lookup(db.characters.rows, CharacterKey, rows[0].characterId) == Some(UpdatedRow(rows[0])))
      ensures !successful ==> db.Snapshot() == old(db.Snapshot())
      ensures successful ==> |db.characters.rows| == |old(db.characters.rows)| && db.characters.next == old(db.characters.next)
      ensures successful ==> |db.demographics.rows| == |old(db.demographics.rows)| && db.demographics.next == old(db.demographics.next)
    {
      ghost var rows := CharactersNamed(db.characters.rows, character.characterName);
      var toUpdate := FindCartoonCharacter(db, character.GetCharacterName(), findFault);
      if toUpdate == null {
        updateMessage := NoCharacter;
        successful := false;
        return;
      }
      toUpdate.SetCharacterHome(character.GetCharacterHome());
      toUpdate.SetCharacterName(character.GetCharacterName());
      toUpdate.SetDescription(character.description);
      var demographic := GetCharacterDemographic(db, character, demographicFault);
      if demographic.None? {
        updateMessage := NoDemographic;
        successful := false;
        return;
      }
      var d := UpdatedDemographic(demographic.value);
      StoredRowsMergeInPlace(db, rows[0], RowOf(toUpdate), demographic.value, d);
      successful := UpdateCharacter(db, toUpdate, d, updateFault);
      updateMessage := if successful then Updated else UpdateFailed;
    }
  }

  /** The character row and the demographic found are stored, so merging
      their updated versions rewrites rows in place. */
  lemma StoredRowsMergeInPlace(db: Catalogue, row: CharacterRow, updated: CharacterRow,
                               d: CharacterDemographic, updatedD: CharacterDemographic)
    requires db.Valid()
    requires row in db.characters.rows && updated.characterId == row.characterId
    requires d in db.demographics.rows && updatedD.demographicId == d.demographicId
    ensures var m := Merge(db.characters, updated, CharacterKey, WithCharacterKey);
            |m.rows| == |db.characters.rows| && m.next == db.characters.next
            && Lookup(m.rows, CharacterKey, row.characterId) == Some(updated)
    ensures var m := Merge(db.demographics, updatedD, DemographicKey, WithDemographicKey);
            |m.rows| == |db.demographics.rows| && m.next == db.demographics.next
  {
    var i :| 0 <= i < |db.characters.rows| && db.characters.rows[i] == row;
    assert Rekeys(CharacterKey, WithCharacterKey);
    MergeStored(db.characters, i, updated, CharacterKey, WithCharacterKey);
    var j :| 0 <= j < |db.demographics.rows| && db.demographics.rows[j] == d;
    assert Rekeys(DemographicKey, WithDemographicKey);
    MergeStored(db.demographics, j, updatedD, DemographicKey, WithDemographicKey);
  }
}
