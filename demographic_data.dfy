/** `SimpleCharacterDemographicDataAccess`: the demographic row of a
    character. */
module DemographicData {
  import opened Entities
  import opened Queries
  import opened Store

  /** The demographic whose character key is `character`'s key; null when
      none or several match, when no character is given (the dereference
      fails inside the guarded block), or on failure. */
  method GetCharacterDemographic(db: Catalogue, character: CartoonCharacter?, fault: bool)
    returns (demographic: Option<CharacterDemographic>)
    ensures demographic.None? <==> fault || character == null
                                   || |DemographicsOf(db.demographics.rows, character.characterId)| != 1
    ensures demographic.Some? ==> demographic.value in db.demographics.rows
                                  && demographic.value.characterId == Some(character.characterId)
    ensures demographic.Some? ==> forall d :: d in db.demographics.rows && d.characterId == Some(character.characterId)
                                             ==> d == demographic.value
  {
    if fault || character == null {
      return None;
    }
    var matches := DemographicsOf(db.demographics.rows, character.characterId);
    demographic := UniqueResult(matches);
    if demographic.Some? {
      assert matches == [demographic.value];
    }
  }
}
