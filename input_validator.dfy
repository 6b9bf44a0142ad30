/** `InputValidator`: the checks that gate every search, creation and
    statistics request. The alert dialogs they show are not modelled; what
    remains is each check's verdict. */
module InputValidator {
  import opened Text
  import opened Entities

  /** `inputValidForSearch`: a search needs a character name or a title. */
  function InputValidForSearch(characterName: string, cartoonTitle: string): (valid: bool)
    ensures !valid <==> characterName == [] && cartoonTitle == []
  {
    !(IsEmpty(characterName) && IsEmpty(cartoonTitle))
  }

  /** `inputValidForCartoonCreation`: a cartoon needs a name and a description. */
  function InputValidForCartoonCreation(cartoonName: string, cartoonDescription: string): (valid: bool)
    ensures valid <==> |cartoonName| > 0 && |cartoonDescription| > 0
  {
    !(IsEmpty(cartoonName) || IsEmpty(cartoonDescription))
  }

  /** `inputValidForLocationCreation`: a location needs its cartoon, a name
      and a description. */
  function InputValidForLocationCreation(cartoonName: string, locationName: string,
                                         locationDescription: string): (valid: bool)
    ensures valid <==> forall s :: s in [cartoonName, locationName, locationDescription] ==> |s| > 0
  {
    !(IsEmpty(cartoonName) || IsEmpty(locationName) || IsEmpty(locationDescription))
  }

  /** `inputValidForCharacterCreation`: a character needs its cartoon, its
      location, a name and a description. */
  function InputValidForCharacterCreation(cartoonName: string, locationName: string, characterName: string,
                                          characterDescription: string): (valid: bool)
    ensures valid <==> forall s :: s in [cartoonName, locationName, characterName, characterDescription] ==> |s| > 0
  {
    !(IsEmpty(cartoonName) || IsEmpty(locationName) || IsEmpty(characterName) || IsEmpty(characterDescription))
  }

  /** Only the zero-length string is missing: one blank is a value. */
  lemma BlankCountsAsGiven(blank: string)
    requires blank != [] && forall i :: 0 <= i < |blank| ==> blank[i] == ' '
    ensures InputValidForSearch(blank, "") && InputValidForSearch("", blank)
    ensures InputValidForCartoonCreation(blank, blank)
    ensures InputValidForLocationCreation(blank, blank, blank)
    ensures InputValidForCharacterCreation(blank, blank, blank, blank)
  {
  }

  /** `validateStatisticsSelection`: the search produced results and one of
      them is selected. */
  function ValidateStatisticsSelection<T>(characterList: seq<T>, selected: Option<T>): (valid: bool)
    ensures characterList == [] ==> !valid
    ensures characterList != [] ==> (valid <==> selected.Some?)
  {
    if |characterList| == 0 then false
    else if selected.None? then false
    else true
  }

  /** `imageFileValid`: the format name of the last image reader offered for
      the file, or null when the stream cannot be opened (`fault`) or no
      reader recognises the file. */
  method ImageFileValid(readerFormats: seq<string>, fault: bool) returns (formatName: Option<string>)
    ensures formatName.None? <==> fault || readerFormats == []
    ensures formatName.Some? ==> formatName.value == readerFormats[|readerFormats| - 1]
  {
    formatName := None;
    if fault {
      return;
    }
    var i := 0;
    while i < |readerFormats|
      invariant 0 <= i <= |readerFormats|
      invariant formatName.None? <==> i == 0
      invariant formatName.Some? ==> formatName.value == readerFormats[i - 1]
    {
      formatName := Some(readerFormats[i]);
      i := i + 1;
    }
  }
}
