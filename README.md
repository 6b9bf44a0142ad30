# Cartoon Characters catalogue — a Dafny model

Cartoon Characters is a desktop catalogue of cartoons. Each cartoon has
locations, and each location is home to characters. A character has a
demographic record (gender, villain flag). Cartoons, locations and
characters can have pictures, whose image files are copied under an `img/`
directory. This project models the core of the application in Dafny:

- the data-access layer over the catalogue database (find, add and update
  cartoons, locations, characters and demographics; find, save and delete
  pictures; gender and good-vs-evil statistics);
- the background tasks that save or update an entity or save or delete a
  picture;
- the image-file helpers (`FileUtil`): path building, directory creation,
  the buffered copy;
- the input validator that gates every request.

The database is `Store.Catalogue`, a class with one `Table` per entity kind.
A `Table` is a sequence of rows plus the table's next key.
- Hibernate's `persist` appends the row under the next key.
- `merge` replaces the row that has the same key, and persists the row when
  that key is not stored.
- `uniqueResult` gives the row when exactly one matches and null otherwise.
- Every caught `HibernateException` or `Exception` becomes a `fault`
  parameter. A fault makes the operation return its failure value (null,
  an empty list, `false`) and leaves the store unchanged.
- Rows refer to their parents by key. The entity values the application
  handles (`CartoonLocation` holding its `Cartoon`, the `CartoonCharacter`
  object holding its home) are loaded from those rows.
- `CartoonCharacter` is a class because the tasks update it through its
  setters. Every other entity is a datatype.

Uniqueness is what the save tasks protect: they look an entity up before
adding it. The model states this as invariants of the tables:
- one cartoon per title;
- one location per name (ignoring case) within a cartoon;
- one character per name within a location;
- one picture per path and owner.

For each invariant there is a lemma saying that lookups then match at most
one row. The task that adds that entity is proved to preserve it whenever its
duplicate lookup did not fail; for characters, also only when the character's
home is the location the task checks, as `AddCharacterController` arranges. A
failed lookup reads as "not found", so the add then goes ahead and may break
the invariant, as the source does.

The file system is `FileUtil.Disk`, a class holding a set of directories and
a map from file paths to contents. Paths are resolved and normalised as
`java.io.File` does on Unix. The working directory is a parameter.

## Model

| member | source | states |
|---|---|---|
| Entities.CartoonCharacter.constructor | netbeans/CartoonCharacters/src/main/java/com/daniel/cartooncharacters/entity/CartoonCharacter.java:76-78 | a character starts with the given key, name, description and home |
| Entities.CartoonCharacter.GetCartoonTitle | netbeans/CartoonCharacters/src/main/java/com/daniel/cartooncharacters/entity/CartoonCharacter.java:230-235 | a title exists exactly when the character has a home and the home has a cartoon; it is that cartoon's title |
| Entities.CartoonCharacter.SetCharacterName | netbeans/CartoonCharacters/src/main/java/com/daniel/cartooncharacters/entity/CartoonCharacter.java:126-128 | the name becomes the argument; key, description and home are unchanged |
| Entities.CartoonCharacter.SetCharacterHome | netbeans/CartoonCharacters/src/main/java/com/daniel/cartooncharacters/entity/CartoonCharacter.java:183-185 | the home becomes the argument, and the cartoon title follows the new home; the other fields are unchanged |
| Entities.CartoonCharacter.SetDescription | netbeans/CartoonCharacters/src/main/java/com/daniel/cartooncharacters/entity/CartoonCharacter.java:154-156 | the description becomes the argument; the other fields are unchanged |
| Text.LowerIdempotent | netbeans/CartoonCharacters/src/main/java/com/daniel/cartooncharacters/data/SimpleLocationDataAccess.java:68-69 | lower-casing twice equals lower-casing once, so the case-insensitive name match is stable |
| Text.ContainsItself | netbeans/CartoonCharacters/src/main/java/com/daniel/cartooncharacters/data/SimpleCharacterDataAccess.java:52-65 | every string contains itself, which is what lets a `%name%` search find its own name |
| Tables.Lookup | netbeans/CartoonCharacters/src/main/java/com/daniel/cartooncharacters/data/SimpleCartoonDataAccess.java:104-123 | a lookup by key finds a stored row with that key, and finds nothing exactly when no row has the key |
| Tables.LookupFindsUnique | netbeans/CartoonCharacters/src/main/java/com/daniel/cartooncharacters/data/SimpleCartoonDataAccess.java:104-123 | in a table with distinct keys, looking up a row's key finds that row |
| Tables.PersistFresh | netbeans/CartoonCharacters/src/main/java/com/daniel/cartooncharacters/data/SimpleCartoonDataAccess.java:82-101 | persist uses a key no row has, keeps the keys distinct, and the new row is found under its key |
| Tables.MergeThenLookup | netbeans/CartoonCharacters/src/main/java/com/daniel/cartooncharacters/data/SimpleCartoonDataAccess.java:104-123 | merge keeps the keys distinct, the merged row is found under its key, no row is lost, and rows with other keys are untouched |
| Tables.MergeStored | netbeans/CartoonCharacters/src/main/java/com/daniel/cartooncharacters/data/SimpleLocationDataAccess.java:105-124 | merging a row whose key is stored replaces that row in place: same length, same next key, the row found under its key |
| Queries.CartoonsTitled | netbeans/CartoonCharacters/src/main/java/com/daniel/cartooncharacters/data/SimpleCartoonDataAccess.java:66-68 | the rows returned are exactly the stored cartoons with that title |
| Queries.CartoonsTitledCounts | netbeans/CartoonCharacters/src/main/java/com/daniel/cartooncharacters/data/SimpleCartoonDataAccess.java:66-68 | each matching cartoon occurs in the result as often as in the table and no other row occurs, so the number of matches that `uniqueResult` tests is exact |
| Queries.Titles | netbeans/CartoonCharacters/src/main/java/com/daniel/cartooncharacters/data/SimpleCartoonDataAccess.java:44-46 | one title per cartoon, in table order |
| Queries.AddedCartoonIsFound | netbeans/CartoonCharacters/src/main/java/com/daniel/cartooncharacters/task/SaveCartoonTask.java:66-77 | after persisting a cartoon whose title was absent, looking up that title gives the new cartoon |
| Queries.UniqueTitlesMatchAtMostOnce | netbeans/CartoonCharacters/src/main/java/com/daniel/cartooncharacters/data/SimpleCartoonDataAccess.java:60-79 | when titles are unique, a title matches at most one cartoon, so `uniqueResult` cannot fail on duplicates |
| Queries.GuardedAddKeepsTitlesUnique | netbeans/CartoonCharacters/src/main/java/com/daniel/cartooncharacters/task/SaveCartoonTask.java:66-77 | adding a cartoon only when its title is absent keeps titles unique |
| Queries.LocationsOfCartoon | netbeans/CartoonCharacters/src/main/java/com/daniel/cartooncharacters/data/SimpleLocationDataAccess.java:45-48 | exactly the locations whose cartoon key is the given cartoon |
| Queries.LocationNames | netbeans/CartoonCharacters/src/main/java/com/daniel/cartooncharacters/data/SimpleLocationDataAccess.java:45-48 | the `locationName` projection: the i-th name is the i-th location's name, so names keep their order and their repetitions |
| Queries.LocationsNamed | netbeans/CartoonCharacters/src/main/java/com/daniel/cartooncharacters/data/SimpleLocationDataAccess.java:62-80 | exactly the locations whose name equals the query ignoring case |
| Queries.LocationsNamedCounts | netbeans/CartoonCharacters/src/main/java/com/daniel/cartooncharacters/data/SimpleLocationDataAccess.java:62-80 | each matching location occurs in the result as often as in the table and no other row occurs, so the number of matches that `uniqueResult` tests is exact |
| Queries.LocationsNamedIn | netbeans/CartoonCharacters/src/main/java/com/daniel/cartooncharacters/data/LocationDataAccess.java:39-47 | exactly the locations of the given cartoon whose name equals the query ignoring case; none without a cartoon |
| Queries.LocationsNamedInCounts | netbeans/CartoonCharacters/src/main/java/com/daniel/cartooncharacters/data/LocationDataAccess.java:39-47 | each matching location occurs in the result as often as in the table and no other row occurs, so the number of matches that `uniqueResult` tests is exact |
| Queries.UniqueLocationNamesMatchAtMostOnce | netbeans/CartoonCharacters/src/main/java/com/daniel/cartooncharacters/data/LocationDataAccess.java:39-47 | when location names are unique per cartoon, a name matches at most one location of a cartoon |
| Queries.GuardedAddKeepsLocationNamesUnique | netbeans/CartoonCharacters/src/main/java/com/daniel/cartooncharacters/task/SaveLocationTask.java:82-95 | adding a location only when its name is absent from its cartoon keeps names unique per cartoon |
| Queries.LocationRoundTrip | netbeans/CartoonCharacters/src/main/java/com/daniel/cartooncharacters/data/SimpleLocationDataAccess.java:83-124 | storing a location as a row and loading that row gives back the same location, when its cartoon is the stored one |
| Queries.CharactersNamed | netbeans/CartoonCharacters/src/main/java/com/daniel/cartooncharacters/data/SimpleCharacterDataAccess.java:86-104 | exactly the characters with that name |
| Queries.CharactersNamedCounts | netbeans/CartoonCharacters/src/main/java/com/daniel/cartooncharacters/data/SimpleCharacterDataAccess.java:86-104 | each matching character occurs in the result as often as in the table and no other row occurs, so the number of matches that `uniqueResult` tests is exact |
| Queries.CharactersNamedAt | netbeans/CartoonCharacters/src/main/java/com/daniel/cartooncharacters/task/SaveCharacterTask.java:77-78 | exactly the characters with that name whose home is the given location; none without a location |
| Queries.CharactersNamedAtCounts | netbeans/CartoonCharacters/src/main/java/com/daniel/cartooncharacters/task/SaveCharacterTask.java:77-78 | each matching character occurs in the result as often as in the table and no other row occurs, so the number of matches that `uniqueResult` tests is exact |
| Queries.UniqueCharacterNamesMatchAtMostOnce | netbeans/CartoonCharacters/src/main/java/com/daniel/cartooncharacters/task/SaveCharacterTask.java:77-78 | when character names are unique per location, a name matches at most one character of a location |
| Queries.GuardedAddKeepsCharacterNamesUnique | netbeans/CartoonCharacters/src/main/java/com/daniel/cartooncharacters/task/SaveCharacterTask.java:76-85 | adding a character only when its name is absent from its location keeps names unique per location |
| Queries.CharactersAt | netbeans/CartoonCharacters/src/main/java/com/daniel/cartooncharacters/data/SimpleCharacterDataAccess.java:112-115 | exactly the characters whose home is the given location |
| Queries.CharacterNames | netbeans/CartoonCharacters/src/main/java/com/daniel/cartooncharacters/data/SimpleCharacterDataAccess.java:112-115 | the `characterName` projection: the i-th name is the i-th character's name, so names keep their order and their repetitions |
| Queries.SearchResults | netbeans/CartoonCharacters/src/main/java/com/daniel/cartooncharacters/data/SimpleCharacterDataAccess.java:42-83 | exactly the characters joined to a location and cartoon whose name and title contain the non-empty search terms, ignoring case |
| Queries.UnfilteredSearchIsJoin | netbeans/CartoonCharacters/src/main/java/com/daniel/cartooncharacters/data/SimpleCharacterDataAccess.java:47-57 | with both terms empty, the search returns exactly the characters whose home joins to a cartoon |
| Queries.SearchFindsByOwnName | netbeans/CartoonCharacters/src/main/java/com/daniel/cartooncharacters/data/SimpleCharacterDataAccess.java:52-65 | a joined character is found by its own name in any letter case |
| Queries.DemographicsOf | netbeans/CartoonCharacters/src/main/java/com/daniel/cartooncharacters/data/SimpleCharacterDemographicDataAccess.java:42-44 | exactly the demographic rows of that character |
| Queries.DemographicsOfCounts | netbeans/CartoonCharacters/src/main/java/com/daniel/cartooncharacters/data/SimpleCharacterDemographicDataAccess.java:42-44 | each matching demographic row occurs in the result as often as in the table and no other row occurs, so the number of matches that `uniqueResult` tests is exact |
| Queries.PicturesOf | netbeans/CartoonCharacters/src/main/java/com/daniel/cartooncharacters/data/CartoonPictureDataAccess.java:57-78 | exactly the pictures of that owner, in table order |
| Queries.PicturesAt | netbeans/CartoonCharacters/src/main/java/com/daniel/cartooncharacters/data/CartoonPictureDataAccess.java:88-105 | exactly the pictures with that path and that owner; none without an owner |
| Queries.PicturesAtCounts | netbeans/CartoonCharacters/src/main/java/com/daniel/cartooncharacters/data/CartoonPictureDataAccess.java:88-105 | each matching picture occurs in the result as often as in the table and no other row occurs, so the number of matches that `uniqueResult` tests is exact |
| Queries.WithoutPath | netbeans/CartoonCharacters/src/main/java/com/daniel/cartooncharacters/data/CartoonPictureDataAccess.java:138-159 | exactly the pictures whose path differs from the deleted one |
| Queries.DeleteChangesNothingIff | netbeans/CartoonCharacters/src/main/java/com/daniel/cartooncharacters/data/CartoonPictureDataAccess.java:138-159 | a delete leaves the table as it was if and only if no picture has the path |
| Queries.GuardedAddKeepsPathsUnique | netbeans/CartoonCharacters/src/main/java/com/daniel/cartooncharacters/task/SavePictureTask.java:166-216 | saving a picture only when its path and owner are absent keeps one picture per path and owner |
| Queries.UniquePlacementMatchesAtMostOnce | netbeans/CartoonCharacters/src/main/java/com/daniel/cartooncharacters/data/CartoonPictureDataAccess.java:88-105 | with one picture per path and owner, a path and owner match at most one picture |
| Queries.DeleteKeepsPairwise | netbeans/CartoonCharacters/src/main/java/com/daniel/cartooncharacters/data/CartoonPictureDataAccess.java:138-159 | deleting rows keeps any property that held between every two rows |
| Queries.DeleteKeepsInvariants | netbeans/CartoonCharacters/src/main/java/com/daniel/cartooncharacters/data/CartoonPictureDataAccess.java:138-159 | a delete keeps the keys distinct and keeps one picture per path and owner |
| Store.Catalogue.SetCartoons | netbeans/CartoonCharacters/src/main/java/com/daniel/cartooncharacters/data/SimpleCartoonDataAccess.java:86-88 | a committed transaction replaces the cartoons table and no other |
| Store.Catalogue.SetLocations | netbeans/CartoonCharacters/src/main/java/com/daniel/cartooncharacters/data/SimpleLocationDataAccess.java:87-89 | a committed transaction replaces the locations table and no other |
| Store.Catalogue.SetCharacters | netbeans/CartoonCharacters/src/main/java/com/daniel/cartooncharacters/data/SimpleCharacterDataAccess.java:133-137 | a committed transaction replaces the characters table and no other |
| Store.Catalogue.SetDemographics | netbeans/CartoonCharacters/src/main/java/com/daniel/cartooncharacters/data/SimpleCharacterDataAccess.java:133-137 | a committed transaction replaces the demographics table and no other |
| Store.Catalogue.SetPictures | netbeans/CartoonCharacters/src/main/java/com/daniel/cartooncharacters/data/CartoonPictureDataAccess.java:117-119 | a committed transaction replaces one picture table and no other table |
| CartoonData.FindAllCartoonNames | netbeans/CartoonCharacters/src/main/java/com/daniel/cartooncharacters/data/SimpleCartoonDataAccess.java:39-57 | every cartoon's title in table order, or null on a fault |
| CartoonData.FindCartoon | netbeans/CartoonCharacters/src/main/java/com/daniel/cartooncharacters/data/SimpleCartoonDataAccess.java:60-79 | the stored cartoon with that title when exactly one has it; null when none or several do, or on a fault |
| CartoonData.AddCartoon | netbeans/CartoonCharacters/src/main/java/com/daniel/cartooncharacters/data/SimpleCartoonDataAccess.java:82-101 | true exactly when there is no fault; then the cartoon is persisted under a fresh key and nothing else changes |
| CartoonData.UpdateCartoon | netbeans/CartoonCharacters/src/main/java/com/daniel/cartooncharacters/data/SimpleCartoonDataAccess.java:104-123 | true exactly when there is no fault; then the cartoon is merged and nothing else changes |
| LocationData.FindCartoonLocationNames | netbeans/CartoonCharacters/src/main/java/com/daniel/cartooncharacters/data/SimpleLocationDataAccess.java:40-59 | the i-th name is the name of the i-th location of the given cartoon, one name per location; null on a fault or without a cartoon |
| LocationData.FindCartoonLocation | netbeans/CartoonCharacters/src/main/java/com/daniel/cartooncharacters/data/SimpleLocationDataAccess.java:62-80 | the location whose name matches ignoring case when exactly one does, loaded with its cartoon; null otherwise or on a fault |
| LocationData.FindCartoonLocationIn | netbeans/CartoonCharacters/src/main/java/com/daniel/cartooncharacters/data/LocationDataAccess.java:39-47 | the location of the given cartoon whose name matches ignoring case, when exactly one does; null otherwise, without a cartoon, or on a fault |
| LocationData.AddLocation | netbeans/CartoonCharacters/src/main/java/com/daniel/cartooncharacters/data/SimpleLocationDataAccess.java:83-102 | true exactly when there is no fault; then the location's row is persisted and nothing else changes |
| LocationData.UpdateLocation | netbeans/CartoonCharacters/src/main/java/com/daniel/cartooncharacters/data/SimpleLocationDataAccess.java:105-124 | true exactly when there is no fault; then the location's row is merged and nothing else changes |
| CharacterData.LoadThenStore | netbeans/CartoonCharacters/src/main/java/com/daniel/cartooncharacters/data/SimpleCharacterDataAccess.java:152-172 | a character loaded from a row is stored back as the same row |
| CharacterData.FindCartoonCharacters | netbeans/CartoonCharacters/src/main/java/com/daniel/cartooncharacters/data/SimpleCharacterDataAccess.java:42-83 | one loaded character per search result, in order, each with a cartoon title and matching the non-empty terms; empty on a fault |
| CharacterData.FindCartoonCharacter | netbeans/CartoonCharacters/src/main/java/com/daniel/cartooncharacters/data/SimpleCharacterDataAccess.java:86-104 | a new character object loaded from the one row with that name; null when none or several match, or on a fault |
| CharacterData.FindCartoonCharacterAt | netbeans/CartoonCharacters/src/main/java/com/daniel/cartooncharacters/task/SaveCharacterTask.java:77-78 | a character object loaded from the one row with that name at that location; null otherwise, without a location, or on a fault |
| CharacterData.FindCartoonCharacterNames | netbeans/CartoonCharacters/src/main/java/com/daniel/cartooncharacters/data/SimpleCharacterDataAccess.java:107-126 | the i-th name is the name of the i-th character living at the location, one name per character; null on a fault or without a location |
| CharacterData.AddCharacter | netbeans/CartoonCharacters/src/main/java/com/daniel/cartooncharacters/data/SimpleCharacterDataAccess.java:129-149 | true exactly when neither the character's persist nor the later demographic persist or commit fails; then character and demographic are persisted together, otherwise nothing is stored; once the character's persist has run, the object holds the next key even if the commit then fails |
| CharacterData.UpdateCharacter | netbeans/CartoonCharacters/src/main/java/com/daniel/cartooncharacters/data/SimpleCharacterDataAccess.java:152-172 | true exactly when there is no fault; then the character and its demographic are merged together; otherwise nothing changes |
| DemographicData.GetCharacterDemographic | netbeans/CartoonCharacters/src/main/java/com/daniel/cartooncharacters/data/SimpleCharacterDemographicDataAccess.java:37-55 | the character's demographic row when exactly one exists; null without a character, when none or several exist, or on a fault |
| PictureData.FindPictures | netbeans/CartoonCharacters/src/main/java/com/daniel/cartooncharacters/data/CartoonPictureDataAccess.java:57-78 | exactly the owner's pictures of that kind, in order; empty on a fault |
| PictureData.FindPicture | netbeans/CartoonCharacters/src/main/java/com/daniel/cartooncharacters/data/CartoonPictureDataAccess.java:88-105 | the picture with that path and owner when exactly one exists; null otherwise or on a fault |
| PictureData.SavePicture | netbeans/CartoonCharacters/src/main/java/com/daniel/cartooncharacters/data/CartoonPictureDataAccess.java:113-129 | true exactly when there is no fault; then the picture is persisted in its kind's table and no other table changes |
| PictureData.DeletePicture | netbeans/CartoonCharacters/src/main/java/com/daniel/cartooncharacters/data/CartoonPictureDataAccess.java:138-159 | true exactly when there is no fault; then every picture with the path is removed from its kind's table and no other table changes |
| Statistics.HalfUp | netbeans/CartoonCharacters/src/main/java/com/daniel/cartooncharacters/data/GenderStatisticsDataAccess.java:85-88 | the share in hundredths rounded half up: within half a hundredth of count/total |
| Statistics.HalfUpRange | netbeans/CartoonCharacters/src/main/java/com/daniel/cartooncharacters/data/GenderStatisticsDataAccess.java:85-88 | a share lies in [0, 1.00]; no rows gives 0 and all rows gives 1.00 |
| Statistics.SharesAddUp | netbeans/CartoonCharacters/src/main/java/com/daniel/cartooncharacters/data/GenderStatisticsDataAccess.java:85-88 | n rounded shares add up to the exact total within n half-hundredths |
| Statistics.CountGender | netbeans/CartoonCharacters/src/main/java/com/daniel/cartooncharacters/data/GenderStatisticsDataAccess.java:55-81 | a gender count never exceeds the number of demographic rows |
| Statistics.CountVillain | netbeans/CartoonCharacters/src/main/java/com/daniel/cartooncharacters/data/GoodVsEvilStatisticsDataAccess.java:64-85 | a villain count never exceeds the number of demographic rows |
| Statistics.GenderStatistics | netbeans/CartoonCharacters/src/main/java/com/daniel/cartooncharacters/data/GenderStatisticsDataAccess.java:49-101 | four slices (male, female, unknown, not applicable), each the rounded share of its gender code; empty on a fault or when there are no rows (division by zero) |
| Statistics.GoodVsEvilStatistics | netbeans/CartoonCharacters/src/main/java/com/daniel/cartooncharacters/data/GoodVsEvilStatisticsDataAccess.java:53-108 | three slices (evil, good, unknown), each the rounded share of its villain value; empty on a fault or when there are no rows |
| Statistics.VillainCountsCover | netbeans/CartoonCharacters/src/main/java/com/daniel/cartooncharacters/data/GoodVsEvilStatisticsDataAccess.java:64-85 | evil, good and unknown counts add up to the number of rows |
| Statistics.GenderCountsCover | netbeans/CartoonCharacters/src/main/java/com/daniel/cartooncharacters/data/GenderStatisticsDataAccess.java:55-81 | when every row has one of the four gender codes, the four counts add up to the number of rows |
| Statistics.GoodVsEvilSharesSum | netbeans/CartoonCharacters/src/main/java/com/daniel/cartooncharacters/data/GoodVsEvilStatisticsDataAccess.java:53-108 | the three good-vs-evil shares add up to between 0.99 and 1.01 |
| Statistics.GenderSharesSum | netbeans/CartoonCharacters/src/main/java/com/daniel/cartooncharacters/data/GenderStatisticsDataAccess.java:49-101 | with every gender code known, the four gender shares add up to between 0.99 and 1.02 |
| FileUtil.Collapse | netbeans/CartoonCharacters/src/main/java/com/daniel/cartooncharacters/util/FileUtil.java:53-55 | collapsing duplicate separators never lengthens a path and keeps its first character |
| FileUtil.Resolve | netbeans/CartoonCharacters/src/main/java/com/daniel/cartooncharacters/util/FileUtil.java:86-89 | resolving a child against a parent never shortens the parent, and a relative child lengthens it |
| FileUtil.LastSeparator | netbeans/CartoonCharacters/src/main/java/com/daniel/cartooncharacters/util/FileUtil.java:62-77 | the index of the last '/', with no '/' after it, or -1 |
| FileUtil.Parent | netbeans/CartoonCharacters/src/main/java/com/daniel/cartooncharacters/util/FileUtil.java:62-77 | a parent path, when there is one, is shorter than the path |
| FileUtil.FileName | netbeans/CartoonCharacters/src/main/java/com/daniel/cartooncharacters/task/SavePictureTask.java:121 | a file's name is a suffix of its path with no '/' in it |
| FileUtil.GetImageFile | netbeans/CartoonCharacters/src/main/java/com/daniel/cartooncharacters/util/FileUtil.java:53-55 | the file lies under the working directory and ends with the normalised stored path |
| FileUtil.GetNewImageFile | netbeans/CartoonCharacters/src/main/java/com/daniel/cartooncharacters/util/FileUtil.java:86-89 | for a single-component title and image name, the new file is named after the image and sits in the cartoon's image directory, the one `createCartoonImageDirectory` creates |
| FileUtil.NewImageFileLayout | netbeans/CartoonCharacters/src/main/java/com/daniel/cartooncharacters/util/FileUtil.java:86-89 | the path `getNewImageFile` builds is the image name resolved against the cartoon's image directory |
| FileUtil.GetNewImagePath | netbeans/CartoonCharacters/src/main/java/com/daniel/cartooncharacters/util/FileUtil.java:98-100 | the stored path is `/img/`, the title, '/', then the image name |
| FileUtil.NormalizeUnderRoot | netbeans/CartoonCharacters/src/main/java/com/daniel/cartooncharacters/util/FileUtil.java:53-55 | normalising a path under the root normalises its remainder |
| FileUtil.StoredPathLocatesNewFile | netbeans/CartoonCharacters/src/main/java/com/daniel/cartooncharacters/util/FileUtil.java:53-100 | the file found from the stored path is the file the image was copied to |
| FileUtil.ParentOfChild | netbeans/CartoonCharacters/src/main/java/com/daniel/cartooncharacters/util/FileUtil.java:62-77 | for a single-component name, `new File(parent, name)` has the parent as its parent and the name as its name |
| FileUtil.ImageDirectoriesLayout | netbeans/CartoonCharacters/src/main/java/com/daniel/cartooncharacters/util/FileUtil.java:62-77 | the images directory sits directly in the working directory, is not the cartoon's directory, and for a single-component title is the parent of the cartoon's directory |
| FileUtil.CartoonDirInImagesDir | netbeans/CartoonCharacters/src/main/java/com/daniel/cartooncharacters/util/FileUtil.java:62-77 | the cartoon's directory is its title resolved against the images directory, whose parent it therefore is |
| FileUtil.Zeros | netbeans/CartoonCharacters/src/main/java/com/daniel/cartooncharacters/util/FileUtil.java:114 | a fresh buffer holds 8192 zero bytes |
| FileUtil.WrittenCopyShape | netbeans/CartoonCharacters/src/main/java/com/daniel/cartooncharacters/util/FileUtil.java:114-117 | the loop's output starts with the input, has a length that is a multiple of 8192, and pads with stale buffer bytes |
| FileUtil.CopyOutput | netbeans/CartoonCharacters/src/main/java/com/daniel/cartooncharacters/util/FileUtil.java:109-123 | the output of the copy as written: the input, then padding up to a multiple of 8192 made of the bytes one buffer earlier, or zeros |
| FileUtil.CopyBytes | netbeans/CartoonCharacters/src/main/java/com/daniel/cartooncharacters/util/FileUtil.java:109-123 | the buffered read/write loop, as written, produces `CopyOutput` of the input |
| FileUtil.CopyBytesExact | netbeans/CartoonCharacters/src/main/java/com/daniel/cartooncharacters/util/FileUtil.java:109-123 | the loop that writes only the bytes read produces exactly the input |
| FileUtil.OneBytePictureIsPadded | netbeans/CartoonCharacters/src/main/java/com/daniel/cartooncharacters/util/FileUtil.java:114-117 | a one-byte file is copied as 8192 bytes, so the copy differs from the original |
| FileUtil.Disk.MkdirIfMissing | netbeans/CartoonCharacters/src/main/java/com/daniel/cartooncharacters/util/FileUtil.java:65-76 | `mkdir` creates the directory exactly when it is absent, no file has its path and its parent exists |
| FileUtil.Disk.CreateCartoonImageDirectory | netbeans/CartoonCharacters/src/main/java/com/daniel/cartooncharacters/util/FileUtil.java:62-77 | creates the images directory, then the cartoon's directory, each only if missing; files are unchanged |
| FileUtil.Disk.DeleteImage | netbeans/CartoonCharacters/src/main/java/com/daniel/cartooncharacters/task/DeletePictureTask.java:89 | true exactly when the file existed; afterwards it is gone and nothing else changes |
| FileUtil.Disk.CopyImage | netbeans/CartoonCharacters/src/main/java/com/daniel/cartooncharacters/util/FileUtil.java:109-123 | copies exactly the original's bytes when the original is a file and the target's directory exists; otherwise fails with the copy error and changes nothing |
| FileUtil.CreateDirectoriesIdempotent | netbeans/CartoonCharacters/src/main/java/com/daniel/cartooncharacters/util/FileUtil.java:62-77 | creating the directories a second time changes nothing |
| FileUtil.CreateDirectoriesMakesBoth | netbeans/CartoonCharacters/src/main/java/com/daniel/cartooncharacters/util/FileUtil.java:62-77 | when the working directory exists, the title is a single component and no file blocks the paths, both the images and the cartoon directory exist afterwards |
| InputValidator.InputValidForSearch | netbeans/CartoonCharacters/src/main/java/com/daniel/cartooncharacters/validation/InputValidator.java:45-56 | invalid exactly when both the character name and the title are empty |
| InputValidator.InputValidForCartoonCreation | netbeans/CartoonCharacters/src/main/java/com/daniel/cartooncharacters/validation/InputValidator.java:66-78 | valid exactly when name and description are both non-empty |
| InputValidator.InputValidForLocationCreation | netbeans/CartoonCharacters/src/main/java/com/daniel/cartooncharacters/validation/InputValidator.java:90-103 | valid exactly when cartoon, name and description are all non-empty |
| InputValidator.InputValidForCharacterCreation | netbeans/CartoonCharacters/src/main/java/com/daniel/cartooncharacters/validation/InputValidator.java:116-130 | valid exactly when cartoon, location, name and description are all non-empty |
| InputValidator.BlankCountsAsGiven | netbeans/CartoonCharacters/src/main/java/com/daniel/cartooncharacters/validation/InputValidator.java:45-130 | a string of blanks counts as given for every check, since only the empty string is rejected |
| InputValidator.ValidateStatisticsSelection | netbeans/CartoonCharacters/src/main/java/com/daniel/cartooncharacters/validation/InputValidator.java:140-162 | invalid with no results; otherwise valid exactly when an item is selected |
| InputValidator.ImageFileValid | netbeans/CartoonCharacters/src/main/java/com/daniel/cartooncharacters/validation/InputValidator.java:171-194 | the last reader's format name; null exactly when the stream fails or no reader recognises the file |
| SaveCartoon.SaveCartoonTask.constructor | netbeans/CartoonCharacters/src/main/java/com/daniel/cartooncharacters/task/SaveCartoonTask.java:59-63 | a task for the given name and description, not yet successful |
| SaveCartoon.SaveCartoonTask.Call | netbeans/CartoonCharacters/src/main/java/com/daniel/cartooncharacters/task/SaveCartoonTask.java:66-89 | successful exactly when the title lookup does not return exactly one cartoon (none, several, or a failed lookup) and the add succeeds; then the cartoon is persisted; when the lookup did not fail, unique titles stay unique and the title then finds the new cartoon; the message follows the outcome |
| SaveLocation.SaveLocationTask.constructor | netbeans/CartoonCharacters/src/main/java/com/daniel/cartooncharacters/task/SaveLocationTask.java:73-79 | a task for the given cartoon, name and description, not yet successful |
| SaveLocation.SaveLocationTask.Call | netbeans/CartoonCharacters/src/main/java/com/daniel/cartooncharacters/task/SaveLocationTask.java:82-107 | successful exactly when the scoped name lookup does not return exactly one location (none, several, or a failed lookup) and the add succeeds; then the location is persisted under the cartoon the title lookup found; when the name lookup did not fail, names stay unique per cartoon |
| SaveCharacter.SaveCharacterTask.constructor | netbeans/CartoonCharacters/src/main/java/com/daniel/cartooncharacters/task/SaveCharacterTask.java:67-73 | a task for the given character, location and demographic, not yet successful |
| SaveCharacter.SaveCharacterTask.Call | netbeans/CartoonCharacters/src/main/java/com/daniel/cartooncharacters/task/SaveCharacterTask.java:76-97 | successful exactly when the name-and-location lookup does not return exactly one character (none, several, or a failed lookup) and the add succeeds; then character and demographic are persisted; when the lookup did not fail and the character's home is the task's location (as `AddCharacterController` sets it), names stay unique per location; the object keeps the generated key after a late add failure |
| SavePicture.SavePictureTask.constructor | netbeans/CartoonCharacters/src/main/java/com/daniel/cartooncharacters/task/SavePictureTask.java:109-116 | a task for the given file, kind and owners, not yet successful |
| SavePicture.SavePictureTask.StoreImage | netbeans/CartoonCharacters/src/main/java/com/daniel/cartooncharacters/task/SavePictureTask.java:121-131 | when the target file is absent, creates the directories and copies the image; a failed copy leaves the files unchanged |
| SavePicture.SavePictureTask.SaveRow | netbeans/CartoonCharacters/src/main/java/com/daniel/cartooncharacters/task/SavePictureTask.java:166-216 | successful exactly when the path-and-owner lookup in the kind's table does not return exactly one picture (none, several, or a failed lookup) and the save succeeds; then the row is persisted; when the lookup did not fail, one picture per path and owner is kept |
| SavePicture.SavePictureTask.Call | netbeans/CartoonCharacters/src/main/java/com/daniel/cartooncharacters/task/SavePictureTask.java:119-159 | stores the image, then saves its row as `SaveRow` does; the stored path locates the new file |
| UpdateCharacter.UpdateCharacterTask.constructor | netbeans/CartoonCharacters/src/main/java/com/daniel/cartooncharacters/task/UpdateCharacterTask.java:74-79 | a task for the given character and demographic, not yet successful |
| UpdateCharacter.UpdateCharacterTask.Call | netbeans/CartoonCharacters/src/main/java/com/daniel/cartooncharacters/task/UpdateCharacterTask.java:82-103 | reports a missing character, a missing demographic or the update's outcome; on success both rows are replaced in place with the new values |
| UpdateCharacter.StoredRowsMergeInPlace | netbeans/CartoonCharacters/src/main/java/com/daniel/cartooncharacters/task/UpdateCharacterTask.java:82-103 | merging rows loaded from the tables replaces them in place and finds the new values under their keys |
| UpdateLocation.UpdateLocationTask.constructor | netbeans/CartoonCharacters/src/main/java/com/daniel/cartooncharacters/task/UpdateLocationTask.java:72-78 | a task for the given cartoon, name and description, not yet successful |
| UpdateLocation.UpdateLocationTask.Call | netbeans/CartoonCharacters/src/main/java/com/daniel/cartooncharacters/task/UpdateLocationTask.java:81-104 | successful exactly when one location matches the name and the update succeeds; then that row is replaced in place with the found cartoon and the new description |
| DeletePicture.AfterDelete | netbeans/CartoonCharacters/src/main/java/com/daniel/cartooncharacters/task/DeletePictureTask.java:131-156 | a picture table after a delete: the rows without the path, or all rows on a fault |
| DeletePicture.DeletePictureTask.constructor | netbeans/CartoonCharacters/src/main/java/com/daniel/cartooncharacters/task/DeletePictureTask.java:77-84 | a task for the given file, kind and selected pictures, not yet successful |
| DeletePicture.DeletePictureTask.DeleteRows | netbeans/CartoonCharacters/src/main/java/com/daniel/cartooncharacters/task/DeletePictureTask.java:90-108 | deletes the path from the three picture tables in order; each table whose own delete did not fail loses every row with the path, and a table whose delete failed is unchanged; success is the outcome of the last delete |
| DeletePicture.DeletePictureTask.Call | netbeans/CartoonCharacters/src/main/java/com/daniel/cartooncharacters/task/DeletePictureTask.java:87-123 | deletes the file, and only when it existed deletes its rows; the message follows the outcome |
| DeletePicture.AfterDeleteKeepsInvariants | netbeans/CartoonCharacters/src/main/java/com/daniel/cartooncharacters/task/DeletePictureTask.java:131-156 | a delete, failed or not, keeps keys distinct and one picture per path and owner; a delete that did not fail leaves no row with the path |

## Left out

- The JavaFX user interface (controllers, alert dialogs, message stages, the `succeeded()` callbacks beyond the message text) and the task threads.
- Hibernate sessions, transactions, configuration and connection properties: a transaction is one table assignment.
- Floating point: statistics shares are integers in hundredths, which is what `divide(total, 2, HALF_UP)` computes before `doubleValue()`.
- The statistics methods ignore their `cartoon` argument in the source, so the model has none.
- Result order is table order. The database's own order for unordered queries is not modelled.
- SQL `LIKE` wildcards (`%`, `_`) in user input are not interpreted: a name is compared literally. `ilike` lower-cases ASCII letters only.
- Persisting an entity that already has a key is not modelled: `persist` always assigns the next key.
- `File.delete` on a directory, symbolic links and file permissions are not modelled. `FileUtil.deleteImage`, called by `DeletePictureTask`, is not part of this model's source; it is modelled as deleting a regular file.
- The working directory is a parameter rather than `System.getProperty("user.dir")`; an empty one stands for "/", as `java.io.File` resolves a child against an empty parent.
- `ImageIO` is left out: `ImageFileValid` receives the format names of the readers offered for the file.
- `LocationDataAccess.findCartoonLocation(name, cartoon)`, the two-argument `findCartoonCharacter(name, location)`, and `deletePicture` in the location and character picture data access are called by the tasks but are not in this model's source. They are modelled on their one-argument or cartoon-picture counterparts, restricted by the cartoon or location key.
- `inputGivenForSearch` and the other controller-side checks are not part of this model.
- SavePicture.SavePictureTask.Call: the cartoon is assumed non-null. The source dereferences it without a check.
- DeletePicture.DeletePictureTask.Call: a missing selected picture of the task's kind stops the row deletes, where the source would throw a `NullPointerException`.
- PictureData.FindPictures: takes an owner key, not a possibly-null `Long`.
- FileUtil.Disk.CopyImage: uses the corrected copy (`CopyBytesExact`). The padding of the loop as written appears only in `FileUtil.CopyBytes`. A copy that fails part-way leaves no partial file in the model.
- StoreImage (SavePicture.SavePictureTask.StoreImage): the new file receives exactly the original's bytes, through the corrected `Disk.CopyImage`; the source writes the output padded to a multiple of 8192 bytes (`FileUtil.CopyOutput`).
- Call (SavePicture.SavePictureTask.Call): the image file it stores holds exactly the original's bytes, for the same reason as StoreImage, not the padded output the source writes.
- FileUtil.WrittenCopy and FileUtil.CopyBytes: each `read` is taken to fill the buffer with min(remaining, 8192) bytes; `InputStream.read` may return fewer, and then the stale bytes written differ from the ones modelled.
- AddCharacter (CharacterData.AddCharacter): the sequence value a failed add consumes is not modelled; the table's next key is unchanged after any failure, so the key left in the character object may be handed out again.
- A cartoon title or image name containing a separator is not given a layout guarantee: `GetNewImageFile`, `ImageDirectoriesLayout` and `CreateDirectoriesMakesBoth` promise the directory layout only for single-component names.

## Findings

| source | as written | input that shows it | evidently intended | confidence | as-written member | corrected member |
|---|---|---|---|---|---|---|
| netbeans/CartoonCharacters/src/main/java/com/daniel/cartooncharacters/util/FileUtil.java:114-117 | each pass writes the whole 8192-byte buffer, not just the bytes read, so the copy is padded to a multiple of 8192 with stale or zero bytes | an image file of one byte is copied as 8192 bytes | write only the bytes read on each pass, so the copy equals the original | not executed | FileUtil.OneBytePictureIsPadded | FileUtil.CopyBytesExact |
