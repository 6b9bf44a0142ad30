/** What the catalogue's queries select, stated over the tables as sequences
    of rows. Each filter keeps the table's order and is characterised by the
    rows it keeps; the data-access methods are proved against these. */
module Queries {
  import opened Text
  import opened Entities
  import opened Tables

  /** `Criteria.uniqueResult()`: the one row of a result; null when there is
      none; several rows throw, which every caller catches and turns into null. */
  function UniqueResult<T>(rows: seq<T>): Option<T> {
    if |rows| == 1 then Some(rows[0]) else None
  }

  // ---------------------------------------------------------------- keys

  function CartoonKey(c: Cartoon): int { c.cartoonId }
  function WithCartoonKey(c: Cartoon, k: int): Cartoon { c.(cartoonId := k) }
  function LocationRowKey(l: LocationRow): int { l.locationId }
  function WithLocationKey(l: LocationRow, k: int): LocationRow { l.(locationId := k) }
  function CharacterKey(c: CharacterRow): int { c.characterId }
  function WithCharacterKey(c: CharacterRow, k: int): CharacterRow { c.(characterId := k) }
  function DemographicKey(d: CharacterDemographic): int { d.demographicId }
  function WithDemographicKey(d: CharacterDemographic, k: int): CharacterDemographic { d.(demographicId := k) }
  function PictureKey(p: Picture): int { p.pictureId }
  function WithPictureKey(p: Picture, k: int): Picture { p.(pictureId := k) }

  // ---------------------------------------------------------------- cartoons

  /** `Restrictions.eq("title", title)`: exact, case-sensitive. */
  function CartoonsTitled(t: seq<Cartoon>, title: string): (r: seq<Cartoon>)
    ensures |r| <= |t|
    ensures forall c :: c in r <==> c in t && c.title == title
  {
    if t == [] then []
    else
      assert t == t[..|t| - 1] + [t[|t| - 1]];
      CartoonsTitled(t[..|t| - 1], title) + (if t[|t| - 1].title == title then [t[|t| - 1]] else [])
  }

  /** `CartoonsTitled` keeps every matching row as often as the table holds it and
      drops the others, so the number of matches it counts is exact. */
  lemma {:induction false} CartoonsTitledCounts(t: seq<Cartoon>, title: string)
    ensures forall c :: multiset(CartoonsTitled(t, title))[c] == if c.title == title then multiset(t)[c] else 0
    decreases |t|
  {
    if t != [] {
      CartoonsTitledCounts(t[..|t| - 1], title);
      assert t == t[..|t| - 1] + [t[|t| - 1]];
    }
  }

  /** The title projection of the cartoon table. */
  function Titles(t: seq<Cartoon>): (r: seq<string>)
    ensures |r| == |t|
    ensures forall i :: 0 <= i < |t| ==> r[i] == t[i].title
  {
    if t == [] then [] else [t[0].title] + Titles(t[1..])
  }

  /** With no cartoon titled `c.title` stored, the cartoon that `persist`
      inserts is the unique result of a lookup by its title. */
  lemma {:induction false} AddedCartoonIsFound(t: Table<Cartoon>, c: Cartoon)
    requires CartoonsTitled(t.rows, c.title) == []
    ensures UniqueResult(CartoonsTitled(Persist(t, c, WithCartoonKey).rows, c.title)) == Some(WithCartoonKey(c, t.next))
  {
    var s := Persist(t, c, WithCartoonKey).rows;
    assert s[..|s| - 1] == t.rows;
  }

  /** No two cartoons share a title. */
  ghost predicate TitlesUnique(t: seq<Cartoon>) {
    forall i, j :: 0 <= i < j < |t| ==> t[i].title != t[j].title
  }

  /** Where titles are unique, a lookup by title matches at most one cartoon. */
  lemma {:induction false} UniqueTitlesMatchAtMostOnce(t: seq<Cartoon>, title: string)
    requires TitlesUnique(t)
    ensures |CartoonsTitled(t, title)| <= 1
  {
    if t != [] {
      var prefix := t[..|t| - 1];
      assert TitlesUnique(prefix) by {
        forall i, j | 0 <= i < j < |prefix| ensures prefix[i].title != prefix[j].title {
          assert prefix[i] == t[i] && prefix[j] == t[j];
        }
      }
      UniqueTitlesMatchAtMostOnce(prefix, title);
      if t[|t| - 1].title == title {
        forall c | c in prefix ensures c.title != title {
          var k :| 0 <= k < |prefix| && prefix[k] == c;
          assert t[k] == c;
        }
        NoMemberMeansEmpty(CartoonsTitled(prefix, title));
      }
    }
  }

  /** Adding a cartoon whose title no cartoon has keeps titles unique. */
  lemma GuardedAddKeepsTitlesUnique(t: seq<Cartoon>, c: Cartoon)
    requires TitlesUnique(t) && CartoonsTitled(t, c.title) == []
    ensures TitlesUnique(t + [c])
  {
    var s := t + [c];
    forall i, j | 0 <= i < j < |s| ensures s[i].title != s[j].title {
      if j == |t| {
        assert s[i] == t[i] && t[i] !in CartoonsTitled(t, c.title);
      }
    }
  }

  // ---------------------------------------------------------------- locations

  /** `Restrictions.eq("cartoon.cartoonId", id)`. */
  function LocationsOfCartoon(t: seq<LocationRow>, cartoonId: int): (r: seq<LocationRow>)
    ensures |r| <= |t|
    ensures forall l :: l in r <==> l in t && l.cartoonId == Some(cartoonId)
  {
    if t == [] then []
    else
      assert t == t[..|t| - 1] + [t[|t| - 1]];
      LocationsOfCartoon(t[..|t| - 1], cartoonId)
        + (if t[|t| - 1].cartoonId == Some(cartoonId) then [t[|t| - 1]] else [])
  }

  /** The `locationName` projection, row for row. */
  function LocationNames(t: seq<LocationRow>): (r: seq<string>)
    ensures |r| == |t|
    ensures forall i :: 0 <= i < |t| ==> r[i] == t[i].locationName
    ensures forall n :: n in r <==> exists l :: l in t && l.locationName == n
  {
    if t == [] then [] else [t[0].locationName] + LocationNames(t[1..])
  }

  /** `Restrictions.ilike("locationName", name)`: equal after lower-casing. */
  predicate NameLike(stored: string, name: string) {
    Lower(stored) == Lower(name)
  }

  /** `ilike` on the name across every cartoon. */
  function LocationsNamed(t: seq<LocationRow>, name: string): (r: seq<LocationRow>)
    ensures |r| <= |t|
    ensures forall l :: l in r <==> l in t && NameLike(l.locationName, name)
  {
    if t == [] then []
    else
      assert t == t[..|t| - 1] + [t[|t| - 1]];
      LocationsNamed(t[..|t| - 1], name)
        + (if NameLike(t[|t| - 1].locationName, name) then [t[|t| - 1]] else [])
  }

  /** `LocationsNamed` keeps every matching row as often as the table holds it and
      drops the others, so the number of matches it counts is exact. */
  lemma {:induction false} LocationsNamedCounts(t: seq<LocationRow>, name: string)
    ensures forall l :: multiset(LocationsNamed(t, name))[l] == if NameLike(l.locationName, name) then multiset(t)[l] else 0
    decreases |t|
  {
    if t != [] {
      LocationsNamedCounts(t[..|t| - 1], name);
      assert t == t[..|t| - 1] + [t[|t| - 1]];
    }
  }

  /** `ilike` on the name, and the location's cartoon equal to the given
      one; a null cartoon compares equal to no row. */
  function LocationsNamedIn(t: seq<LocationRow>, name: string, cartoonId: Option<int>): (r: seq<LocationRow>)
    ensures |r| <= |t|
    ensures forall l :: l in r <==> l in t && NameLike(l.locationName, name)
                                    && cartoonId.Some? && l.cartoonId == cartoonId
  {
    if t == [] then []
    else
      assert t == t[..|t| - 1] + [t[|t| - 1]];
      var l := t[|t| - 1];
      LocationsNamedIn(t[..|t| - 1], name, cartoonId)
        + (if NameLike(l.locationName, name) && cartoonId.Some? && l.cartoonId == cartoonId then [l] else [])
  }

  /** `LocationsNamedIn` keeps every matching row as often as the table holds it and
      drops the others, so the number of matches it counts is exact. */
  lemma {:induction false} LocationsNamedInCounts(t: seq<LocationRow>, name: string, cartoonId: Option<int>)
    ensures forall l :: multiset(LocationsNamedIn(t, name, cartoonId))[l] == if NameLike(l.locationName, name) && cartoonId.Some? && l.cartoonId == cartoonId then multiset(t)[l] else 0
    decreases |t|
  {
    if t != [] {
      LocationsNamedInCounts(t[..|t| - 1], name, cartoonId);
      assert t == t[..|t| - 1] + [t[|t| - 1]];
    }
  }

  /** No two locations of one cartoon have names equal ignoring case. */
  ghost predicate LocationNamesUniquePerCartoon(t: seq<LocationRow>) {
    forall i, j :: 0 <= i < j < |t| && t[i].cartoonId.Some? && t[i].cartoonId == t[j].cartoonId
                   ==> !NameLike(t[i].locationName, t[j].locationName)
  }

  /** Where location names are unique per cartoon, a lookup by name within
      a cartoon matches at most one location. */
  lemma {:induction false} UniqueLocationNamesMatchAtMostOnce(t: seq<LocationRow>, name: string, cartoonId: Option<int>)
    requires LocationNamesUniquePerCartoon(t)
    ensures |LocationsNamedIn(t, name, cartoonId)| <= 1
  {
    if t != [] {
      var prefix := t[..|t| - 1];
      var last := t[|t| - 1];
      assert LocationNamesUniquePerCartoon(prefix) by {
        forall i, j | 0 <= i < j < |prefix| && prefix[i].cartoonId.Some? && prefix[i].cartoonId == prefix[j].cartoonId
          ensures !NameLike(prefix[i].locationName, prefix[j].locationName)
        {
          assert prefix[i] == t[i] && prefix[j] == t[j];
        }
      }
      UniqueLocationNamesMatchAtMostOnce(prefix, name, cartoonId);
      if NameLike(last.locationName, name) && cartoonId.Some? && last.cartoonId == cartoonId {
        forall l | l in prefix ensures !(NameLike(l.locationName, name) && l.cartoonId == cartoonId) {
          var k :| 0 <= k < |prefix| && prefix[k] == l;
          assert t[k] == l;
        }
        NoMemberMeansEmpty(LocationsNamedIn(prefix, name, cartoonId));
      }
    }
  }

  /** Adding a location that the scoped lookup does not find keeps location
      names unique per cartoon. */
  lemma GuardedAddKeepsLocationNamesUnique(t: seq<LocationRow>, l: LocationRow)
    requires LocationNamesUniquePerCartoon(t)
    requires LocationsNamedIn(t, l.locationName, l.cartoonId) == []
    ensures LocationNamesUniquePerCartoon(t + [l])
  {
    var s := t + [l];
    forall i, j | 0 <= i < j < |s| && s[i].cartoonId.Some? && s[i].cartoonId == s[j].cartoonId
      ensures !NameLike(s[i].locationName, s[j].locationName)
    {
      if j == |t| {
        assert s[i] == t[i] && t[i] !in LocationsNamedIn(t, l.locationName, l.cartoonId);
      }
    }
  }

  /** A location as Hibernate loads it: its cartoon fetched by key. */
  function LoadLocation(cartoons: seq<Cartoon>, row: LocationRow): CartoonLocation {
    CartoonLocation(row.locationId, row.locationName, row.description, Fetch(cartoons, CartoonKey, row.cartoonId))
  }

  /** The row `persist` or `merge` writes for a location entity. */
  function LocationRowOf(l: CartoonLocation): LocationRow {
    LocationRow(l.locationId, l.locationName, l.description, CartoonKeyOf(l.cartoon))
  }

  /** Storing a location and loading it back gives the same entity, as long
      as its cartoon is the first one stored under that cartoon's key. */
  lemma {:induction false} LocationRoundTrip(cartoons: seq<Cartoon>, l: CartoonLocation)
    requires l.cartoon.Some? ==> Lookup(cartoons, CartoonKey, l.cartoon.value.cartoonId) == l.cartoon
    ensures LoadLocation(cartoons, LocationRowOf(l)) == l
  {
  }

  // ---------------------------------------------------------------- characters

  /** `Restrictions.eq("characterName", name)`: exact. */
  function CharactersNamed(t: seq<CharacterRow>, name: string): (r: seq<CharacterRow>)
    ensures |r| <= |t|
    ensures forall c :: c in r <==> c in t && c.characterName == name
  {
    if t == [] then []
    else
      assert t == t[..|t| - 1] + [t[|t| - 1]];
      CharactersNamed(t[..|t| - 1], name) + (if t[|t| - 1].characterName == name then [t[|t| - 1]] else [])
  }

  /** `CharactersNamed` keeps every matching row as often as the table holds it and
      drops the others, so the number of matches it counts is exact. */
  lemma {:induction false} CharactersNamedCounts(t: seq<CharacterRow>, name: string)
    ensures forall c :: multiset(CharactersNamed(t, name))[c] == if c.characterName == name then multiset(t)[c] else 0
    decreases |t|
  {
    if t != [] {
      CharactersNamedCounts(t[..|t| - 1], name);
      assert t == t[..|t| - 1] + [t[|t| - 1]];
    }
  }

  /** Exact name and home location equal to the given one; a null location
      compares equal to no row. */
  function CharactersNamedAt(t: seq<CharacterRow>, name: string, locationId: Option<int>): (r: seq<CharacterRow>)
    ensures |r| <= |t|
    ensures forall c :: c in r <==> c in t && c.characterName == name && locationId.Some? && c.homeId == locationId
  {
    if t == [] then []
    else
      assert t == t[..|t| - 1] + [t[|t| - 1]];
      var c := t[|t| - 1];
      CharactersNamedAt(t[..|t| - 1], name, locationId)
        + (if c.characterName == name && locationId.Some? && c.homeId == locationId then [c] else [])
  }

  /** `CharactersNamedAt` keeps every matching row as often as the table holds it and
      drops the others, so the number of matches it counts is exact. */
  lemma {:induction false} CharactersNamedAtCounts(t: seq<CharacterRow>, name: string, locationId: Option<int>)
    ensures forall c :: multiset(CharactersNamedAt(t, name, locationId))[c] == if c.characterName == name && locationId.Some? && c.homeId == locationId then multiset(t)[c] else 0
    decreases |t|
  {
    if t != [] {
      CharactersNamedAtCounts(t[..|t| - 1], name, locationId);
      assert t == t[..|t| - 1] + [t[|t| - 1]];
    }
  }

  /** No two characters living at one location share a name. */
  ghost predicate CharacterNamesUniquePerLocation(t: seq<CharacterRow>) {
    forall i, j :: 0 <= i < j < |t| && t[i].homeId.Some? && t[i].homeId == t[j].homeId
                   ==> t[i].characterName != t[j].characterName
  }

  /** Where names are unique per location, a lookup by name and location
      matches at most one character. */
  lemma {:induction false} UniqueCharacterNamesMatchAtMostOnce(t: seq<CharacterRow>, name: string, locationId: Option<int>)
    requires CharacterNamesUniquePerLocation(t)
    ensures |CharactersNamedAt(t, name, locationId)| <= 1
  {
    if t != [] {
      var prefix := t[..|t| - 1];
      var last := t[|t| - 1];
      assert CharacterNamesUniquePerLocation(prefix) by {
        forall i, j | 0 <= i < j < |prefix| && prefix[i].homeId.Some? && prefix[i].homeId == prefix[j].homeId
          ensures prefix[i].characterName != prefix[j].characterName
        {
          assert prefix[i] == t[i] && prefix[j] == t[j];
        }
      }
      UniqueCharacterNamesMatchAtMostOnce(prefix, name, locationId);
      if last.characterName == name && locationId.Some? && last.homeId == locationId {
        forall c | c in prefix ensures !(c.characterName == name && c.homeId == locationId) {
          var k :| 0 <= k < |prefix| && prefix[k] == c;
          assert t[k] == c;
        }
        NoMemberMeansEmpty(CharactersNamedAt(prefix, name, locationId));
      }
    }
  }

  /** Adding a character that the lookup by name and home does not find
      keeps names unique per location. */
  lemma GuardedAddKeepsCharacterNamesUnique(t: seq<CharacterRow>, c: CharacterRow)
    requires CharacterNamesUniquePerLocation(t)
    requires CharactersNamedAt(t, c.characterName, c.homeId) == []
    ensures CharacterNamesUniquePerLocation(t + [c])
  {
    var s := t + [c];
    forall i, j | 0 <= i < j < |s| && s[i].homeId.Some? && s[i].homeId == s[j].homeId
      ensures s[i].characterName != s[j].characterName
    {
      if j == |t| {
        assert s[i] == t[i] && t[i] !in CharactersNamedAt(t, c.characterName, c.homeId);
      }
    }
  }

  /** `Restrictions.eq("characterHome.locationId", id)`. */
  function CharactersAt(t: seq<CharacterRow>, locationId: int): (r: seq<CharacterRow>)
    ensures |r| <= |t|
    ensures forall c :: c in r <==> c in t && c.homeId == Some(locationId)
  {
    if t == [] then []
    else
      assert t == t[..|t| - 1] + [t[|t| - 1]];
      CharactersAt(t[..|t| - 1], locationId) + (if t[|t| - 1].homeId == Some(locationId) then [t[|t| - 1]] else [])
  }

  /** The `characterName` projection, row for row. */
  function CharacterNames(t: seq<CharacterRow>): (r: seq<string>)
    ensures |r| == |t|
    ensures forall i :: 0 <= i < |t| ==> r[i] == t[i].characterName
    ensures forall n :: n in r <==> exists c :: c in t && c.characterName == n
  {
    if t == [] then [] else [t[0].characterName] + CharacterNames(t[1..])
  }

  /** The home location of a character row, loaded with its cartoon. */
  function HomeOf(locations: seq<LocationRow>, cartoons: seq<Cartoon>, ch: CharacterRow): Option<CartoonLocation> {
    match Fetch(locations, LocationRowKey, ch.homeId)
    case Some(l) => Some(LoadLocation(cartoons, l))
    case None => None
  }

  /** The title reached by the search's join
      `ch.characterHome.locationId = l.locationId AND l.cartoon.cartoonId = c.cartoonId`;
      None when the row takes no part in the join. */
  function JoinedTitle(locations: seq<LocationRow>, cartoons: seq<Cartoon>, ch: CharacterRow): Option<string> {
    match HomeOf(locations, cartoons, ch)
    case Some(home) => if home.cartoon.Some? then Some(home.cartoon.value.title) else None
    case None => None
  }

  /** The WHERE clause of `findCartoonCharacters`: the join, and each
      non-empty filter as a lower-cased containment. */
  predicate MatchesSearch(locations: seq<LocationRow>, cartoons: seq<Cartoon>, ch: CharacterRow,
                          characterName: string, cartoonTitle: string)
  {
    var title := JoinedTitle(locations, cartoons, ch);
    && title.Some?
    && (IsEmpty(characterName) || Contains(Lower(ch.characterName), Lower(characterName)))
    && (IsEmpty(cartoonTitle) || Contains(Lower(title.value), Lower(cartoonTitle)))
  }

  /** The rows the search query returns, in table order. */
  function SearchResults(characters: seq<CharacterRow>, locations: seq<LocationRow>, cartoons: seq<Cartoon>,
                         characterName: string, cartoonTitle: string): (r: seq<CharacterRow>)
    ensures |r| <= |characters|
    ensures forall c :: c in r <==> c in characters && MatchesSearch(locations, cartoons, c, characterName, cartoonTitle)
  {
    if characters == [] then []
    else
      var n := |characters| - 1;
      assert characters == characters[..n] + [characters[n]];
      SearchResults(characters[..n], locations, cartoons, characterName, cartoonTitle)
        + (if MatchesSearch(locations, cartoons, characters[n], characterName, cartoonTitle) then [characters[n]] else [])
  }

  /** With both filters empty the search returns every character that the
      join reaches, and only those. */
  lemma UnfilteredSearchIsJoin(characters: seq<CharacterRow>, locations: seq<LocationRow>, cartoons: seq<Cartoon>)
    ensures forall c :: c in SearchResults(characters, locations, cartoons, "", "")
                    <==> c in characters && JoinedTitle(locations, cartoons, c).Some?
  {
  }

  /** A character reached by the join is found when searched by its own
      name, in any letter case. */
  lemma {:induction false} SearchFindsByOwnName(characters: seq<CharacterRow>, locations: seq<LocationRow>,
                                                cartoons: seq<Cartoon>, ch: CharacterRow, query: string)
    requires ch in characters && JoinedTitle(locations, cartoons, ch).Some?
    requires Lower(query) == Lower(ch.characterName)
    ensures ch in SearchResults(characters, locations, cartoons, query, "")
  {
    ContainsItself(Lower(ch.characterName));
  }

  // ---------------------------------------------------------------- demographics

  /** `Restrictions.eq("character.characterId", id)`. */
  function DemographicsOf(t: seq<CharacterDemographic>, characterId: int): (r: seq<CharacterDemographic>)
    ensures |r| <= |t|
    ensures forall d :: d in r <==> d in t && d.characterId == Some(characterId)
  {
    if t == [] then []
    else
      assert t == t[..|t| - 1] + [t[|t| - 1]];
      DemographicsOf(t[..|t| - 1], characterId)
        + (if t[|t| - 1].characterId == Some(characterId) then [t[|t| - 1]] else [])
  }

  /** `DemographicsOf` keeps every matching row as often as the table holds it and
      drops the others, so the number of matches it counts is exact. */
  lemma {:induction false} DemographicsOfCounts(t: seq<CharacterDemographic>, characterId: int)
    ensures forall d :: multiset(DemographicsOf(t, characterId))[d] == if d.characterId == Some(characterId) then multiset(t)[d] else 0
    decreases |t|
  {
    if t != [] {
      DemographicsOfCounts(t[..|t| - 1], characterId);
      assert t == t[..|t| - 1] + [t[|t| - 1]];
    }
  }

  // ---------------------------------------------------------------- pictures

  /** `Restrictions.eq("<owner>.<id>", ownerId)`. */
  function PicturesOf(t: seq<Picture>, ownerId: int): (r: seq<Picture>)
    ensures |r| <= |t|
    ensures forall p :: p in r <==> p in t && p.ownerId == Some(ownerId)
  {
    if t == [] then []
    else
      assert t == t[..|t| - 1] + [t[|t| - 1]];
      PicturesOf(t[..|t| - 1], ownerId) + (if t[|t| - 1].ownerId == Some(ownerId) then [t[|t| - 1]] else [])
  }

  /** Path and owner both equal to the given ones; a null owner compares
      equal to no row. */
  function PicturesAt(t: seq<Picture>, path: string, ownerId: Option<int>): (r: seq<Picture>)
    ensures |r| <= |t|
    ensures forall p :: p in r <==> p in t && p.pictureLocation == path && ownerId.Some? && p.ownerId == ownerId
  {
    if t == [] then []
    else
      assert t == t[..|t| - 1] + [t[|t| - 1]];
      var p := t[|t| - 1];
      PicturesAt(t[..|t| - 1], path, ownerId)
        + (if p.pictureLocation == path && ownerId.Some? && p.ownerId == ownerId then [p] else [])
  }

  /** `PicturesAt` keeps every matching row as often as the table holds it and
      drops the others, so the number of matches it counts is exact. */
  lemma {:induction false} PicturesAtCounts(t: seq<Picture>, path: string, ownerId: Option<int>)
    ensures forall p :: multiset(PicturesAt(t, path, ownerId))[p] == if p.pictureLocation == path && ownerId.Some? && p.ownerId == ownerId then multiset(t)[p] else 0
    decreases |t|
  {
    if t != [] {
      PicturesAtCounts(t[..|t| - 1], path, ownerId);
      assert t == t[..|t| - 1] + [t[|t| - 1]];
    }
  }

  /** The rows that survive deleting every row stored with the path. */
  function WithoutPath(t: seq<Picture>, path: string): (r: seq<Picture>)
    ensures |r| <= |t|
    ensures forall p :: p in r <==> p in t && p.pictureLocation != path
  {
    if t == [] then []
    else
      assert t == t[..|t| - 1] + [t[|t| - 1]];
      WithoutPath(t[..|t| - 1], path) + (if t[|t| - 1].pictureLocation != path then [t[|t| - 1]] else [])
  }

  /** Deleting by a path leaves the table as it was exactly when no row
      is stored with that path. */
  lemma {:induction false} DeleteChangesNothingIff(t: seq<Picture>, path: string)
    ensures WithoutPath(t, path) == t <==> forall p :: p in t ==> p.pictureLocation != path
  {
    if t != [] {
      var n := |t| - 1;
      assert t[..n] + [t[n]] == t;
      if forall p :: p in t ==> p.pictureLocation != path {
        assert forall p :: p in t[..n] ==> p in t;
        DeleteChangesNothingIff(t[..n], path);
      }
    }
  }

  /** Every earlier row stands in relation `rel` to every later one. */
  ghost predicate Pairwise(t: seq<Picture>, rel: (Picture, Picture) -> bool) {
    forall i, j :: 0 <= i < j < |t| ==> rel(t[i], t[j])
  }

  /** Two picture rows do not record the same path for the same owner. */
  predicate DistinctPlacement(a: Picture, b: Picture) {
    !(a.ownerId.Some? && a.pictureLocation == b.pictureLocation && a.ownerId == b.ownerId)
  }

  predicate DistinctKeys(a: Picture, b: Picture) {
    a.pictureId != b.pictureId
  }

  /** No two rows of a picture table share both path and owner. */
  ghost predicate OnePicturePerPathAndOwner(t: seq<Picture>) {
    Pairwise(t, DistinctPlacement)
  }

  /** Adding a row only when no row has its path and owner keeps paths
      unique per owner. */
  lemma {:induction false} GuardedAddKeepsPathsUnique(t: seq<Picture>, p: Picture)
    requires OnePicturePerPathAndOwner(t)
    requires PicturesAt(t, p.pictureLocation, p.ownerId) == []
    ensures OnePicturePerPathAndOwner(t + [p])
  {
    var s := t + [p];
    forall i, j | 0 <= i < j < |s|
      ensures DistinctPlacement(s[i], s[j])
    {
      if j == |t| {
        assert s[i] == t[i] && s[j] == p;
        assert s[i] !in PicturesAt(t, p.pictureLocation, p.ownerId);
      }
    }
  }

  /** Where paths are unique per owner, a lookup by path and owner matches
      at most one row. */
  lemma {:induction false} UniquePlacementMatchesAtMostOnce(t: seq<Picture>, path: string, ownerId: Option<int>)
    requires OnePicturePerPathAndOwner(t)
    ensures |PicturesAt(t, path, ownerId)| <= 1
  {
    if t != [] {
      var prefix := t[..|t| - 1];
      assert OnePicturePerPathAndOwner(prefix) by {
        forall i, j | 0 <= i < j < |prefix| ensures DistinctPlacement(prefix[i], prefix[j]) {
          assert prefix[i] == t[i] && prefix[j] == t[j];
        }
      }
      UniquePlacementMatchesAtMostOnce(prefix, path, ownerId);
      var last := t[|t| - 1];
      if last.pictureLocation == path && ownerId.Some? && last.ownerId == ownerId {
        forall p | p in prefix ensures !(p.pictureLocation == path && p.ownerId == ownerId) {
          var k :| 0 <= k < |prefix| && prefix[k] == p;
          assert t[k] == p && DistinctPlacement(t[k], last);
        }
        NoMemberMeansEmpty(PicturesAt(prefix, path, ownerId));
      }
    }
  }

  /** Deleting by path keeps every pairwise relation between the rows that
      remain. */
  lemma {:induction false} DeleteKeepsPairwise(t: seq<Picture>, path: string, rel: (Picture, Picture) -> bool)
    requires Pairwise(t, rel)
    ensures Pairwise(WithoutPath(t, path), rel)
  {
    if t != [] {
      var n := |t| - 1;
      var prefix := t[..n];
      assert prefix + [t[n]] == t;
      assert Pairwise(prefix, rel) by {
        forall i, j | 0 <= i < j < |prefix|
          ensures rel(prefix[i], prefix[j])
        {
          assert prefix[i] == t[i] && prefix[j] == t[j];
        }
      }
      DeleteKeepsPairwise(prefix, path, rel);
      var w := WithoutPath(prefix, path);
      if t[n].pictureLocation != path {
        var s := w + [t[n]];
        forall i, j | 0 <= i < j < |s|
          ensures rel(s[i], s[j])
        {
          if j == |w| {
            assert s[i] in w && s[j] == t[n];
            var k :| 0 <= k < n && prefix[k] == s[i];
            assert t[k] == s[i];
          }
        }
      }
    }
  }

  /** Deleting by path keeps the table well keyed and paths unique per owner. */
  lemma DeleteKeepsInvariants(t: Table<Picture>, path: string)
    requires WellKeyed(t, PictureKey)
    ensures WellKeyed(Table(WithoutPath(t.rows, path), t.next), PictureKey)
    ensures OnePicturePerPathAndOwner(t.rows) ==> OnePicturePerPathAndOwner(WithoutPath(t.rows, path))
  {
    assert Pairwise(t.rows, DistinctKeys);
    DeleteKeepsPairwise(t.rows, path, DistinctKeys);
    if OnePicturePerPathAndOwner(t.rows) {
      DeleteKeepsPairwise(t.rows, path, DistinctPlacement);
    }
    var w := WithoutPath(t.rows, path);
    forall i | 0 <= i < |w|
      ensures w[i].pictureId < t.next
    {
      assert w[i] in t.rows;
    }
  }
}
