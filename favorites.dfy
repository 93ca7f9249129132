/**
 * Favourites (src/app/country/FavoriteButton.tsx and src/app/favorites/FavoritesClient.tsx):
 * a list of country codes kept as JSON in the browser's key/value store, toggled
 * from a country's page and shown as a filtered country list.
 */
module Favorites {

  import opened Wrappers
  import opened Seqs
  import opened Countries

  /**
   * A stored value as the components read it: JSON text of a list of codes, the
   * empty string, or text that `JSON.parse` rejects.
   */
  datatype Stored = Ids(ids: seq<string>) | Blank | Unparsable

  /** `localStorage`: a map from keys to stored values. */
  class LocalStorage {
    var items: map<string, Stored>

    constructor(init: map<string, Stored>)
      ensures items == init
    {
      items := init;
    }

    /** `getItem(key)`, null for an absent key. */
    function GetItem(key: string): Option<Stored>
      reads this
    {
      if key in items then Some(items[key]) else None
    }

    /** `setItem(key, value)` */
    method SetItem(key: string, value: Stored)
      modifies this
      ensures items == old(items)[key := value]
    {
      items := items[key := value];
    }
  }

  /**
   * The key a button stores under: the shared key exactly when no non-empty user id
   * is given, and otherwise a key from which the user id can be read back.
   */
  function StorageKey(userId: Option<string>): (key: string)
    ensures key == "favorites" <==> userId.None? || userId.value == ""
    ensures key != "favorites" ==>
      |key| > 10 && key[..10] == "favorites:" && userId == Some(key[10..])
  {
    if userId.Some? && userId.value != "" then "favorites:" + userId.value else "favorites"
  }

  /** Two different signed-in users never share a key. */
  lemma StorageKeysDistinct(a: string, b: string)
    requires a != "" && b != "" && a != b
    ensures StorageKey(Some(a)) != StorageKey(Some(b))
  {
    var ka, kb := StorageKey(Some(a)), StorageKey(Some(b));
    assert ka != "favorites" && kb != "favorites";
  }

  /** A signed-in user's key is never the shared key. */
  lemma SignedInKeyIsOwn(userId: string)
    requires userId != ""
    ensures StorageKey(Some(userId)) != StorageKey(None)
  {
    assert |StorageKey(Some(userId))| > |"favorites"|;
  }

  /**
   * `JSON.parse(getItem(key) || "[]")`: an absent or empty value reads as no codes;
   * text that does not parse makes the call throw (`None`).
   */
  function ReadList(stored: Option<Stored>): (r: Option<seq<string>>)
    ensures r.None? <==> stored == Some(Unparsable)
    ensures stored.None? || stored == Some(Blank) ==> r == Some([])
  {
    match stored
    case None => Some([])
    case Some(Blank) => Some([])
    case Some(Ids(ids)) => Some(ids)
    case Some(Unparsable) => None
  }

  function IsNot(code: string): string -> bool {
    (c: string) => c != code
  }

  /** The list `toggleFavorite` writes back: the code removed everywhere, or appended. */
  function Toggled(favorites: seq<string>, code: string, isFavorite: bool): seq<string> {
    if isFavorite then Filter(favorites, IsNot(code)) else favorites + [code]
  }

  /**
   * Afterwards the code is in the list exactly when it was not a favourite; every
   * other code occurs as often as before, and in the same order when removing.
   */
  lemma ToggledContents(favorites: seq<string>, code: string, isFavorite: bool, other: string)
    ensures code in Toggled(favorites, code, isFavorite) <==> !isFavorite
    ensures other != code ==>
      multiset(Toggled(favorites, code, isFavorite))[other] == multiset(favorites)[other]
    ensures isFavorite ==> IsSubsequence(Toggled(favorites, code, isFavorite), favorites)
    ensures !isFavorite ==> Toggled(favorites, code, isFavorite)[..|favorites|] == favorites
    ensures !isFavorite ==> |Toggled(favorites, code, isFavorite)| == |favorites| + 1
  {
    if isFavorite {
      FilterMembers(favorites, IsNot(code), code);
      FilterCount(favorites, IsNot(code), other);
      FilterIsSubsequence(favorites, IsNot(code));
    } else {
      assert multiset(favorites + [code]) == multiset(favorites) + multiset{code};
    }
  }

  /** Adding a code that was not there and then removing it restores the list. */
  lemma {:induction false} AddThenRemove(favorites: seq<string>, code: string)
    requires code !in favorites
    ensures Toggled(Toggled(favorites, code, false), code, true) == favorites
  {
    FilterConcat(favorites, [code], IsNot(code));
    FilterKeepAll(favorites, IsNot(code));
    assert [code][1..] == [];
  }

  /** The favourite button of one country's page. */
  class FavoriteButton {
    const countryCode: string
    const userId: Option<string>
    const storage: LocalStorage
    var isFavorite: bool
    var isLoading: bool

    constructor(countryCode: string, userId: Option<string>, storage: LocalStorage)
      ensures this.countryCode == countryCode && this.userId == userId && this.storage == storage
      ensures !isFavorite && isLoading
    {
      this.countryCode := countryCode;
      this.userId := userId;
      this.storage := storage;
      isFavorite := false;
      isLoading := true;
    }

    /** The stored list this button reads, if it parses. */
    function StoredList(): Option<seq<string>>
      reads this, storage
    {
      ReadList(storage.GetItem(StorageKey(userId)))
    }

    /** The button shows the stored membership of its country. */
    predicate InSync()
      reads this, storage
    {
      StoredList().Some? && isFavorite == (countryCode in StoredList().value)
    }

    /**
     * The load effect: read the list and show whether the country is in it. When
     * the stored text does not parse the effect throws (`thrown`) and nothing changes.
     */
    method Load() returns (thrown: bool)
      modifies this
      ensures thrown <==> old(StoredList()).None?
      ensures thrown ==> isFavorite == old(isFavorite) && isLoading == old(isLoading)
      ensures !thrown ==> InSync() && !isLoading
    {
      var key := StorageKey(userId);
      var favorites := ReadList(storage.GetItem(key));
      if favorites.None? {
        return true;
      }
      isFavorite := countryCode in favorites.value;
      isLoading := false;
      thrown := false;
    }

    /**
     * `toggleFavorite`: re-read the list, remove or append the code according to the
     * shown state, write it back under the same key and flip the shown state. Only
     * that key of the store changes; unparsable text makes it throw and change nothing.
     */
    method ToggleFavorite() returns (thrown: bool)
      modifies this, storage
      ensures thrown <==> old(StoredList()).None?
      ensures thrown ==> storage.items == old(storage.items) && isFavorite == old(isFavorite)
      ensures !thrown ==>
        && storage.items == old(storage.items)[StorageKey(userId) :=
             Ids(Toggled(old(StoredList()).value, countryCode, old(isFavorite)))]
        && isFavorite == !old(isFavorite)
      ensures !thrown && old(InSync()) ==> InSync()
      ensures isLoading == old(isLoading)
    {
      var key := StorageKey(userId);
      var favorites := ReadList(storage.GetItem(key));
      if favorites.None? {
        return true;
      }
      var newFavorites := Toggled(favorites.value, countryCode, isFavorite);
      ToggledContents(favorites.value, countryCode, isFavorite, countryCode);
      storage.SetItem(key, Ids(newFavorites));
      isFavorite := !isFavorite;
      thrown := false;
    }
  }

  // ---------------------------------------------------------------------------
  // The favourites page

  /**
   * The list the favourites page loads: always the shared key; absent, empty or
   * unparsable text all give no codes.
   */
  function ViewIds(items: map<string, Stored>): (ids: seq<string>)
    ensures "favorites" !in items ==> ids == []
    ensures "favorites" in items && items["favorites"].Ids? ==> ids == items["favorites"].ids
    ensures "favorites" in items && !items["favorites"].Ids? ==> ids == []
  {
    if "favorites" in items && items["favorites"].Ids? then items["favorites"].ids else []
  }

  /** So a signed-in user's button writes never reach the favourites page. */
  lemma SignedInWritesUnseen(items: map<string, Stored>, userId: string, value: Stored)
    requires userId != ""
    ensures ViewIds(items[StorageKey(Some(userId)) := value]) == ViewIds(items)
  {
    SignedInKeyIsOwn(userId);
  }

  function InList(ids: seq<string>): Country -> bool {
    (c: Country) => c.cca3 in ids
  }

  /** `favoriteCountries`: nothing while the list is not loaded, else the listed countries. */
  function FavoriteCountries(countries: seq<Country>, favoriteIds: Option<seq<string>>): seq<Country> {
    if favoriteIds.None? then [] else Filter(countries, InList(favoriteIds.value))
  }

  /**
   * The page shows, in the given order, exactly the countries whose code is listed,
   * each as often as it is given, however often its code is listed.
   */
  lemma FavoriteCountriesContents(countries: seq<Country>, favoriteIds: Option<seq<string>>, c: Country)
    ensures c in FavoriteCountries(countries, favoriteIds) <==>
      favoriteIds.Some? && c in countries && c.cca3 in favoriteIds.value
    ensures multiset(FavoriteCountries(countries, favoriteIds))[c] ==
      if favoriteIds.Some? && c.cca3 in favoriteIds.value then multiset(countries)[c] else 0
    ensures IsSubsequence(FavoriteCountries(countries, favoriteIds), countries)
  {
    if favoriteIds.Some? {
      FilterMembers(countries, InList(favoriteIds.value), c);
      FilterCount(countries, InList(favoriteIds.value), c);
      FilterIsSubsequence(countries, InList(favoriteIds.value));
    }
  }

  /** Listing a code twice shows its country once, as listing it once does. */
  lemma {:induction false} DuplicateIdsIgnored(countries: seq<Country>, ids: seq<string>, id: string)
    requires id in ids
    ensures FavoriteCountries(countries, Some(ids + [id])) == FavoriteCountries(countries, Some(ids))
  {
    forall c | c in countries ensures InList(ids + [id])(c) == InList(ids)(c) {
    }
    FilterCongruent(countries, InList(ids + [id]), InList(ids));
  }

  /** The favourites page. */
  class FavoritesView {
    const countries: seq<Country>
    const storage: LocalStorage
    var favoriteIds: Option<seq<string>>

    /** Before the effect runs the list is null, and the page shows its loading state. */
    constructor(countries: seq<Country>, storage: LocalStorage)
      ensures this.countries == countries && this.storage == storage
      ensures favoriteIds == None && Shown() == []
    {
      this.countries := countries;
      this.storage := storage;
      favoriteIds := None;
    }

    /** The load effect, with its `try`/`catch` fallback to no codes. */
    method LoadFavorites()
      modifies this
      ensures favoriteIds == Some(ViewIds(storage.items))
    {
      var raw := storage.GetItem("favorites");
      var ids: seq<string>;
      if raw.Some? && raw.value != Blank {
        match raw.value
        case Ids(list) => ids := list;
        case _ => ids := [];
      } else {
        ids := [];
      }
      favoriteIds := Some(ids);
    }

    function Shown(): seq<Country>
      reads this
    {
      FavoriteCountries(countries, favoriteIds)
    }
  }
}
