/** The topic detail screen: it looks its concept up in the bundled catalogue
    by the `topicID` navigation parameter, shows a "not found" view when there
    is none, and keeps a star flag in step with the favorites list persisted
    under the key `user_favorites`. */
module TopicDetail {
  import opened Wrappers
  import opened JsParseInt
  import opened FavoritesList

  /** One catalogue entry; identity is `topicID`. */
  datatype Concept = Concept(
    topicID: int,
    title: string,
    category: string,
    definition: string,
    detailedExplanation: string,
    codeExample: string,
    keywords: seq<string>)

  /** What the screen holds under the favorites key. A missing key and an
      empty string are both `Absent` (the source tests the string for
      truthiness); `Malformed` is any text that does not decode to an array of
      integers, on which decoding or the array operations throw. */
  datatype Stored = Absent | List(ids: seq<int>) | Malformed

  /** What the screen renders. */
  datatype View = NotFound | Detail(concept: Concept, starred: bool, starEnabled: bool)

  /** The catalogue invariant: no two entries share a `topicID`. */
  ghost predicate UniqueIds(catalogue: seq<Concept>) {
    forall i, j :: 0 <= i < j < |catalogue| ==> catalogue[i].topicID != catalogue[j].topicID
  }

  /** `concepts.find(c => c.topicID === topicID)`; a `None` id is `NaN`, which
      is strictly equal to nothing. */
  function Find(catalogue: seq<Concept>, id: Option<int>): (r: Option<Concept>)
    ensures r.None? <==> forall i :: 0 <= i < |catalogue| ==> id != Some(catalogue[i].topicID)
    ensures r.Some? ==> exists i :: 0 <= i < |catalogue| && catalogue[i] == r.value && id == Some(r.value.topicID)
                                    && forall j :: 0 <= j < i ==> id != Some(catalogue[j].topicID)
  {
    if catalogue == [] then None
    else if id == Some(catalogue[0].topicID) then Some(catalogue[0])
    else
      var r := Find(catalogue[1..], id);
      assert r.Some? ==> exists i :: 0 < i < |catalogue| && catalogue[i] == r.value && id == Some(r.value.topicID)
                                    && forall j :: 0 <= j < i ==> id != Some(catalogue[j].topicID) by {
        if r.Some? {
          var k :| 0 <= k < |catalogue| - 1 && catalogue[1..][k] == r.value && id == Some(r.value.topicID)
                   && forall j :: 0 <= j < k ==> id != Some(catalogue[1..][j].topicID);
          assert forall j :: 0 <= j < k + 1 ==> id != Some(catalogue[j].topicID) by {
            forall j | 0 <= j < k + 1 ensures id != Some(catalogue[j].topicID) {
              if j > 0 { assert catalogue[j] == catalogue[1..][j - 1]; }
            }
          }
        }
      }
      r
  }

  /** With unique ids, looking up any entry's own id finds that entry. */
  lemma FindsEveryConcept(catalogue: seq<Concept>, k: int)
    requires UniqueIds(catalogue) && 0 <= k < |catalogue|
    ensures Find(catalogue, Some(catalogue[k].topicID)) == Some(catalogue[k])
  {
  }

  /** A list screen navigates with `topicID.toString()`; the detail screen
      parses it back and finds the entry the user tapped. */
  lemma NavigationFindsConcept(catalogue: seq<Concept>, k: int)
    requires UniqueIds(catalogue) && 0 <= k < |catalogue|
    ensures Find(catalogue, ParseInt(DecimalString(catalogue[k].topicID))) == Some(catalogue[k])
  {
    ParseDecimalString(catalogue[k].topicID);
    FindsEveryConcept(catalogue, k);
  }

  /** A parameter that does not begin (after white space and sign) with a
      decimal digit never selects a concept; this covers the `"undefined"` a
      missing parameter turns into. */
  lemma UnparsableIdNotFound(catalogue: seq<Concept>, raw: string)
    requires !StartsWithDecimalDigit(DropSign(TrimStart(raw)))
    ensures Find(catalogue, ParseInt(raw)) == None
  {
    NoDigitIsNaN(raw);
  }

  lemma MissingIdNotFound(catalogue: seq<Concept>)
    ensures Find(catalogue, ParseInt("undefined")) == None
  {
    UndefinedIsNaN();
  }

  /** `stored ? JSON.parse(stored) : []` for a store that decodes. */
  function StoredIds(s: Stored): (ids: seq<int>)
    requires !s.Malformed?
    ensures s.List? ==> ids == s.ids
    ensures s.Absent? ==> ids == []
  {
    if s.List? then s.ids else []
  }

  /** `favorites.includes(topicID)`: some element is the same value as the
      id; an integer list never includes `NaN`. */
  function Includes(ids: seq<int>, id: Option<int>): (b: bool)
    ensures b <==> exists i :: 0 <= i < |ids| && Some(ids[i]) == id
    ensures id.None? ==> !b
  {
    id.Some? && id.value in ids
  }

  class TopicDetailScreen {
    const catalogue: seq<Concept>
    const topicID: Option<int>
    var isFavorite: bool
    var loading: bool
    var store: Stored

    /** Mounting: the parameter is parsed once, the star is off and the screen
        is loading until the status check finishes. */
    constructor (catalogue: seq<Concept>, rawTopicID: string, store: Stored)
      ensures this.catalogue == catalogue && topicID == ParseInt(rawTopicID)
      ensures !isFavorite && loading && this.store == store
    {
      this.catalogue := catalogue;
      topicID := ParseInt(rawTopicID);
      isFavorite := false;
      loading := true;
      this.store := store;
    }

    /** The star agrees with what is persisted. */
    predicate Agrees()
      reads this
    {
      !store.Malformed? && isFavorite == Includes(StoredIds(store), topicID)
    }

    /** The not-found branch is taken exactly when no entry carries the parsed
        id; otherwise the star shows the flag and is disabled while loading. */
    function Render(): (v: View)
      reads this
      ensures v.NotFound? <==> forall i :: 0 <= i < |catalogue| ==> topicID != Some(catalogue[i].topicID)
      ensures v.Detail? ==> v.concept in catalogue && topicID == Some(v.concept.topicID)
      ensures v.Detail? ==> v.starred == isFavorite && v.starEnabled == !loading
    {
      match Find(catalogue, topicID)
      case None => NotFound
      case Some(c) => Detail(c, isFavorite, !loading)
    }

    /** `checkFavoriteStatus`, run once on mount. A read failure, a missing or
        empty key and an undecodable payload leave the flag as it was; the
        screen stops loading in every case. */
    method CheckFavoriteStatus(readFails: bool)
      modifies this
      ensures store == old(store) && !loading
      ensures !readFails && old(store).List? ==> isFavorite == Includes(old(store).ids, topicID)
      ensures readFails || !old(store).List? ==> isFavorite == old(isFavorite)
      ensures !readFails && !old(store).Malformed? && (old(store).List? || !old(isFavorite)) ==> Agrees()
    {
      if !readFails {
        match store {
          case List(ids) =>
            isFavorite := topicID.Some? && topicID.value in ids;
          case Absent =>
          case Malformed =>
        }
      }
      loading := false;
    }

    /** `toggleFavorite`, reachable only from the star of a found concept and
        only while not loading. It reads the list afresh, removes or appends
        the id according to the flag, writes the list back, and flips the flag
        only once the write has succeeded. */
    method ToggleFavorite(readFails: bool, writeFails: bool) returns (ok: bool)
      requires Find(catalogue, topicID).Some? && !loading
      modifies this
      ensures loading == old(loading)
      ensures ok <==> !readFails && !old(store).Malformed? && !writeFails
      ensures ok ==> isFavorite == !old(isFavorite)
                     && store == List(Toggled(StoredIds(old(store)), old(isFavorite), topicID.value))
      ensures !ok ==> isFavorite == old(isFavorite) && store == old(store)
      ensures old(Agrees()) ==> Agrees()
    {
      var id := topicID.value;
      if readFails {
        return false;
      }
      var favorites: seq<int>;
      match store {
        case Absent =>
          favorites := [];
        case List(ids) =>
          favorites := ids;
        case Malformed =>
          return false;
      }
      if Agrees() {
        ToggledKeepsAgreement(favorites, isFavorite, id);
      }
      if isFavorite {
        favorites := Without(favorites, id);
      } else {
        favorites := favorites + [id];
      }
      if writeFails {
        return false;
      }
      store := List(favorites);
      isFavorite := !isFavorite;
      ok := true;
    }
  }

  /** Navigate from a list screen to a catalogue entry not yet among the
      favorites (the parameter is `topicID.toString()`), then press the star
      twice: the persisted list is back to what it was (a missing key comes
      back as an empty list). */
  method MountThenToggleTwice(catalogue: seq<Concept>, k: int, initial: Stored)
    returns (final: Stored)
    requires 0 <= k < |catalogue|
    requires !initial.Malformed? && catalogue[k].topicID !in StoredIds(initial)
    ensures final == List(StoredIds(initial))
  {
    var id := catalogue[k].topicID;
    ParseDecimalString(id);
    var screen := new TopicDetailScreen(catalogue, DecimalString(id), initial);
    screen.CheckFavoriteStatus(false);
    var first := screen.ToggleFavorite(false, false);
    var second := screen.ToggleFavorite(false, false);
    ToggledTwiceRestores(StoredIds(initial), id);
    final := screen.store;
  }
}
