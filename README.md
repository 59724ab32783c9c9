# Topic detail screen: concept lookup and favorite toggle

This project models the logic of the topic detail screen of a mobile
programming-concept reference app (`app/topic-detail.tsx`).

- **Concept lookup.** The screen receives a `topicID` navigation parameter as
  text and converts it with JavaScript's `parseInt`. It then takes the first
  catalogue entry with that id (`concepts.find`). When no entry matches,
  including when the parameter does not parse (`NaN`), it renders a
  "Concept not found" view.
- **Favorite status.** The screen holds two flags, `isFavorite` and `loading`.
  On mount it reads the favorites list stored under the key `user_favorites`
  and sets the star to "the id is in the list". Pressing the star (only
  possible when the concept was found and loading is over) rereads the list.
  If the star is on, it filters every occurrence of the id out. Otherwise it
  appends the id. It then writes the list back and flips the star only after
  the write succeeds.

Modules:

- `Wrappers`: `Option`, which models `undefined` and `NaN`.
- `JsParseInt`: `parseInt` with no radix. It skips leading white space, reads
  one sign, switches to base 16 after a `0x`/`0X` prefix, and converts the
  longest digit run. `NaturalString`/`DecimalString` model the
  `topicID.toString()` the list screens use when they navigate to the detail
  screen.
- `FavoritesList`: the `filter` and `push` list operations and their
  properties.
- `TopicDetail`: the `Concept` record, `Find`, the stored-key datatype
  `Stored = Absent | List(ids) | Malformed`, and the screen class
  `TopicDetailScreen`. The class has the fields `isFavorite`, `loading` and
  `store`, and the two async handlers as methods. Each handler is one atomic
  step.

Storage access is a field of the screen (`store`). Whether a read or a write
fails is a parameter of each handler.

## Model

| member | source | states |
|---|---|---|
| TopicDetail.Find | app/topic-detail.tsx:34-35 | the result is absent exactly when no entry has the requested id (so always for `NaN`); otherwise it is the entry at the first index whose id matches |
| TopicDetail.FindsEveryConcept | app/topic-detail.tsx:14-35 | when `topicID`s are unique, looking up an entry's own id yields that entry |
| TopicDetail.NavigationFindsConcept | app/topic-detail.tsx:28-35 | parsing `topicID.toString()` of any catalogue entry and looking it up yields that entry |
| TopicDetail.UnparsableIdNotFound | app/topic-detail.tsx:28-35 | a parameter whose first character after leading white space and one optional sign is not a decimal digit (for example "abc" or "undefined") parses to `NaN` and matches no entry, so the not-found branch is taken |
| TopicDetail.MissingIdNotFound | app/topic-detail.tsx:28-35 | a missing parameter, which `parseInt` receives as the text "undefined", selects no entry |
| TopicDetail.Includes | app/topic-detail.tsx:46 | the list includes the id exactly when some element equals it; `NaN` is never included |
| TopicDetail.TopicDetailScreen.constructor | app/topic-detail.tsx:27-32 | on mount the id is the parse of the parameter, the star is off, the screen is loading and storage is untouched |
| TopicDetail.TopicDetailScreen.Render | app/topic-detail.tsx:93-129 | the not-found view is rendered exactly when no entry has the parsed id; otherwise the view shows a catalogue entry with that id, the star shows `isFavorite`, and the star is enabled exactly when not loading |
| TopicDetail.TopicDetailScreen.CheckFavoriteStatus | app/topic-detail.tsx:41-53 | a readable stored list sets the star to "id is in the list"; a read failure, a missing or empty key, or a malformed payload leaves the star unchanged; loading is off afterwards in every case; storage is unchanged; after a readable list, the star agrees with storage |
| TopicDetail.TopicDetailScreen.ToggleFavorite | app/topic-detail.tsx:55-71 | success happens exactly when the read, the decode and the write all succeed; on success the star flips and storage holds `Toggled` of the previously stored list (missing key read as empty), chosen by the old flag; on failure the star and storage are unchanged; loading is unchanged; agreement between star and storage is preserved |
| TopicDetail.MountThenToggleTwice | app/topic-detail.tsx:28-67 | navigating to a catalogue entry whose id is not stored, with the parameter written by `topicID.toString()`, and pressing the star twice after the status check, leaves the stored list equal to the original list (an absent key ends as the empty list) |
| FavoritesList.Without | app/topic-detail.tsx:61 | the filtered list no longer holds the id; every other value keeps its number of occurrences; the length drops by the id's number of occurrences |
| FavoritesList.WithoutIsSubsequence | app/topic-detail.tsx:61 | the filtered list is a subsequence of the original, so the kept elements stay in their original order |
| FavoritesList.WithoutAppend | app/topic-detail.tsx:61 | filtering distributes over concatenation |
| FavoritesList.WithoutAbsent | app/topic-detail.tsx:61 | filtering out a value that does not occur returns the list unchanged |
| FavoritesList.Toggled | app/topic-detail.tsx:58-64 | with the flag on, the written list holds no occurrence of the id; with the flag off, it is the old list, unchanged, followed by the id, one element longer |
| FavoritesList.ToggledOnlyTouchesId | app/topic-detail.tsx:58-66 | under either branch, no value other than the id gains or loses an occurrence |
| FavoritesList.ToggledKeepsAgreement | app/topic-detail.tsx:46-67 | if the flag equals "id is stored" before a toggle, the flipped flag equals "id is stored" in the written list |
| FavoritesList.ToggledTwiceRestores | app/topic-detail.tsx:58-67 | starting with the flag off and the id not stored, appending and then filtering returns the original list |
| FavoritesList.ToggledTwiceStaleFlag | app/topic-detail.tsx:58-67 | with a stale flag (off while the id is already stored), two toggles leave the stored list with every occurrence of the id filtered out, which differs from the original list: the round trip needs agreement |
| JsParseInt.LeadingSpaceCount | app/topic-detail.tsx:28 | the result counts the white-space characters at the start of the string: all of them are white space, and the next character, if any, is not |
| JsParseInt.DigitRunLength | app/topic-detail.tsx:28 | the result is the length of the longest prefix made of digits of the radix |
| JsParseInt.ParseDecimalPrefix | app/topic-detail.tsx:28 | `parseInt` of an integer's decimal text, followed by text that does not continue the number, is that integer |
| JsParseInt.DecimalString | app/topic-detail.tsx:28 | `n.toString()`, the text the list screens pass as the parameter parsed here, is non-empty, starts with `-` exactly when `n` is negative, has only decimal digits after that sign, and has no leading zero unless it is "0" |
| JsParseInt.ParseDecimalString | app/topic-detail.tsx:28 | `parseInt(n.toString()) == n` for every integer `n` |
| JsParseInt.ParseInt | app/topic-detail.tsx:28 | a number is produced only when the first character after leading white space and one optional sign is a decimal digit, and it is negative only when that text starts with `-` |
| JsParseInt.NoDigitIsNaN | app/topic-detail.tsx:28 | a string whose first character after leading white space and one optional sign is not a decimal digit parses to `NaN` |
| JsParseInt.UndefinedIsNaN | app/topic-detail.tsx:28 | `parseInt("undefined")` is `NaN` |

## Left out

- Rendering, styles, icons, navigation calls and the syntax-highlighting component (`app/topic-detail.tsx:93-319`) are presentation. Only the choice of view, the star state and the star's enabled state are modelled (`Render`).
- `highlightText` (`app/topic-detail.tsx:73-91`) is not modelled. It builds a regular expression from raw user text, and its behaviour on metacharacters is defined by the regex engine.
- AsyncStorage and JSON encoding are not modelled. The stored key is the abstract value `Stored`, and a failed read or write is a boolean parameter of each handler. The write is all-or-nothing.
- TopicDetail.Stored: `Malformed` covers every payload other than a JSON array of integers. The source behaves differently on some of these. For a JSON string payload, `checkFavoriteStatus` would run `String.prototype.includes`, a substring test, instead of throwing. Arrays with non-integer elements are not modelled.
- Async interleaving is not modelled. Each handler is one atomic step. This leaves out the `useEffect` re-run when `topicID` changes (`:37-39`), overlapping handlers, and writes by other screens between the two steps of one handler.
- JsParseInt.ParseInt works on Unicode scalar values rather than UTF-16 code units. It does not model the loss of precision above 2^53. It does not model array-valued navigation parameters.
- TopicDetail.TopicDetailScreen.ToggleFavorite requires a found concept and `loading == false`. The handler is only reachable from the star, which is rendered only for a found concept and is disabled while loading. This also means the model never pushes `NaN` into the list.
- The search, category and favorites-list screens are in other files and are not part of this model.
- A toggle that removed the id when stored and added it when absent would differ from the code, which decides by the screen's flag. The two differ when the flag is stale (`ToggledTwiceStaleFlag`). The model follows the code.
- A malformed payload or a failed read does not reset the star to "not a favorite": the status check leaves the flag as it was. The model follows the code.
