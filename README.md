# MusicDuel catalog client, modelled in Dafny

MusicDuel is a two-player music-trivia game. Its songs and artist suggestions
come from the iTunes Search service, and `utils/itunes.ts` is the client
for that service. This project models the two operations of that client.

- `fetchMusicData(artist)` keeps the results that are songs with a truthy
  `previewUrl`, copies four fields of each, and rewrites the fifth, the
  artwork URL, from 100x100 to 600x600.
- `searchArtists(query)` answers queries shorter than two characters with
  nothing. Otherwise it keeps one suggestion per artist name (the first album
  seen for that name wins) and returns at most five.

Both operations catch every exception and return `[]`. The model treats the
HTTP request and the JSON parse as an input value: `Response` is either
`Failed` or the parsed body. Each field of a result object is an `Option`,
because the objects are untyped JSON and any field may be missing. A `null`
element of `results` is `Item.Absent`; reading a property of it throws.

Files:

- `wrappers.dfy`: the `Option` type.
- `js_string.dfy`: `String.prototype.replace` with a string pattern, and the
  first-occurrence search it performs (only the first occurrence is rewritten).
- `itunes.dfy`: the data model, the two operations, and the lemmas about them.

`fetchMusicData` is a pipeline of `filter` and `map`, so it is modelled as
functions. `searchArtists` fills a `Map` in a `forEach` loop, so it is
modelled as a method with a `while` loop (`ITunes.DedupByName`). That method
is proved equal to the functional first-wins list `ITunes.FirstWins`. The
`Map` is modelled as its entry list in insertion order, which is the order
`values()` yields.

The filter and the de-duplication are stated through ghost position
sequences. `PlayablePositions` lists the indices of the records that pass the
filter. `FirstPositions` lists the indices of the first record for each
artist name. The lemmas show three things about each:

- the output's k-th entry comes from the record at the k-th position;
- the positions are strictly increasing;
- an index is among them exactly when its record qualifies.

`fetchMusicData` catches every error and returns `[]`, the same value as a
search with no playable songs. The lobby (`app/lobby/[id].tsx`, not part of
this model) reports any result with fewer than five songs, `[]` included, as
"Not enough songs found for this artist."
`ITunes.FetchMusicDataEmpty` states exactly when `[]` comes back.

## Model

| member | source | states |
|---|---|---|
| JsString.IndexOf | utils/itunes.ts:22 | the result is the least index where the pattern occurs, or None exactly when it occurs nowhere |
| JsString.ReplaceFirstAbsent | utils/itunes.ts:22 | `replace` with a string pattern that does not occur returns the string unchanged |
| JsString.ReplaceFirstAt | utils/itunes.ts:22 | `replace` rewrites the first occurrence of the pattern and keeps everything before and after it |
| JsString.ReplaceFirstLength | utils/itunes.ts:22 | a replacement as long as the pattern keeps the string's length |
| ITunes.ArtworkRewrite | utils/itunes.ts:22 | the upscaled artwork URL keeps its length, equals the URL when "100x100" is absent, and otherwise differs only in its first "100x100", now "600x600" |
| ITunes.ArtworkRewriteExample | utils/itunes.ts:22 | a URL with "100x100" twice is rewritten only at the first |
| ITunes.RecordsOf | utils/itunes.ts:15 | reading the results succeeds exactly when no element is null, and then yields every element's fields in order |
| ITunes.RecordsOfAbsent | utils/itunes.ts:40-41 | one null element makes the reading of the results fail |
| ITunes.RecordsOfAll | utils/itunes.ts:40-41 | results whose elements are all objects read as exactly those objects |
| ITunes.Playables | utils/itunes.ts:15 | the filter keeps no more records than it gets, and only songs with a truthy preview URL |
| ITunes.PlayablesByPosition | utils/itunes.ts:15 | the filter keeps exactly the qualifying records, in their original order: the k-th kept record is the one at the k-th qualifying index |
| ITunes.PlayablesEmpty | utils/itunes.ts:15 | the filter keeps nothing exactly when no record qualifies |
| ITunes.PlayablesArtwork | utils/itunes.ts:15-22 | every kept record has artwork exactly when every qualifying record has |
| ITunes.ToSongs | utils/itunes.ts:17-23 | the map succeeds exactly when every kept record has artwork; each song then copies id, name, artist and preview URL from its record and carries its upscaled artwork |
| ITunes.FetchMusicData | utils/itunes.ts:9-28 | a failed request or parse, or a body without `results`, yields `[]`; there are never more songs than results |
| ITunes.FetchMusicDataOrigin | utils/itunes.ts:15-23 | every song is copied from a qualifying object of `results` |
| ITunes.FetchMusicDataExact | utils/itunes.ts:15-23 | when nothing throws, the songs match the qualifying objects one to one and in order, and the matched indices are exactly the qualifying ones |
| ITunes.FetchMusicDataEmpty | utils/itunes.ts:10-27 | the result is `[]` exactly when the request or parse failed, `results` is missing, an element makes the filter or map throw, or no object qualifies |
| ITunes.FirstWinsSnoc | utils/itunes.ts:40-48 | one more record adds a suggestion, built from that record, exactly when its artist name is new |
| ITunes.FirstWinsNames | utils/itunes.ts:38-49 | the de-duplicated list carries exactly the artist names of the records |
| ITunes.FirstOfNamePrefix | utils/itunes.ts:40-41 | later records do not change which earlier record comes first for its name |
| ITunes.LastOfName | utils/itunes.ts:41 | the `has` test fails for a record exactly when it is the first with its name |
| ITunes.FirstPositionsSpec | utils/itunes.ts:38-49 | the first-of-name positions are increasing, each is the first record of its name, and none is missed |
| ITunes.FirstWinsByPosition | utils/itunes.ts:38-49 | the k-th de-duplicated entry is built from the record at the k-th first-of-name position |
| ITunes.FirstWinsCount | utils/itunes.ts:38-49 | there are as many de-duplicated entries as distinct artist names |
| ITunes.FirstWinsExample | utils/itunes.ts:40-48 | with two albums of one artist around an album of another, the first album of the repeated artist wins |
| ITunes.Suggestions | utils/itunes.ts:51 | at most five suggestions are returned |
| ITunes.SuggestionsSpec | utils/itunes.ts:38-51 | the suggestions have distinct names, come from first-of-name records in order of first appearance, are a prefix of the full de-duplicated list, and number min(distinct names, 5) |
| ITunes.MapMirrorsSet | utils/itunes.ts:41-47 | `set` of a new name keeps the Map's keys and values in step with the de-duplicated list |
| ITunes.DedupByName | utils/itunes.ts:38-49 | the `forEach` over the Map fails exactly when an element is null, and otherwise leaves in the Map's values the first-wins list of the records |
| ITunes.SearchArtists | utils/itunes.ts:30-56 | a query shorter than two characters, a failed request or parse, a missing `results` or a null element yields `[]`; otherwise the result is the capped first-wins list |

## Left out

- The HTTP request, the URL built with `encodeURIComponent`, and its `entity`, `attribute` and `limit` parameters: network I/O is outside the model. The `artist` parameter of `fetchMusicData` is used only in that URL, so the model takes the response in its place.
- Asynchrony: `await` is modelled as the value it resolves to.
- `response.json()`: JSON parsing is not modelled; its outcome is part of `Response`.
- `console.error`: logging has no effect on the returned value.
- JSON values of types the code does not expect (a number where a string is expected, a non-array `results`, and so on) are not modelled. `null` and `undefined` fields are both `None`, including as `Map` keys.
- Numbers are modelled as `int`; JavaScript's floating-point numbers are not modelled.
- ITunes.SearchArtists: the length guard counts characters, while `query.length` counts UTF-16 code units. A single character outside the Basic Multilingual Plane (an emoji, say) has JavaScript length 2 and is searched by the code, but the model answers `[]`. Other string lengths in the model count characters too; this is the only place a length decides the result.
- JsString.ReplaceFirst: `$` patterns in the replacement string are not modelled. The only replacement used, "600x600", contains none.
- The `Song` interface's declared types are not enforced. The three fields copied as found keep `undefined` when the source object lacks them, as the code does.
- The rest of the repository (pages, components, the room and round protocol, the database client) is not part of this model.
