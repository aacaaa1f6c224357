# SeaSpeciesVN server core, modelled in Dafny

The server keeps a catalogue of sea species, each with one image on a
hosting service, and the distribution points (latitude/longitude pairs) of
each species. The project models the two parts of its server that carry
logic of their own:

- **public_id extraction** (`destroyImage` in `server/src/utils/uploadImage.ts`).
  To delete an image, the server gets the asset's public_id back from its
  delivery URL. The start is the first occurrence of the folder name
  `"ocean-species"`. The end is one before the first occurrence of the first
  extension in the list `jpeg`, `png`, `jpg`, `webp` that the URL includes.
  The result is `url.slice(start, end)`.
  `js_text.dfy` models JavaScript's `indexOf`, `includes` and `slice`, with
  ECMAScript's index rules: -1 for "not found", negative `slice` indices
  counted from the end, clamping, and an absent end.
  `upload_image.dfy` holds the extraction. It is a method with the source's
  loop over the extension list, which stops at the first hit. The method is
  proved equal to the function `PublicIdOf`, and the lemmas state what that
  function yields on every kind of URL.
- **point request handling** (`server/src/controllers/point.controller.ts`).
  `isValidLatLng` is modelled over an abstract JavaScript number: a finite
  real, NaN, +Infinity or -Infinity. Comparisons follow JavaScript's rules.
  Each handler is a pure decision function. Its inputs are the coerced
  parameters and the outcome of the store call: either the call threw, or it
  returned rows and a `rowCount`. It returns the query it issues (name, SQL
  template and bound values), or none, together with the response (status,
  message, and the `point`/`points` members of the body).

Modules: `Maybe` (maybe.dfy, the optional value), `JsText`, `UploadImage`,
`PointController`.

## Model

| member | source | states |
|---|---|---|
| `JsText.IndexOf` | server/src/utils/uploadImage.ts:29 | the result is -1 exactly when the pattern occurs nowhere; otherwise the pattern occurs there and at no earlier position |
| `JsText.IndexFrom` | server/src/utils/uploadImage.ts:34 | the first occurrence at or after a position, or -1 when there is none from there on |
| `JsText.Includes` | server/src/utils/uploadImage.ts:33 | `includes` holds exactly when the pattern occurs at some position |
| `JsText.IndexOfIs` | server/src/utils/uploadImage.ts:29 | an occurrence with none before it is the position `indexOf` reports |
| `JsText.IncludesWhenOccurs` | server/src/utils/uploadImage.ts:33 | any occurrence makes `includes` true, and `indexOf` is at or before it |
| `JsText.NotIncludes` | server/src/utils/uploadImage.ts:33 | when `includes` is false the pattern occurs at no position |
| `JsText.RelativeIndex` | server/src/utils/uploadImage.ts:39 | a negative index counts back from the length; the position is clamped to 0..length |
| `JsText.Slice` | server/src/utils/uploadImage.ts:39 | the result has length max(0, end - start) of the normalised indices, and its k-th character is the string's character at start + k |
| `JsText.SliceIsSubstring` | server/src/utils/uploadImage.ts:39 | every slice is the contiguous run of the string that begins at the normalised start |
| `JsText.SliceEmptyWhenEndNotAfterStart` | server/src/utils/uploadImage.ts:39 | when the normalised end is not after the normalised start, the slice is empty |
| `UploadImage.UploadFolder` | server/src/utils/uploadImage.ts:9 | uploads go to `CLOUDINARY_FOLDER`, or to `"ocean-species"` when it is unset or empty; the folder is never empty |
| `UploadImage.FirstIncludedFrom` | server/src/utils/uploadImage.ts:32-37 | the index returned is the first extension, from the given index on, that the URL includes; when none is returned the URL includes none of them |
| `UploadImage.ChosenExt` | server/src/utils/uploadImage.ts:28-37 | the chosen extension is included in the URL and every extension listed before it is not; there is none exactly when the URL includes no listed extension |
| `UploadImage.StartIndexIsFirstMarker` | server/src/utils/uploadImage.ts:29 | the start is -1 exactly when the URL lacks the folder name, and otherwise the folder name's first occurrence |
| `UploadImage.EndIndexBeforeChosenExt` | server/src/utils/uploadImage.ts:30-37 | the end stays undefined exactly when the URL includes no listed extension; otherwise it is one before the first occurrence of the chosen extension |
| `UploadImage.PublicIdBetweenBounds` | server/src/utils/uploadImage.ts:39 | when the start is found at or before a defined end, the end lies inside the URL and the public_id is exactly the run from start to end |
| `UploadImage.ExtractPublicId` | server/src/utils/uploadImage.ts:27-39 | the loop with its early exit computes `url.slice(indexOf(marker), indexOf(firstIncludedExt) - 1 or undefined)`, that is `PublicIdOf(url)` |
| `UploadImage.PublicIdIsSubstring` | server/src/utils/uploadImage.ts:39 | the public_id is a contiguous run of the URL starting at the normalised start, never longer than the URL |
| `UploadImage.PublicIdStartsAtMarker` | server/src/utils/uploadImage.ts:29-39 | when the folder name occurs, the public_id is read from its first occurrence: it begins with `"ocean-species"` when at least that long, and is otherwise a beginning of it |
| `UploadImage.NoExtensionRunsToEnd` | server/src/utils/uploadImage.ts:30-39 | with no listed extension in the URL the end stays undefined and the public_id runs to the end of the URL (from the folder name, when present) |
| `UploadImage.MarkerAbsentAtMostLastChar` | server/src/utils/uploadImage.ts:29-39 | without the folder name, start -1 reads as the last character: the public_id is empty or exactly the URL's last character |
| `UploadImage.ExtensionBeforeMarkerGivesEmpty` | server/src/utils/uploadImage.ts:34-39 | a chosen extension at a position from 1 up to the folder name's position puts the end before the start: the public_id is empty |
| `UploadImage.ExtensionAtZeroDropsLastChar` | server/src/utils/uploadImage.ts:34-39 | a chosen extension at position 0 gives end -1, read as length - 1: the public_id runs from the folder name to just before the last character |
| `UploadImage.ExtensionsDoNotOverlap` | server/src/utils/uploadImage.ts:28 | a listed extension occurs inside another listed extension only as that same extension at position 0 |
| `UploadImage.NoExtensionAcross` | server/src/utils/uploadImage.ts:28-34 | no listed extension covers an `o`, a `/` or a `.`, so no occurrence straddles one |
| `UploadImage.NoExtensionStartsInMarker` | server/src/utils/uploadImage.ts:28-34 | no listed extension starts inside `"ocean-species"`, whatever surrounds it |
| `UploadImage.NoExtensionStartsInPrefix` | server/src/utils/uploadImage.ts:33-34 | a text that includes no listed extension and is followed by an `o` has no extension starting in it |
| `UploadImage.MarkerFoundAfterPrefix` | server/src/utils/uploadImage.ts:29 | in `P + "ocean-species" + rest`, with no folder name in `P`, `indexOf` finds the folder name right after `P` |
| `UploadImage.MarkerFoundBeforeSlash` | server/src/utils/uploadImage.ts:29 | in `P + "ocean-species/" + n + "." + e`, with no folder name in `P`, the start is the length of `P` |
| `UploadImage.NoExtensionBeforeDot` | server/src/utils/uploadImage.ts:32-34 | in `P + "ocean-species/" + n + "." + e`, with no listed extension in `P` or `n`, no listed extension starts before `e` |
| `UploadImage.ExtensionsOnlyAtEnd` | server/src/utils/uploadImage.ts:32-34 | in such a URL every occurrence of a listed extension lies within `e` |
| `UploadImage.ExtensionFoundAfterDot` | server/src/utils/uploadImage.ts:34 | in such a URL, `indexOf(e)` is the position just after the dot |
| `UploadImage.OnlyFinalExtension` | server/src/utils/uploadImage.ts:32-34 | when a listed extension ends the string and no listed extension starts before it, the string includes it and no other listed extension |
| `UploadImage.OnlyExtensionIsSuffix` | server/src/utils/uploadImage.ts:32-34 | a URL of the expected shape includes its own extension and no other listed one |
| `UploadImage.EndWhenOnlyExtension` | server/src/utils/uploadImage.ts:32-37 | when `e` is the only listed extension the URL includes, the end is `indexOf(e) - 1` |
| `UploadImage.EndIsDot` | server/src/utils/uploadImage.ts:32-37 | in a URL of the expected shape the end is the position of the dot |
| `UploadImage.FolderAndNameInside` | server/src/utils/uploadImage.ts:39 | such a URL holds `"ocean-species/" + n` from the end of `P` to the dot |
| `UploadImage.PublicIdBetween` | server/src/utils/uploadImage.ts:39 | with a start and a defined end inside the URL, the public_id is exactly the run between them |
| `UploadImage.WellFormedUrlBounds` | server/src/utils/uploadImage.ts:28-39 | in a URL of the expected shape the start is the folder name, the end is the dot, and the run between them is `"ocean-species/" + n` |
| `UploadImage.WellFormedUrlGivesPublicId` | server/src/utils/uploadImage.ts:28-39 | `P + "ocean-species/" + n + "." + e`, with `e` accepted, no listed extension in `P` or `n` and no folder name in `P`, yields exactly `"ocean-species/" + n`: the `- 1` drops the dot |
| `UploadImage.ConfiguredFolderNotSearched` | server/src/utils/uploadImage.ts:9-29 | when the URL of an asset uploaded under the configured folder does not contain `"ocean-species"`, the extracted public_id is at most one character long and never `folder/name` |
| `UploadImage.ExtensionFoundAfterMarker` | server/src/utils/uploadImage.ts:32-34 | in `P + "ocean-species" + rest`, with no listed extension in `P`, no listed extension starts before `rest`, and a listed `rest` is found right after the folder name |
| `UploadImage.OnlyExtensionAfterMarker` | server/src/utils/uploadImage.ts:32-34 | `P + "ocean-species" + e` includes `e` and no other listed extension |
| `UploadImage.EndRightAfterMarker` | server/src/utils/uploadImage.ts:32-37 | in `P + "ocean-species" + e` the end is the position of the folder name's last letter |
| `UploadImage.AbuttingExtensionBounds` | server/src/utils/uploadImage.ts:29-39 | in `P + "ocean-species" + e` the start is the folder name and the run up to the end is the folder name without its last letter |
| `UploadImage.AbuttingExtensionCutsFolderName` | server/src/utils/uploadImage.ts:29-39 | `P + "ocean-species" + e`, with `e` accepted and neither the folder name nor a listed extension in `P`, yields `"ocean-specie"`: a non-empty public_id need not begin with the whole folder name |
| `UploadImage.AbuttingExtensionExample` | server/src/utils/uploadImage.ts:29-39 | `"ocean-speciespng"` yields `"ocean-specie"` |
| `UploadImage.PngFoundAfterFolder` | server/src/utils/uploadImage.ts:34 | in `P + "ocean-species/" + "png" + rest`, with no listed extension in `P`, `indexOf("png")` is the position right after the slash |
| `UploadImage.ListOrderBounds` | server/src/utils/uploadImage.ts:28-37 | in such a URL without `"jpeg"`, `"png"` is the chosen extension, so the end is the slash and the run up to it is the folder name |
| `UploadImage.ListOrderBeatsSuffix` | server/src/utils/uploadImage.ts:28-37 | `P + "ocean-species/" + "png" + m + "." + e` without `"jpeg"` yields `"ocean-species"`, whatever the real suffix `e` is: list order decides, not the position in the URL |
| `PointController.Coerce` | server/src/controllers/point.controller.ts:66-67 | a missing body field coerces to NaN; a present one keeps its number |
| `PointController.IsInteger` | server/src/controllers/point.controller.ts:112 | `Number.isInteger` holds exactly for finite values equal to some integer; NaN and the infinities are not integers |
| `PointController.IsValidLatLng` | server/src/controllers/point.controller.ts:15-21 | true exactly when both values are finite, -90 <= lat <= 90 and -180 <= lng <= 180, all bounds inclusive; NaN and the infinities are refused |
| `PointController.SelectByName` | server/src/controllers/point.controller.ts:30-34 | the `get-all-points` statement, piece by piece: `SELECT * FROM`, the table, ` WHERE name = `, `$1`; bound to `[speciesName]`; every placeholder bound and every value used |
| `PointController.InsertPoint` | server/src/controllers/point.controller.ts:73-77 | the `create-points` statement, piece by piece: `INSERT INTO`, the table, ` (name, lat, lng) VALUES (`, `$1`, `, `, `$2`, `, `, `$3`, `) RETURNING *`; bound to `[speciesName, lat, lng]`, so the name, latitude and longitude land in their columns; every placeholder bound and every value used |
| `PointController.UpdateById` | server/src/controllers/point.controller.ts:119-123 | the `update-points` statement, piece by piece: `UPDATE`, the table, ` SET lat = `, `$1`, `, lng = `, `$2`, ` WHERE id = `, `$3`, ` RETURNING *`; bound to `[lat, lng, id]`; every placeholder bound and every value used |
| `PointController.DeleteById` | server/src/controllers/point.controller.ts:159-163 | the `delete-points` statement, piece by piece: `DELETE FROM`, the table, ` WHERE id = `, `$1`; bound to `[id]`; every placeholder bound and every value used |
| `PointController.FirstRow` | server/src/controllers/point.controller.ts:81 | `rows[0]` is present exactly when a row came back, and is then the first row |
| `PointController.GetPoints` | server/src/controllers/point.controller.ts:23-54 | always issues `SelectByName(table, speciesName)`; 200 "Get all species distribution points successfully" with every returned row exactly when the query did not throw, otherwise 500 "Internal Server Error" and nothing else |
| `PointController.CreatePoint` | server/src/controllers/point.controller.ts:56-97 | a query is issued exactly when the coordinates are valid, and it is `InsertPoint(table, speciesName, lat, lng)`; 400 "Invalid lat/lng" exactly when not; 500 exactly when the insert threw; 201 "Create species distribution points successfully" with the first returned row otherwise |
| `PointController.UpdatePoint` | server/src/controllers/point.controller.ts:99-147 | a non-integer id (NaN included) gives 400 "Invalid id" whatever the coordinates; then invalid coordinates give 400 "Invalid lat/lng"; the query, issued exactly when both checks pass, is `UpdateById(table, lat, lng, id)`; 500 when it threw, 404 "Point not found" exactly when `rowCount` is 0, otherwise 200 "Update species distribution points successfully" with the first returned row |
| `PointController.DeletePoint` | server/src/controllers/point.controller.ts:149-186 | a query is issued exactly when the id is an integer, and it is `DeleteById(table, id)`; 400 "Invalid id" otherwise; 500 when it threw, 404 exactly when `rowCount` is 0, otherwise 200 "Delete species distribution points successfully" with no point |
| `PointController.NonFiniteCoordinateRefused` | server/src/controllers/point.controller.ts:66-71 | a missing, NaN or infinite coordinate makes `createPoint` answer 400 "Invalid lat/lng" and `updatePoint` answer 400, without any query |
| `PointController.RefusalIndependentOfStore` | server/src/controllers/point.controller.ts:112-119 | a request refused by validation gets the same response whatever the store would have returned: validation comes before the query |
| `PointController.StoreErrorRevealsNothing` | server/src/controllers/point.controller.ts:40-52 | a thrown store error is answered 500 "Internal Server Error" with no point, no rows and no error detail, in every handler that reached its query |
| `PointController.LatitudeOutOfRangeScenario` | server/src/controllers/point.controller.ts:69-71 | a latitude of 91 is refused with 400 "Invalid lat/lng" and no insert |
| `PointController.CreateScenario` | server/src/controllers/point.controller.ts:73-82 | (45, -120) for species "7" is inserted with those values and answered 201 with the returned row |
| `PointController.MissingPointScenario` | server/src/controllers/point.controller.ts:112-127 | updating a point for which the store reports `rowCount` 0 issues the update and is answered 404 "Point not found" |

## Left out

- `uploadImage` (server/src/utils/uploadImage.ts:14-24) is left out. It uploads through the hosting SDK and removes the temporary file in `finally`, on both the success and the failure path. Both are foreign I/O.
- `destroyImage`'s call to the SDK's `destroy` (line 41) is left out. The model stops at the public_id that would be passed to it.
- The PostgreSQL client and SQL execution are left out. A query's outcome is an input to each handler, and no points table is modelled.
- `table` is the text that `${process.env.PG_POINTS_TB}` interpolates to. An unset variable interpolates as `"undefined"`, and the model does not derive this.
- JavaScript's `Number()` parsing of strings is left out, and so is IEEE-754 rounding. The handlers receive numbers already coerced, and finite values are reals. The bounds ±90 and ±180 are exact in binary floating point. A body field that is present coerces to whatever number the caller supplies. Only a missing field (`undefined` → NaN) is modelled as coercion.
- Console logging and the `error instanceof Error` branching are left out. Both branches give the same 500 response.
- Routing is left out, and the species name is a plain input. The routes at server/src/routes/point.route.ts:11-12 bind `/:speciesId`, while `getPoints` and `createPoint` read `req.params.speciesName`. As deployed, that parameter is therefore always `undefined`, which node-postgres binds as SQL NULL. `WHERE name = NULL` matches no row, so the deployed `getPoints` answers 200 with an empty list. The deployed insert writes a NULL name, or it throws on a NOT NULL column and answers 500. `CreateScenario`'s species `"7"` describes the handler only under this plain-input abstraction.
- server/src/config/multer.ts (disk storage, file names from the clock and randomness, a MIME-type list check) is left out. It is configuration of a library.
- server/src/controllers/species.controller.ts holds only placeholder responses and is not modelled.
- UploadImage.MarkerAbsentAtMostLastChar, UploadImage.ExtensionAtZeroDropsLastChar: positions are counted in `char`s, which are Unicode scalar values, while JavaScript counts UTF-16 code units. The two agree on URLs without characters outside the Basic Multilingual Plane. On other URLs, `indexOf` positions differ. `slice(-1)` of a URL ending in such a character yields a lone surrogate in JavaScript, where the model yields the whole character.
- UploadImage.PublicIdStartsAtMarker: does not claim that every non-empty public_id begins with `"ocean-species"`. That is false when an extension directly follows the folder name (`AbuttingExtensionCutsFolderName`) or sits at position 0. The lemma states what does hold.
- The statements are templates: SQL pieces, the interpolated table name and numbered placeholders. Their pieces spell the source's template literals. The model does not render them to one string, and it does not parse SQL.
- Points are selected and inserted by the species `name` column. The code does this, not a species id, and the model follows the code.
