# data-dic-api: offline transform pipeline and loader

This project models the part of the data dictionary server that turns a directory of entity
JSON documents into the contents of its document store:

- **Repair and normalise** (`server/process/preproc.go`). Four byte rewrites are applied in a
  fixed order:
  - `rmLF` strips CR and LF.
  - `rmPtag` turns `</p> <p>` into `<br>`, then deletes stray `<p>` and `</p>`.
  - `escQuInHTML` escapes quotes inside HTML tags that carry attributes.
  - `fixErrComma` drops a trailing comma before `}` or `]`.

  After the rewrites, `padIdentifier` zero-pads `Metadata.Identifier`. Two directory passes
  use these:
  - `Preproc` writes repaired files to an output directory, or quarantines a file that is
    still invalid.
  - `FixFileName` copies each document to `<Entity>.json` and refuses to overwrite.
- **Path-value documents** (`server/process/genstruct.go`). `GenEntityPathVal` flattens each
  document into `"path": "value"` members and rebuilds them into one JSON object per
  `Entity`. In each key, `.` becomes `[dot]`; in each value, `"` becomes `\"`.
  `DumpPathValue` writes each object to `<Entity>.json`.
- **Collection membership** (`server/process/collection.go`). `DumpCollection` inverts every
  document's `Collections[i].Name` list into a map from collection name to document stems. It
  then tags the map with a reference field and writes it.
- **Loader** (`server/ingest/ingest.go`):
  - `ingestFromDir` and `ingestFromFile` upsert files into a store collection by their id
    field.
  - `ingestAll` runs six such stages in a fixed order, then the back-fill
    `colEntitiesToCollections`, which splices each collection's member list into its stored
    document.
  - `clearDb` drops five collections in a fixed order.
  - `IngestViaCmd` decides between a timeout, a failed command, and clearing and loading.

Several ideas run through the model:

- Go strings and byte slices are `string`, one character per byte. Each regular expression
  becomes a left-to-right scanner that finds the leftmost match at each position.
- The JSON libraries are passed in as a `JsonLib` value of functions: decoding, the validity
  test, field setting, flattening and encoding. gjson paths are evaluated by `Json.Lookup` on
  the decoded value.
- A directory is a `Files.Folder` object: a map from file name to bytes, plus the names whose
  writes fail. A listing is a sequence of `Entry` values in the order `os.ReadDir` returns.
  A failed read is an entry with no content.
- The store is a `Store.Db` object: one map from id to document per collection, plus the
  collections whose reads or writes fail.
- Every directory loop that returns at its first error is an instance of `Fold.Run`. Each
  method is proved equal to its `Run`, and the properties are stated as lemmas about `Run`.
- A failure that terminates the process (`log.Fatalln`, `lk.FailOnErr`, a failed type
  assertion) is the outcome `Aborted`. An error that is returned is `Failed`.

Where the code does something other than its surrounding description suggests, the model
follows the code:

- `Preproc` ends the whole batch at the first file that cannot be read, stays invalid, or has
  a bad identifier. Later files are not processed (`Preprocess.PreprocQuarantines`,
  `Preprocess.PreprocStopsOnBadIdentifier`).
- The quarantined bytes are the rewritten ones, not the original file
  (`Preprocess.PreprocQuarantines`).
- There is no HTML exemption for the identifier. `padIdentifier` rejects any identifier that
  is not a plain unsigned decimal (`Identifier.PaddedIdMeaning`).
- The back-fill's type assertion fails for a stored collection that no document names. The
  membership document `DumpCollection` writes has no key for such a collection, so the
  back-fill aborts (`Ingest.DumpedMembership`, `Ingest.SpliceOne`).
- `fixErrComma` is not idempotent. Reading `strs.RangeReplace` as replacing each
  comma-and-whitespace span by one space, `,,}` becomes `, }`, which becomes ` }`
  (`Repair.FixErrCommaNotIdempotent`). One pass leaves no trailing comma when no comma is
  followed, after whitespace, by another (`Repair.FixErrCommaRemovesTrailingCommas`).
- `rmPtag` deletes in one pass. `<<p>p>` becomes `<p>` (`Repair.RmPtagSinglePass`).
- Values are escaped for quotes only. A value holding a backslash or a control character
  assembles into text that does not read back as a JSON string
  (`PathValue.BackslashValueUnreadable`, `PathValue.ControlValueUnreadable`), and the validity
  check then rejects the file.

## Model

| member | source | states |
|---|---|---|
| Strings.ReplaceAll | server/process/preproc.go:89-90 | Replacing every occurrence changes nothing when the pattern is absent. It never lengthens the text when the replacement is no longer than the pattern. It introduces only the replacement's characters, and it removes a single-character pattern completely. |
| Strings.CountReplaceAll | server/process/preproc.go:89-90 | Replacing a pattern by text with as many copies of a character keeps that character's count. |
| Repair.RmLF | server/process/preproc.go:79-83 | The result holds no `\n` and no `\r`, and it is never longer than the input. |
| Repair.RmLFKeepsOtherBytes | server/process/preproc.go:79-83 | The result is the input with exactly the CR and LF bytes removed, every other byte kept in order. |
| Repair.RmLFIdempotent | server/process/preproc.go:79-83 | Applying rmLF twice gives the same result as applying it once. |
| Repair.RmPtag | server/process/preproc.go:109-123 | The result is never longer than the input, and it introduces no character outside the input and `<br>`. |
| Repair.RmPtagWithoutTags | server/process/preproc.go:109-123 | Text without `<p>` or `</p>` passes through unchanged. |
| Repair.RmPtagParaBreak | server/process/preproc.go:110-123 | Between text without `<`, one `</p>`, any whitespace and `<p>` become exactly one `<br>`, and nothing else changes. |
| Repair.RmPtagRemovesTags | server/process/preproc.go:109-123 | When every `<` of the input begins `<p>`, `</p>` or `<br>`, the result contains no `<p>` and no `</p>`, and every `<` left begins `<br>`. |
| Repair.RmPtagSinglePass | server/process/preproc.go:114-121 | Deletion is a single pass: `<<p>p>` leaves a `<p>` behind. |
| Repair.EscQuInHTML | server/process/preproc.go:85-93 | Text with no attribute-bearing tag is unchanged, and the result introduces no character other than `\` and `"`. |
| Repair.EscQuInHTMLKeepsPrefix | server/process/preproc.go:85-93 | The text before the first position where a tag with attributes starts is copied unchanged. |
| Repair.EscQuInHTMLFirstTag | server/process/preproc.go:85-93 | At the first tag with attributes, the output is the text before it, the tag rewritten by the two in-tag replacements, then the rewrite of the rest. |
| Repair.EscTagEscapesEveryQuote | server/process/preproc.go:89-90 | Inside a rewritten tag every quote is preceded by a backslash. |
| Repair.EscTagKeepsQuoteCount | server/process/preproc.go:89-90 | Rewriting a tag neither adds nor removes quotes. |
| Repair.EscQuInHTMLKeepsQuoteCount | server/process/preproc.go:85-93 | The whole rewrite keeps the number of quotes in the text. |
| Repair.EscapeTwiceCollapses | server/process/preproc.go:89-90 | For text without backslashes, collapsing `\\` after escaping twice undoes the second escape, so an escaped `\"` stays `\"`. |
| Repair.EscTagOnCleanTag | server/process/preproc.go:89-90 | For a tag without backslashes the rewrite is exactly quote escaping, and rewriting its output again changes nothing. |
| Repair.PlainTagsUntouched | server/process/preproc.go:85-93 | Text in which no `<` starts a word, a space and more before `>` (attribute-less tags such as `<b>`) is unchanged. |
| Repair.FixErrComma | server/process/preproc.go:95-107 | Text without a comma before optional whitespace and a closing bracket is unchanged. The result is never longer and introduces no character other than a space. |
| Repair.FixErrCommaKeepsPrefix | server/process/preproc.go:95-107 | The text before the first trailing comma is copied unchanged, commas included. |
| Repair.FixErrCommaFirstMatch | server/process/preproc.go:95-107 | At the first comma followed by optional whitespace and a bracket, the output is the text before it, one space, the bracket, then the rewrite of the rest. |
| Repair.FixErrCommaRemovesTrailingCommas | server/process/preproc.go:95-107 | When no comma is followed, after optional whitespace, by another comma, the result has no comma before optional whitespace and a closing bracket. |
| Repair.FixErrCommaOnlyTouchesCommas | server/process/preproc.go:95-107 | Ignoring commas and whitespace, the result equals the input: brackets and all other bytes are kept in order. |
| Repair.FixErrCommaNotIdempotent | server/process/preproc.go:95-107 | `,,}` becomes `, }` and then ` }`, so a second run can change the result. |
| Repair.RepairedHasNoLineBreaks | server/process/preproc.go:168-171 | After the four rewrites in their fixed order, the data holds no CR and no LF. |
| Decimal.DecimalOf | server/process/preproc.go:133-134 | The decimal form of a number is a non-empty digit string with that value and no leading zero. |
| Decimal.ValueOfLeadingZeros | server/process/preproc.go:133-134 | Zero-padding keeps a digit string's value. |
| Identifier.PaddedIdMeaning | server/process/preproc.go:125-141 | An identifier is accepted exactly when it is a non-empty run of decimal digits below 2^64. The padded text is then all digits with the same value, as long as the requested width or the plain decimal form, whichever is longer, and ends with that plain form, so nothing is cut off. |
| Identifier.PaddedIdIdempotent | server/process/preproc.go:125-141 | Padding an already padded identifier gives it back unchanged. |
| Identifier.PaddedIdPadsExample | server/process/preproc.go:125-141 | `42` pads to `00000042` at width 8. |
| Identifier.PaddedIdRejectsExamples | server/process/preproc.go:125-141 | `abc`, the empty string and `-1` are rejected. |
| Identifier.PadIdentifierIdempotent | server/process/preproc.go:125-141 | padIdentifier applied to its own output gives the same document, when the JSON library reads back what it sets. |
| Files.Written | server/process/preproc.go:193-196 | A write puts the data under its name unless the filesystem refuses it, and leaves every other file alone. |
| Files.Folder.Write | server/process/preproc.go:56-58 | The write succeeds exactly when the name is not refused, and the folder becomes `Written` of its old files. |
| Preprocess.FixFileName | server/process/preproc.go:23-68 | The method returns the outcome of the renaming pass over the listing and leaves the destination holding that pass's files. |
| Preprocess.RenameKeepsAndCopies | server/process/preproc.go:30-67 | Whatever the outcome, every file already in the destination keeps its bytes. Every new file is a verbatim copy of a readable `.json` file whose Entity is its name. |
| Preprocess.RenameDoneMeansNoCollision | server/process/preproc.go:34-58 | After a completed pass, every `.json` file was read and its destination did not exist beforehand. The destination holds the source's bytes. |
| Preprocess.RenameDoneDistinct | server/process/preproc.go:41-53 | In a completed pass the destination names of the copied files are pairwise different. |
| Preprocess.RenameStopsAtCollision | server/process/preproc.go:49-53 | A destination that exists ends the pass with a collision error. That file is not written, earlier copies stay, and later files are not looked at. |
| Preprocess.Preproc | server/process/preproc.go:144-202 | The method returns the outcome of the pass over the listing, and the output and quarantine directories are left as that pass leaves them. |
| Preprocess.PreprocFile | server/process/preproc.go:152-198 | One loop iteration has exactly the effect of one step of the pass on both directories, and it returns when that step stops the pass. |
| Preprocess.PreprocSkips | server/process/preproc.go:151-166 | A non-`.json` entry or an empty `.json` file can be removed from the listing without changing the result. |
| Preprocess.PreprocQuarantines | server/process/preproc.go:168-182 | A file still invalid after the rewrites is written to the quarantine under its own name with its rewritten bytes. The pass then returns an invalid-JSON error, and no later file is processed. |
| Preprocess.PreprocStopsOnBadIdentifier | server/process/preproc.go:184-188 | A rejected identifier ends the pass with that error. The file is neither written nor quarantined, and no later file is processed. |
| Preprocess.PreprocFailsHere | server/process/preproc.go:168-188 | A file judged a failure, after a prefix of the listing that left the pass going, ends the pass with that file's error and the directories as the prefix left them. |
| Preprocess.JudgeWrite | server/process/preproc.go:164-190 | A file is written only if it is a non-empty `.json` file whose rewritten bytes are valid. What is written is those bytes with the identifier padded. |
| Preprocess.PreprocOutput | server/process/preproc.go:151-200 | A pass completes exactly when its effect on the output alone completes. It then leaves the quarantine untouched and fills the output as that effect does. |
| Preprocess.PreprocDoneChecked | server/process/preproc.go:151-200 | A completed pass quarantined nothing, and every entry was either skipped or written. |
| Preprocess.PreprocDoneWrites | server/process/preproc.go:184-196 | After a completed pass, each written file's name holds its repaired, padded bytes, unless the write was refused or a later file of the same name replaced it. |
| Preprocess.PreprocDoneNames | server/process/preproc.go:193-196 | A completed pass adds to the output only names of written files. |
| PathValue.EscKey | server/process/genstruct.go:44 | An object key never contains `.`. |
| PathValue.UnescEscKey | server/process/genstruct.go:44 | A path without `[dot]` is recovered from its key, so distinct such paths get distinct keys. |
| PathValue.AssembleObject | server/process/genstruct.go:42-48 | The `+=` loop, the trimmed trailing comma and the closing brace build exactly the object text of the members. |
| PathValue.ObjectTextShape | server/process/genstruct.go:42-48 | The text starts with `{` and ends with `}`. It is `{}` without members; otherwise a member's quote follows `{` and precedes `}`, so there is no trailing comma. |
| PathValue.ReadEscapedValue | server/process/genstruct.go:45-46 | A value without backslashes and control characters, once quote-escaped, reads back as the original value. |
| PathValue.BackslashValueUnreadable | server/process/genstruct.go:45-46 | A one-backslash value is emitted as `"\"`, which does not read back as a string. |
| PathValue.ControlValueUnreadable | server/process/genstruct.go:45-46 | A value made of one control character is emitted unescaped, and the text does not read back as a string. |
| PathValue.ObjectTextReadsBack | server/process/genstruct.go:41-48 | An object assembled from plain pairs (no quote, backslash or `[dot]` in a path, no backslash in a value, no control character in either) reads back as exactly those pairs, in order, with single commas between members. |
| PathValue.Find | server/process/genstruct.go:35 | A key lookup finds a leaf with that path, or reports that there is none. |
| PathValue.AsText | server/process/genstruct.go:43-45 | The leaves are turned into text exactly when every leaf is a string, each pair keeping its path. |
| PathValue.GenEntityPathVal | server/process/genstruct.go:17-57 | The method returns the outcome of the pass over the files. It returns the filled map when the pass completes and an empty map on error. |
| PathValue.Contribute | server/process/genstruct.go:20-54 | One loop iteration skips the file, puts it, or ends the call, exactly as the file's contribution says. |
| PathValue.GenSkipsReserved | server/process/genstruct.go:20-22 | A path ending in `class-link.json` or `collection-entities.json` can be removed from the input without changing the result. |
| PathValue.GenStopsOnError | server/process/genstruct.go:23-52 | A read or flatten error, a missing Entity, a non-string leaf or an invalid object ends the call with an error. No later file is looked at. |
| PathValue.ContributionMeaning | server/process/genstruct.go:20-54 | A file is put exactly when it is not reserved, is read and flattened, has an Entity, has only string leaves, and assembles into a valid object. It is then keyed by its Entity, every key lacks `.`, and every quote of a value is escaped. |
| PathValue.GenDone | server/process/genstruct.go:17-57 | After a completed call, every non-reserved file was put, and the keys are exactly their entities. Each entity holds the object of the last file with that entity. |
| PathValue.WriteAll | server/process/genstruct.go:74-80 | Writing succeeds exactly when no `<Entity>.json` is refused, and then every entry is written and nothing else changes. On failure, a refused entry is named, and the folder holds some of the entries. |
| PathValue.DumpPathValue | server/process/genstruct.go:59-82 | A listing error or a GenEntityPathVal error returns before anything is written. Otherwise the writes behave as WriteAll states. |
| Json.LookupIndexed | server/process/collection.go:32 | The gjson path segment `i` selects element i of an array. |
| Collection.AppendStems | server/process/collection.go:31-34 | The inner loop appends the stem once per `Collections` element, in array order. |
| Collection.Gather | server/process/collection.go:22-37 | The outer loop returns the outcome of the gathering pass, and its lists when the pass completes. |
| Collection.DumpCollection | server/process/collection.go:15-51 | A listing or read error returns before anything is written, and so does a failed set. Otherwise the encoded lists, with `idfield` set, are written to `ofname`, whose refusal is the outcome. |
| Collection.CollectionNamesMeaning | server/process/collection.go:30-32 | Element i of a `Collections` array contributes its `Name`. A document without a `Collections` array contributes no name. |
| Collection.AddedAllMeaning | server/process/collection.go:31-34 | After the inner loop, the lists are the old ones plus the named ones. Each list grows by the stem repeated once per occurrence of its name. |
| Collection.GatheredLists | server/process/collection.go:22-37 | After a completed pass each collection's list is its reference list. The list holds the stems of the `.json` files naming it, in listing order, duplicates kept. |
| Collection.GatheredKeys | server/process/collection.go:22-37 | A collection has a list exactly when some `.json` file read names it. |
| Collection.GatheredCount | server/process/collection.go:30-35 | The lists together hold as many members as there are `Collections` elements across the files read. |
| Collection.DuplicatesKept | server/process/collection.go:33 | A file naming a collection twice is listed twice in it. |
| Collection.ListsDocRoundTrip | server/process/collection.go:38 | The marshalled document holds exactly the gathered lists. |
| Store.Filled | server/ingest/ingest.go:163-166 | After filling, the collection holds the given documents and every other collection is unchanged. |
| Store.FilledTwice | server/ingest/ingest.go:236-237 | A second non-empty filling of a collection overrides the first. |
| Store.Db.Upsert | server/ingest/ingest.go:163-166 | An upsert succeeds exactly when the collection is writable and the text is JSON. It then stores the decoded document under the id, replacing or inserting. |
| Store.Db.Replace | server/ingest/ingest.go:236-237 | A replace succeeds exactly when the collection is writable, and it rewrites only an existing document. |
| Store.Db.Drop | server/ingest/ingest.go:63-77 | A drop succeeds exactly when the collection is writable, and it removes the collection. |
| Store.Db.Find | server/ingest/ingest.go:224-225 | A find succeeds exactly when the collection is readable, and it returns the collection's documents. |
| Ingest.Load | server/ingest/ingest.go:140-166 | An entry is passed over exactly when it is not `.json`, is excluded, or has an empty id. A put stores the decoded document under its non-empty id. A halt is that file's read or upsert error. |
| Ingest.IngestFromDir | server/ingest/ingest.go:127-178 | A listing error changes nothing. Otherwise the collection ends as the loading pass leaves it, and on success `nFile` counts the files upserted. |
| Ingest.DirDone | server/ingest/ingest.go:137-176 | After a completed load, no eligible file failed. The ids are the earlier ones plus those upserted, each upserted id holds the last such file's document, and every other document is unchanged. |
| Ingest.DirStops | server/ingest/ingest.go:147-171 | A failed load returns the error of one entry. Every entry before it went through and nothing after it was loaded. |
| Ingest.IngestFromFile | server/ingest/ingest.go:180-210 | The method returns the outcome of loading the one file, and the store ends as that load leaves it. |
| Ingest.FileStored | server/ingest/ingest.go:186-206 | A loaded `.json` file is stored under its id, even an empty one. Every other document and every other collection is unchanged. |
| Ingest.StagesStopWithError | server/ingest/ingest.go:81-123 | No stage ends the sequence with success. |
| Ingest.IngestAll | server/ingest/ingest.go:81-123 | The six stages run in order, and the first error is returned with no later stage run. After the last stage, the back-fill runs. |
| Ingest.LoadStages | server/ingest/ingest.go:83-117 | The store ends as the staged pass leaves it, and its outcome is returned. |
| Ingest.LoadStage | server/ingest/ingest.go:84-117 | One stage is one ingestFromDir or ingestFromFile call. |
| Ingest.NoOutputNoChange | server/ingest/ingest.go:84-87 | An output directory that cannot be listed stops ingestAll before anything is stored. |
| Ingest.ClearDb | server/ingest/ingest.go:62-79 | The five drops run in order (pathval, class, colentities, collections, entities) and stop at the first error. |
| Ingest.DropNext | server/ingest/ingest.go:63-77 | One drop either extends the completed prefix of the sequence or ends the whole sequence with that collection's error. |
| Ingest.DroppedGoing | server/ingest/ingest.go:62-79 | Dropping completes exactly when no name is refused. |
| Ingest.DroppedState | server/ingest/ingest.go:62-79 | A completed drop removes exactly the named collections. |
| Ingest.DroppedStops | server/ingest/ingest.go:62-79 | A failed drop stops at the first refused name, with exactly the names before it dropped. |
| Ingest.ColEntitiesToCollections | server/ingest/ingest.go:212-240 | A failed find aborts with nothing changed. A missing membership document also aborts with nothing changed. Otherwise the store ends as the splice loop leaves it. |
| Ingest.SpliceAll | server/ingest/ingest.go:226-239 | The loop succeeds exactly when every stored collection has a member list and no needed rewrite is refused. On success each document is spliced with its members. On failure the abort names a failing collection, and each document is either untouched or spliced. |
| Ingest.SpliceOne | server/ingest/ingest.go:228-238 | A collection missing from the map, or with a non-string member, aborts. Otherwise its members are appended after its existing `Entities`. The document is rewritten only when that list is non-empty, and a refused rewrite aborts. |
| Ingest.MembersOf | server/ingest/ingest.go:228-230 | The element-by-element loop builds the member list exactly when both type assertions succeed. |
| Ingest.SpliceDone | server/ingest/ingest.go:226-239 | A loop that visited every collection without failing has spliced every document. |
| Ingest.SpliceFailed | server/ingest/ingest.go:226-239 | A failure at one collection leaves each document untouched or spliced, and it is reported as that collection's failure. |
| Ingest.DumpedMembership | server/ingest/ingest.go:219-228 | Read through the back-fill, the membership document that DumpCollection writes gives each listed collection exactly its list. Any other collection fails the type assertion. |
| Ingest.IngestViaCmd | server/ingest/ingest.go:25-60 | A timeout or a failed command returns an error with the store unchanged. Otherwise, with `clrdb`, the drops run first and a failed drop is returned. Then ingestAll runs. |

## Left out

- The `./process` subprocess, its goroutine and channel, and the five-second timer are left
  out. They are concurrency and an external process. `IngestViaCmd` takes their three-way
  result as a `Command` value.
- The JSON libraries (gjson, sjson, jt) and `json.Marshal` are left out. They are foreign
  code, given as the functions of `Json.JsonLib`. The error branch of `json.Marshal` on a
  map of string slices, which cannot fail, is not modelled. Neither is the re-encoding of a
  collection document through its Go struct, which would drop unknown fields. A replaced
  document is the stored one with its `Entities` set.
- The MongoDB helper is left out: it is a foreign driver. `Store.Db` keeps one map per
  collection. Driver failures are fixed sets of unreadable and unwritable collections.
  `mh.UseDbCol` only selects the collection passed to each call.
- `Repair.FixErrComma`: `strs.RangeReplace` (server/process/preproc.go:106) is foreign code.
  The model reads each span `[start, end-1]` it is given as the half-open range that ends
  before the bracket, and reuses the single replacement `" "` for every span. The
  `FixErrComma` lemmas hold under that reading of the library.
- `Preprocess.RenameDoneMeansNoCollision`: destination names are taken as flat names in one
  folder. `filepath.Join` (server/process/preproc.go:46) cleans the joined path, so an Entity
  holding `/` or `..` names a file elsewhere, or the same file under two spellings. Where
  that happens, `fd.FileExists` can see a collision the lemma does not.
- `Preprocess.RenameDoneDistinct`: distinct Entity texts are distinct names here. After
  `filepath.Join` cleans them, two Entity values with `/` or `..` can name the same file.
- `PathValue.DumpPathValue`: each `<Entity>.json` is a flat name in the output folder. The
  cleaning by `filepath.Join` (server/process/genstruct.go:75) is not modelled.
- `os.Open` and `file.Close` errors after a successful read are not modelled. `os.ReadFile`
  is the only read that can fail.
- The order of Go map iteration is left open, because Go does not fix it:
  - `DumpPathValue` writes in an order its loop picks.
  - The back-fill visits stored collections in any order.
  - The flattened pairs come in the order the flattener returns.
- `Ingest.SpliceAll`: after a failure it states only that each document is untouched or
  spliced and which collection failed, not which others were visited. The visiting order is
  the store's.
- `PathValue.DumpPathValue`: on a refused write it states which entry failed, not which
  entries were written before it. `PathValue.WriteAll` states that those form some subset.
- `Ingest.IngestFromDir`: `nFile` is stated only for a completed load. On error the Go code
  does not report it.
- `Preprocess.FixFileName`: the case of an empty output directory name, where the Go code
  writes next to the source file, is modelled by the caller passing that folder as `out`.
- `Preproc` ignores the error of `os.WriteFile` in the Go code, so a refused write leaves the
  directory unchanged and the pass goes on.
- `gio.MustCreateDir` is left out: it is directory creation only.
- `DumpCollection`'s `idvalue` is set as a string; the other dynamic types of `any` are not
  modelled.
- `Ingest.EntitiesOf`: an `Entities` field that is not an array of strings is read as empty.
- `ingestAll` reads its directories from fixed paths. The model takes them as an `OutDir`
  value, which holds the listings and the two special files.
- server/init.go is not part of this model. It is a near-copy of the two ingest functions
  with a different id field.
- The HTTP handlers, the route tables, the email and release tools, and the orchestration in
  `server/process/process.go` and `server/process/cmd/main.go` are not part of this model.
  `DumpClassLinkage` is not part of this model either; its source is not available.
- The log messages (`lk.Log`, `lk.Warn`) are left out: they are output only.
