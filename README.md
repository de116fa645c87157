# Biblio export: serialiser and listing alignment

A Dafny model of the core of `export-biblio.js`, a script that exports a Drupal
Biblio listing to a BibTeX file and downloads each entry's attachment. The model
covers two parts of the script:

- `toBibtex`, the serialiser that turns the parsed records back into BibTeX text
  (module `Bibtex`, file `bibtex.dfy`);
- the alignment step of `getBibAndPdfs` (module `BiblioExport`, file `biblio.dfy`).
  It scans the listing pages and collects one attachment link per entry. It
  stops only on an empty page or once there are as many links as records. It checks
  that the two counts match. It then writes each non-empty link into its
  record's `url` field, in place. Finally it serialises the records into the
  text of the output file.

A record is a datatype (`Records.Record`). Its `entryTags` object is a sequence
of (name, value) pairs, because the object's string keys enumerate in insertion
order. Assigning `entryTags.url` is `Records.SetTag`: an existing key keeps its
position and a new key is appended. JavaScript truthiness is
`JsValues.Truthy`: an absent value and the empty string are both false. The record
array that `getBibAndPdfs` mutates is an `array<Record>`, updated in place by
`BiblioExport.InjectUrls`.

The HTML side is given as data. A listing is a function from page index to that
page's entries, and each entry is its attachment `href` or `None` (null). Page 0
is the document the script has already loaded. The parsed records are an input.
The `pages` option is an `Option<int>`. When it is set and non-zero the loop
test is `i < pages.length`. A number has no `length`, so that test is false and
no page is scanned; the model keeps this behaviour.

A count mismatch throws a fixed message (line 84), so
`CountMismatch` carries no counts. The injection stores the raw remote `href`
in `url`.

## Model

| member | source | states |
|---|---|---|
| `Bibtex.ToBibtex` | export-biblio.js:28-49 | the loop that appends to `out` produces exactly `Serialize(json)`: one chunk per record, in input order, and `""` for no records |
| `Bibtex.Serialize` | export-biblio.js:29-48 | the output is empty exactly when there are no records |
| `Bibtex.SerializeAppend` | export-biblio.js:30-47 | the output for `a + b` is the output for `a` followed by the output for `b` |
| `Bibtex.SerializeSnoc` | export-biblio.js:30-47 | each loop round appends exactly the new record's chunk |
| `Bibtex.ChunkFrame` | export-biblio.js:31-46 | every chunk starts with `@` + entry type + `{` and ends with `}\n` |
| `Bibtex.ChunkOptionalParts` | export-biblio.js:33-45 | the chunk written out exactly for each of the four key/body combinations: the key plus `,\n` appears exactly when the key is non-empty, the raw body exactly when it is non-empty, and the field block follows directly. No fields object gives no field block; an empty one gives just a newline; a non-empty one gives the joined fields and a newline |
| `Bibtex.JoinTags` | export-biblio.js:38-43 | the field block is empty exactly when there are no fields |
| `Bibtex.JoinTagsSnoc` | export-biblio.js:39-42 | adding a field adds `,\n` before it only when a field came before, so there is no leading separator |
| `Bibtex.RenderTags` | export-biblio.js:38-43 | the inner loop, which tests `tags.length != 0` before each separator, builds exactly `JoinTags` of the fields |
| `Bibtex.TagsRoundTrip` | export-biblio.js:37-45 | when no field name holds a space and no value holds `}`, the field block can be read back to exactly the same field list |
| `Bibtex.UnescapedValueForgesField` | export-biblio.js:42 | values are not escaped: a value holding `},\n` renders the same text as two separate fields |
| `Records.SetTag` | export-biblio.js:88 | assigning a property adds at most one field |
| `Records.SetTagReads` | export-biblio.js:88 | after `obj[key] = value`, `key` reads as `value` and every other key reads as before |
| `Records.SetTagKeys` | export-biblio.js:88 | an existing key keeps its place in the field order; a new key comes last |
| `Records.SetTagKeepsDistinct` | export-biblio.js:88 | the assignment never creates a duplicate field name |
| `Records.SetTagExisting` | export-biblio.js:88 | assigning the value a key already holds leaves the fields unchanged |
| `Records.SetTagIdempotent` | export-biblio.js:88 | assigning the same property twice equals assigning it once |
| `BiblioExport.ScanPages` | export-biblio.js:67-82 | `pdfs` is the concatenation, in page order, of the link lists of the visited pages. With `pages` set and non-zero, no page is visited. Otherwise exactly the pages described by `StopsAt` are visited |
| `BiblioExport.StopIsUnique` | export-biblio.js:68-81 | the stopping rule (stop on an empty page or when `pdfs.length >= bibs.length` at the loop test) picks out one page count |
| `BiblioExport.StopIgnoresLaterPages` | export-biblio.js:68-81 | pages after the stopping point are never read: a listing that agrees on the visited pages stops at the same page with the same links |
| `BiblioExport.OvershootBelowOnePage` | export-biblio.js:68-80 | the link list exceeds the record count by less than the size of the last visited page |
| `BiblioExport.ThreeEntryListing` | export-biblio.js:75-81 | a first page with links A, none and B, scanned for three records, stops after that page with `[A, null, B]` |
| `BiblioExport.WithUrl` | export-biblio.js:87-89 | a record keeps its type, key and raw body. A null or empty link leaves it unchanged; a truthy link leaves it with a fields object |
| `BiblioExport.UrlInjected` | export-biblio.js:87-89 | with a truthy link, `url` reads as the link and every other field reads as before. `url` keeps its place if present, else comes last |
| `BiblioExport.WithUrls` | export-biblio.js:86-90 | injection keeps the record count and leaves every record whose link is null or empty unchanged |
| `BiblioExport.InjectTwice` | export-biblio.js:86-90 | running the injection twice with the same links equals running it once |
| `BiblioExport.WithUrlsDistinct` | export-biblio.js:86-90 | injection never gives a record two fields of the same name: records whose field names were distinct keep distinct names |
| `BiblioExport.InjectUrls` | export-biblio.js:86-90 | in place on the array. It succeeds exactly when no truthy link meets a record without `entryTags`, and then the array equals `WithUrls` of the old one. Otherwise it fails with the first such index, having updated the records before it and left the rest unchanged |
| `BiblioExport.GetBibAndPdfs` | export-biblio.js:67-92 | a count mismatch gives `CountMismatch`, leaves the records unmodified and writes nothing. Otherwise a successful run leaves the records as `WithUrls` of the originals and writes their serialisation. A record without `entryTags` but with a truthy link gives `NoEntryTags` |

## Left out

- `download` (lines 10-25): HTTPS transport and streams. Every page is given as already-fetched data.
- Fetching the bulk export and the fallback path (lines 53-63). HTML parsing with `cheerio` (lines 54-56, 72, 76-78) is not modelled either: each page is its extracted list of links.
- `bibtex.toJSON` (line 63) is a foreign parser. The parsed records are an input.
- The concurrent downloads, `path.basename(url.parse(pdf).pathname)`, `fs.outputFileSync` and `mkdirpSync` (lines 92-107). These are library calls, filesystem effects and concurrency. `GetBibAndPdfs` returns the text that would be written, plus the link list the downloads would use.
- Command-line parsing with `commander` and `process.exit` (lines 113-136).
- Key enumeration order: JavaScript enumerates integer-like keys (such as `"2"`) before other string keys. The model keeps plain insertion order for all keys; BibTeX field names are not integer-like.
- Values that are not strings. A missing `entryType` would print `undefined`. The model's `entryType` and values are always strings.
