# text-to-url core, modelled in Dafny

The service turns a submitted text into a short link. It stores each
submitted base64 image under a name derived from a SHA-256 digest and
scatters references to those images between the paragraphs of the text. It
then adds an optional title and a footer and saves the document under a
10-digit digest id. A background task deletes data files older than 30 days.

The model covers the pure logic of `app.py`:

- `Strings`: Python's `str.split(sep)`, `sep.join`, `strip()` (Python's
  `isspace` set), `startswith` and `lower()`, all over `seq<char>`.
- `Compose`: `insert_images_into_text`.
  - The list `new_blocks` is a list of tagged blocks (`Text` | `Image`), so
    original paragraphs and inserted images stay distinguishable.
  - `random.sample` becomes a parameter `ps` with the precondition
    `ValidDraw`: `min(B-1, I)` ascending, distinct indices of `range(B)`.
- `ComposeExamples`: worked instances.
- `Ingest`: `process_images` and `get_image_extension`.
  - base64 decoding, SHA-256 `hexdigest`, PIL format sniffing and the image
    file write are function-typed parameters (`Codecs`).
  - Each one is partial where the Python call can raise, except
    `hexDigest`, which is total: model strings hold Unicode scalar values
    only, so `encode()` cannot raise (see "## Left out").
- `Submit`: the string logic of `convert`.
  - It splits the form's image field into entries and rejects empty content.
  - It weaves in the images, prefixes the title and appends the footer.
  - The clock readings and the outcome of the document write are parameters.
- `Retention`: one pass of `cleanup_task`.
  - The directory listing is a map from name to (is a regular file,
    creation time in seconds).
  - `Sweep` is the pass as a filter.
  - `Pass` is the ordered loop inside its single `try`.

Behaviour of the code worth knowing:

- Positions are drawn from `range(len(blocks))`, so the slot after the last
  paragraph can be drawn too. Then an interior blank line can stay empty even
  when there are more images than interior blank lines
  (`ComposeExamples.LastSlotMayBeDrawn`).
- The cleanup loop sits inside one `try`. The first step that raises ends
  the whole pass (`Retention.Pass`), rather than only skipping that file.
  Both reading a file's creation time (the file may vanish after the
  listing) and removing it can raise.
- Only regular files directly in `data/` are candidates. The `images`
  directory is never a file, so stored images are never reclaimed
  (`Retention.DirectoriesSurvive`).
- Saving opens the file with mode `'w'`, so an id collision overwrites. There
  is no "already exists" error.
- Ids are 10 digest digits of the content plus a timestamp with 1-second
  resolution. No random suffix is added.
- `process_images` keeps the successful names in input order.

## Model

| member | source | states |
|---|---|---|
| Strings.Split | app.py:88 | `split` always yields at least one piece, the first piece opens the text, and no piece contains the separator; every cut is at the leftmost occurrence: the first of several pieces is followed by the separator, and no piece but the last runs into a separator that starts inside it |
| Strings.SplitFirstCut | app.py:88 | the first cut falls at the leftmost occurrence of the separator in the text, and there is no cut when none occurs |
| Strings.JoinAppend | app.py:112 | `join` puts exactly one separator between a list and an appended part, the contract of `join` used by the round-trip lemmas below |
| Strings.JoinSplit | app.py:88-112 | joining the paragraphs that `split('\n\n')` produced with the same separator gives back the original text |
| Strings.SplitSingle | app.py:88-94 | `split` yields exactly one block iff the separator does not occur in the text, and that block is then the whole text |
| Strings.SplitJoinChar | app.py:162 | splitting on a one-character separator undoes a join when no part contains it |
| Strings.Strip | app.py:163 | `strip()` returns the slice of the line that starts at its first non-whitespace character; everything in front of and behind that slice is whitespace; the slice neither starts nor ends with whitespace; an already stripped line is unchanged |
| Strings.StripEmpty | app.py:163 | `strip()` gives the empty string exactly when every character is whitespace, so such a line is dropped |
| Strings.Lower | app.py:78 | `lower()` keeps the length, leaves no upper-case ASCII letter and changes only upper-case letters |
| Compose.StepDrawn | app.py:100-104 | an iteration at a drawn index appends the paragraph and then the next unused image, which exists, and keeps the loop invariant |
| Compose.StepSkipped | app.py:100-102 | an iteration at an index that was not drawn appends only the paragraph and keeps the loop invariant |
| Compose.WalkKinds | app.py:98-105 | whatever positions are drawn, the first `n` iterations append paragraphs `0..n` and images `0..images_used`, each kind in order |
| Compose.WalkSpec | app.py:98-105 | loop invariant: after `n` iterations the first `n` paragraphs are present in order, `images_used` equals the number of drawn positions below `n`, and the placed images are the first `images_used` images, each directly after a paragraph and positioned by the draw |
| Compose.Weave | app.py:97-110 | whatever positions are drawn, `new_blocks` holds every paragraph and every image exactly once, each kind in its original order, `B + I` blocks in all |
| Compose.WeaveSpec | app.py:97-112 | for a valid draw: every paragraph and every image appears exactly once, each kind in its original order, `B + I` blocks in all; before the paragraph with index `i` stand exactly the images of drawn positions below `i`; up to the last drawn image no two images are adjacent; the undrawn images `images[k..]` close the list in order |
| Compose.InsertImages | app.py:82-94 | no images return the text unchanged; a text without a blank line gets the text, a blank line and all image references joined by blank lines, in input order |
| Compose.InsertImagesJoinsWeave | app.py:82-112 | all three branches equal the join of one woven block list, with the empty draw where nothing is drawn |
| Compose.LayoutJoins | app.py:82-112 | in every branch the returned text is the block list `new_blocks` joined by blank lines |
| Compose.LayoutSpec | app.py:82-112 | in every branch the block list holds the paragraphs and the images, each in order, `B + I` blocks in all, with images placed by the draw (no image before any paragraph when nothing is drawn) |
| ComposeExamples.LastSlotMayBeDrawn | app.py:97-110 | with two paragraphs and two images, drawing position 1 (the slot after the last paragraph) leaves the interior blank line without an image |
| ComposeExamples.ThreeParagraphs | app.py:88-112 | `"A\n\nB\n\nC"` with one image drawn at position 2 gets the image after `C` |
| Ingest.StripDataUrl | app.py:51-52 | a `data:image/` entry keeps exactly the text after its first comma and fails when it has no comma; any other entry is kept whole |
| Ingest.DataUrlPayload | app.py:51-52 | a data URL whose media type has no comma yields exactly its payload, commas included |
| Ingest.ImageExtension | app.py:74-80 | the extension is `jpg` when sniffing fails; otherwise it has the sniffed format's length, each upper-case ASCII letter becomes its lower-case form and every other character is kept |
| Ingest.FileNameRoundTrip | app.py:59-61 | a stored name splits at its first dot back into the (at most) 10-digit digest prefix and the extension |
| Ingest.ProcessEntry | app.py:49-68 | an entry without a payload yields nothing; a name is returned only for bytes that decoded from the payload and were written under that name |
| Ingest.ProcessEntryName | app.py:49-68 | an entry yields a name only if its payload exists and decodes; the name is the digest prefix of payload plus time stamp, a dot and the sniffed extension, and nothing more; a comma-less data URL yields nothing; conversely a decoding payload whose bytes are written yields that name |
| Ingest.ProcessImages | app.py:45-72 | at most one name per entry |
| Ingest.NamesComeFromEntries | app.py:45-72 | every returned name is the stored name of some entry |
| Ingest.ProcessImagesAppend | app.py:48-71 | processing a batch in two parts gives the parts' results concatenated in order |
| Ingest.SkipFailedEntry | app.py:69-71 | a failing entry contributes nothing and later entries are processed as if it were absent |
| Ingest.AllEntriesSucceed | app.py:48-68 | when every entry succeeds, the result has one name per entry, in input order |
| Ingest.MiddleEntryFails | app.py:48-71 | three entries with the middle one failing give exactly the first and third names, in order |
| Submit.KeepStripped | app.py:163 | the kept entries are non-empty and stripped, at most one per line |
| Submit.KeepStrippedLine | app.py:163 | one line is kept, as its stripped form, exactly when it is not blank |
| Submit.KeepStrippedAppend | app.py:163 | lines are filtered one by one: the entries kept from two runs of lines are those of each run, in order |
| Submit.FormImageEntries | app.py:162-163 | the form's entries are non-empty and stripped, at most one per line of the field |
| Submit.FormEntriesOneLine | app.py:162-163 | no form entry contains a line break |
| Submit.FormEntriesRoundTrip | app.py:162-163 | entries that are non-empty, stripped and newline-free, pasted one per line, come back exactly |
| Submit.TitleHeader | app.py:175-176 | the header is empty exactly when the title is empty |
| Submit.Document | app.py:175-180 | the document ends with the footer and its time stamp, starts with `# title` and a blank line for a non-empty title, and the body is recovered between header and footer |
| Submit.Convert | app.py:160-190 | empty content and nothing else gives the "content required" error; the save error comes exactly when the content is non-empty and the write of the document under its id fails; a result is returned only for a document that was written under its id; that document ends with the footer, starts with the title header when there is a title, and holds the woven text between them; the id is the first 10 digits of the digest of content and time stamp (all of a shorter digest) |
| Submit.ConvertLayout | app.py:169-180 | when the draw fits, a saved document is the header, the joined block list of the text with its images, and the footer |
| Retention.AgeDays | app.py:34-36 | `.days` is the floor of the age in days |
| Retention.Expired | app.py:32-36 | an entry is deleted exactly when it is a regular file at least 31 full days old |
| Retention.Sweep | app.py:30-38 | the pass keeps directories and files younger than 31 days unchanged and removes exactly the other files |
| Retention.SweepIdempotent | app.py:30-38 | a second pass at the same moment removes nothing more |
| Retention.SweepMonotone | app.py:30-38 | a later pass removes at least what an earlier one would |
| Retention.DirectoriesSurvive | app.py:30-32 | a directory, such as `images`, is never removed |
| Retention.FutureFilesSurvive | app.py:34-36 | a file created after `now` is never removed |
| Retention.Pass | app.py:26-41 | only expired files are removed, and no more names than are listed; the pass is aborted exactly when, for some listed regular file, reading its creation time raises or it is expired and its removal raises; a pass that no exception ends removes every expired file listed |
| Retention.PassStopsAtFirstFailure | app.py:26-41 | the names removed are exactly the expired names before the first step (creation-time read or removal) that raises, in listing order, and the pass is aborted exactly when such a step exists |
| Retention.PassIsSweep | app.py:30-38 | when no creation-time read and no removal raises, the ordered pass leaves exactly what `Sweep` keeps |

## Left out

- Flask routing, `request.is_json`, the defaults of `.get`, `jsonify`, the reply URL and `created_at`, and the HTML templates (app.py:114-269): web plumbing. Requests arrive as `Submit.Request` with string fields.
- JSON values that are not strings (`null`, numbers, non-string list items): the request layer is outside the model.
- Text holding a lone surrogate (JSON `"\ud800"`, which `json.loads` accepts): a Dafny `char` is a Unicode scalar value, so model strings cannot hold one. For such `content`, `(content + timestamp).encode()` at app.py:183 raises `UnicodeEncodeError` outside any `try`, and the request ends in an unhandled server error rather than `Submit.Convert`'s `Success` or `SaveFailed`. In an image entry, the same text makes `base64.b64decode` raise first, which the model's `decode` already covers.
- The `/view` route, markdown rendering and the plain-text fallback (app.py:198-259): a foreign library call.
- The `/api/status` endpoint (app.py:261-269): float uptime and a directory count, no logic.
- File reads and writes, `os.listdir`, `os.path.isfile`, `getctime`, `os.remove` and directory creation: I/O. They appear as the listing map and the `save`/`saveText`/`statOk`/`removeOk` outcomes. `statOk` covers both `getctime` raising for a vanished file and `fromtimestamp` raising on an out-of-range time (app.py:34).
- Other exceptions inside the cleanup `try` (app.py:27-41) also end the pass: `os.listdir` raising, and a `print` that raises, including the one after a successful removal (app.py:38). The model lets only creation-time reads and removals raise.
- The cleanup thread, its endless loop and `time.sleep` (app.py:24-29, 39-43, 276-277): concurrency and timing. One pass is modelled.
- The `print` logging: its output has no effect on results; a `print` that raises is covered by the line on the cleanup `try` above.
- SHA-256, base64 decoding (RFC 4648 section 4) and PIL format detection: library internals. They are uninterpreted function parameters.
- `random.sample`: replaced by the draw parameter `ps` and its precondition.
- `datetime.now()`, `strftime` and `fromtimestamp`: formatted time stamps are string parameters (in `Submit.Convert`, a function from the entry index for the readings taken per image) and creation times are whole seconds. Local-time conversion and sub-second fractions are not modelled.
- Ingest.ImageExtension: lower-cases ASCII letters only, while Python's `lower()` also maps non-ASCII letters. PIL format names are ASCII.
- Re-splitting a composed text need not give back `new_blocks`: a paragraph ending in a line break merges with the next separator. The properties are therefore stated on the block list before the join, in `Compose.LayoutSpec` and `Compose.WeaveSpec`.
