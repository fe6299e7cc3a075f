# AlturaTime upload store, modelled in Dafny

AlturaTime's backend (`server.py`) accepts an `.ics` calendar upload. It
stores the file and a small metadata record under a random identifier and
hands back a share link. Three read routes look an id up: the raw
calendar (`/i/<id>`), the record (`/meta/<id>`), and the viewer page
(`/s/<id>`), which loads the record and then renders a template.

This project models the part of the backend that decides and stores. It covers:

- the file-name allow-list `allowed_filename`, with Python's POSIX
  `os.path.splitext` behind it;
- the guard chain of `upload_schedule`, in order;
- the display-name default;
- the share link;
- the upload directory, seen as two id-keyed maps:
  - id → payload bytes, the file `id.ics`;
  - id → metadata record, the file `id.json`;
- the 404 lookups of `get_ics`, `get_meta` and `schedule_page`; for
  `schedule_page` the model stops once the record is loaded, before the
  template is rendered.

The upload route is a pure function, `ArtifactStore.Upload`. Its inputs are:

- the store;
- the request: the `file` part if present, the `name` field if present, and the URL root;
- an environment holding what the route gets from outside:
  - the id that `uuid4().hex` produced;
  - `secure_filename`, as an arbitrary string function;
  - how `FileStorage.save` went;
  - whether the metadata file could be written.

Its result is the new store and the reply:

- `Shared` is the JSON success body;
- `Refused` is an error body with its status;
- `Crashed` is the exception that escapes when the metadata write fails.

Files:

- `pystr.dfy` (`PyStr`): the Python string operations the route relies on.
  - `str.strip()`, with CPython's whitespace set;
  - `str.rstrip("/")`;
  - `str.lower()`;
  - `str.rfind`.
- `posixpath.dfy` (`PosixPath`): `splitext`.
  - `Extension` is a reference definition.
  - `SplitExt` follows the library's own loop and is proved equal to it.
- `gateway.dfy` (`Gateway`): the allow-list, the guard chain, the display name, the id shape and the share link.
- `store.dfy` (`ArtifactStore`): the store and its file-name view, the three lookups, the upload, and their round-trip and frame lemmas.
- `traces.dfy` (`Traces`): runs of many uploads.
  - Consistency holds throughout.
  - While later ids are fresh, a shared link's id keeps passing the `/s/`
    existence check with its record, and `/i/<id>` keeps serving its bytes.
  - Without freshness, a reused id replaces the earlier data.

Three behaviours of the code are worth knowing, and the model follows them:

- The route does no collision check: a repeated id replaces both files (`Traces.ReusedIdReplaces`). Freshness is therefore a premise of `Traces.LinkStaysValid`, not a promise of `Upload`.
- A save that fails part-way leaves the partial `id.ics` on disk, and `/i/<id>` serves it (`ArtifactStore.PartialPayloadAfterFailedSave`). No record and no link are produced for it.
- A failed metadata write is an unhandled exception, not an error reply: the payload stays and no record is added.

`str.lower()` is modelled on ASCII letters only. For the one use made of it, comparing a lowered extension with `".ics"`, this is exact:

- Outside ASCII, the only characters whose lowercase contains an ASCII letter are U+0130 and U+212A.
- U+0130 lowers to two characters, `i` and U+0307.
- U+212A lowers to `k`.
- So neither can produce `.ics`.

## Model

| member | source | states |
|---|---|---|
| `PyStr.StripBy` | server.py:33 | stripping removes characters only from the two ends; all of them are whitespace; a non-empty result neither starts nor ends with whitespace |
| `PyStr.StripIdempotent` | server.py:33 | stripping an already stripped name changes nothing |
| `PyStr.StripEmptyIff` | server.py:52 | the stripped name is empty exactly when the field holds only whitespace |
| `PyStr.RStrip` | server.py:58 | `rstrip("/")` keeps a prefix of the root; only `/` follows it; it does not itself end in `/` |
| `PyStr.RStripAppended` | server.py:58 | one more trailing `/` on the root does not change what `rstrip` leaves |
| `PyStr.RFind` | server.py:21 | `rfind` gives the index of the last occurrence, or -1 when there is none |
| `PosixPath.ExtensionByIndices` | server.py:21 | there is an extension exactly when the last dot follows the last `/` and a non-dot lies between them; it runs from that dot |
| `PosixPath.SplitExt` | server.py:21 | `splitext`, written as the library's scan, splits the path into root and extension that concatenate back to it; the extension is the one of `ExtensionByIndices` |
| `Gateway.AllowedFilenameIff` | server.py:20-21 | a name is allowed exactly when it ends in `.ics` in any letter case and a non-dot precedes that `.ics` in the last path component |
| `Gateway.IcsSuffixChars` | server.py:21 | a string lower-cases to `.ics` exactly when it is a dot followed by i, c, s, each in either case |
| `Gateway.AllowedFilenameExamples` | server.py:20-21 | `A.ICS` and `dir/x.ics` pass; `x.ics.txt`, `.ics`, `..ics`, `ics` and the empty name fail |
| `Gateway.Validate` | server.py:30-39 | the guards run in order: missing `file` part, then empty file name, then a name off the allow-list; a request passes exactly when all three hold |
| `Gateway.RefusalIdentifiesGuard` | server.py:31-39 | each refusal message tells exactly which guard failed |
| `Gateway.DisplayName` | server.py:52 | the recorded name is never empty; it is the placeholder when the field is missing or all whitespace, and the stripped field otherwise |
| `Gateway.PlaceholderStripped` | server.py:52 | the placeholder `Unnamed Student` has no surrounding whitespace |
| `Gateway.DisplayNameStable` | server.py:33-52 | submitting a recorded display name as the `name` field records the same display name |
| `Gateway.ShareLink` | server.py:58-59 | the link ends in `/s/<id>`; before that comes the request root without its trailing slashes |
| `Gateway.ShareLinkNamesId` | server.py:59 | for a hex id, the link's last path segment is the id, and what precedes it is the stripped root plus `/s/` |
| `Gateway.ShareLinkIgnoresTrailingSlash` | server.py:58 | a root with one more trailing `/` yields the same link |
| `ArtifactStore.FileNamesDistinct` | server.py:44-53 | `id.ics` and `id.json` determine the id, and no payload name equals a record name |
| `ArtifactStore.PayloadFileLookup` | server.py:65-66 | the file `id.ics` exists exactly when the id has a payload, and holds it |
| `ArtifactStore.RecordFileLookup` | server.py:72-73 | the file `id.json` exists exactly when the id has a record, and holds it |
| `ArtifactStore.GetIcs` | server.py:65-68 | `/i/<id>`, addressed by file name, answers the id's payload, or 404 when the payload map lacks the id |
| `ArtifactStore.GetMeta` | server.py:72-76 | `/meta/<id>`, addressed by file name, answers the id's record, or 404 when the record map lacks the id |
| `ArtifactStore.SchedulePage` | server.py:81-85 | `/s/<id>` answers 404 exactly when the record map lacks the id; otherwise the existence check passes and the loaded record is what goes on to rendering; payloads are not consulted |
| `ArtifactStore.PutPayload` | server.py:47 | saving writes the id's payload, leaves every other payload and all records alone, and keeps the store consistent |
| `ArtifactStore.PutRecord` | server.py:53-55 | writing metadata sets the id's record and leaves everything else alone; with the payload in place and the record naming its id, the store stays consistent |
| `ArtifactStore.AfterFailedSave` | server.py:46-49 | a failed save adds no record; it leaves the store as it was, or holds a prefix of the upload at the id |
| `ArtifactStore.Upload` | server.py:28-60 | a refusal gives 400 and the store unchanged; success needs every guard and both writes; a failed save gives 500 `Failed to save: …`; only success adds a record; only the new id is touched; consistency is kept; a success reply carries the hex id, the display name and the link, matching the stored record and payload |
| `ArtifactStore.UploadThenGet` | server.py:52-60 | after a success, the link's last segment is the new id; for it the `/s/` existence check passes and loads the new record, and `/i/<id>` and `/meta/<id>` give back exactly the uploaded bytes and that record |
| `ArtifactStore.UploadLeavesOtherIds` | server.py:42-55 | whatever the outcome, every read route answers as before for any other id |
| `ArtifactStore.FileNamesFollowIds` | server.py:44-53 | which files exist depends only on which ids have payloads and records |
| `ArtifactStore.FilenameNotUsedForAddressing` | server.py:43-53 | two uploads of the same bytes that the guards treat alike store the same payloads and create the same files, whatever the client file names |
| `ArtifactStore.UploadTouchesOnlyItsFiles` | server.py:44-55 | whatever the outcome, every file other than `id.ics` and `id.json` exists as before with the same content |
| `ArtifactStore.PageHasPayload` | server.py:46-55 | in a consistent store, an id that passes the `/s/` existence check has its payload and its record, and the record names that id |
| `ArtifactStore.PartialPayloadAfterFailedSave` | server.py:46-49 | after a save that stops part-way, `/i/<id>` serves a prefix of the upload and `/meta/<id>` answers as before |
| `Traces.EmptyConsistent` | server.py:14 | the empty upload directory is consistent |
| `Traces.RunKeepsConsistent` | server.py:46-55 | whatever requests arrive and however the writes go, every record keeps its payload beside it and names its own id |
| `Traces.FreshRunKeeps` | server.py:42-55 | later uploads with fresh ids leave an existing id's answers on all three read routes unchanged |
| `Traces.LinkStaysValid` | server.py:58-60 | while later ids are fresh, the link's id keeps passing the `/s/` existence check with the uploaded record, and `/i/<id>` keeps serving the uploaded bytes |
| `Traces.ReusedIdReplaces` | server.py:42-47 | a later successful upload that draws an id already in use replaces that id's payload and record |

## Left out

- The viewer page's rendering (server.py:88-241): `SchedulePage` stops at the existence check and the loaded record. The render runs on the server through `render_template_string`, and as written it fails for every id that passes the check. The f-string turns the `{{{{ … }}}}` CSS blocks (server.py:97-104) into Jinja print tags such as `{{ font-family: 'Lato', … }}`, which Jinja cannot parse, so `/s/<id>` answers 500. The same f-string turns `{{meta['name']}}` and `{{file_id}}` (server.py:92, 113, 133) into literal text, so a rendered page would not carry the record or the id either. The model does not include Jinja, so this outcome is not modelled. The page's client-side JavaScript, which uses ICAL.js and the browser clock, is left out too.
- Flask app setup, CORS, the index route and `app.run` (server.py:14-25, server.py:243-245): framework wiring.
- The 2 MB `MAX_CONTENT_LENGTH` (server.py:11, server.py:17): Werkzeug checks it when the form is first parsed, which is the `request.files` access on server.py:30. An oversized request therefore gets a 413 there, before the first guard, and the store is untouched. The model has no request size and no 413 reply.
- `uuid.uuid4()`: randomness. Its id is an input constrained to 32 lower-case hex digits.
- `werkzeug.secure_filename`: a foreign library. It is an arbitrary string function, and its result is only stored as `origName`.
- Exception messages (`str(e)`) and `FileStorage.save` internals: outside the code. Both are inputs.
- JSON encoding and decoding: the record is taken to round-trip through `json.dump` and `json.load` unchanged.
- The empty or partial `id.json` a failed metadata write can leave after `open`: the model adds no record in that case.
- Response bodies as JSON text, `send_file` and the `text/calendar` mimetype: presentation.
- `UPLOAD_DIR` and path joining: the directory is fixed and implicit. Routes address files by name inside it.
- Windows path rules of `ntpath.splitext`: the model is the POSIX flavour.
- Concurrent uploads: each call is one atomic step.
- `str.lower()` beyond ASCII: `PyStr.Lower` lower-cases ASCII letters only. This is exact for the `.ics` comparison, as argued above.
