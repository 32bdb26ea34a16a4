# Image upload server — a verified model of its core

`main.py` is a small FastAPI service that stores uploaded images in one
directory, lists them and serves them back. This project models what the
service decides, as opposed to the framework plumbing around it:

- **Filename sanitising** (`sanitize_filename`, `SAFE_NAME`): keep the
  text after the last `/`, replace every character outside `[A-Za-z0-9._-]`
  with `_`, fall back to `file_<seconds>` when nothing is left
  (module `Sanitize`, with `str(n)` in module `DecimalText`).
- **Stored-name composition** in `upload_image`: the
  `time.strftime("%Y%m%d-%H%M%S")` stamp (module `Timestamp`), `_`, and the
  sanitised client name (`image` when the client sent none)
  (`Uploads.SavedName`).
- **Content-type acceptance**: a type that is present and starts with `image/`.
- **The upload directory** as a class `Uploads.UploadDirectory` holding a
  map from entry names to entries (a regular file with its bytes, or a
  sub-directory). The map is read by `list_uploads` and `get_file` and
  updated in place by `upload_image`. Python's `sorted` on `str` is the
  code-point lexicographic order `Ordering.LexLess`.
- **Error mapping**: 400 for a refused content type, 404 for a missing
  file, 500 with `save failed: <reason>` for a failed read or write.

The clock is an input. `now` is the broken-down local time the stamp is
printed from. `seconds` is the `int(time.time())` used by the fallback
name. The code reads the clock twice, so the two are independent inputs.
The filesystem's failures are an input too: `Fault` says whether reading
the upload, opening the file or writing it fails, and how many bytes
reached the file before a write failed.

`scenarios.dfy` replays the documented request sequences against the
contracts:

- upload a JPEG, then fetch it back;
- fetch a name no upload can produce and get 404;
- a `text/plain` upload gets 400 and changes nothing.

## Model

| member | source | states |
|---|---|---|
| `Sanitize.Basename` | main.py:22 | `os.path.basename` on a POSIX path never returns a `/` |
| `Sanitize.BasenameIsLastComponent` | main.py:22 | the basename is a suffix of the path; when shorter than the path it starts right after a `/`, i.e. it is the text after the last `/` |
| `Sanitize.ReplaceUnsafeAt` | main.py:19-23 | the `SAFE_NAME.sub("_", …)` substitution keeps every safe character in its place and puts one `_` at the place of each other character |
| `Sanitize.SanitizeFilename` | main.py:21-24 | the sanitised name is never empty and holds only characters of `[A-Za-z0-9._-]` |
| `Sanitize.SanitizeShape` | main.py:21-24 | no `/` in the result; an empty basename gives exactly `file_` + `str(seconds)`; a non-empty basename gives a result of its length, mapped character by character (safe kept, other → `_`) |
| `Sanitize.SanitizeFixedPoints` | main.py:21-24 | a name is left unchanged by sanitising if and only if it is non-empty and all its characters are safe, whatever the clock |
| `Sanitize.SanitizeIdempotent` | main.py:21-24 | sanitising a sanitised name returns it unchanged, even at a later time |
| `DecimalText.DecimalRoundTrip` | main.py:24 | `str(n)` is all digits, and reading it back gives `n` |
| `DecimalText.PadLeftFixedWidth` | main.py:47 | a field below 10^w is printed by `%0wd` in exactly `w` digits that read back as the field |
| `DecimalText.DigitsOrder` | main.py:47 | fixed-width digit strings are equal iff their numbers are, and compare as strings as the numbers compare |
| `Timestamp.StampCharacters` | main.py:47 | the `%Y%m%d-%H%M%S` stamp holds only digits and `-`, for every clock value |
| `Timestamp.StampShape` | main.py:47 | for a valid time with a four-digit year the stamp is 15 characters: eight digits, `-`, six digits |
| `Timestamp.StampOrder` | main.py:47 | two stamps compare as strings exactly as the local wall-clock times they print compare, and are equal only for equal times |
| `Uploads.ImageTypes` | main.py:44 | the accepted content types are exactly `Some("image/" + subtype)` for any subtype; a missing type is refused |
| `Uploads.SavedName` | main.py:47-49 | the stored name is a directory entry name (non-empty, not `.`/`..`, no `/`, no NUL) starting with a digit |
| `Uploads.SavedNameShape` | main.py:47-49 | the stored name is the 15-character stamp, `_`, then `sanitize_filename(filename or "image")`, and sanitising it again changes nothing |
| `Uploads.SavedNameDefault` | main.py:48-49 | with no file name, or an empty one, the name is `<stamp>_image` |
| `Uploads.SavedNameKeepsSafeName` | main.py:48-49 | a client name made only of safe characters is stored verbatim after `<stamp>_` |
| `Uploads.SavedNameChronological` | main.py:47-49 | an upload stamped with an earlier local wall-clock time gets a name that sorts first, whatever the client names |
| `Uploads.Status` | main.py:38-57 | every error maps to 400, 404 or 500; 400 exactly for a refused content type, 404 exactly for a missing file |
| `Uploads.Detail` | main.py:39-57 | the error detail starts with `save failed: ` exactly for storage failures |
| `Uploads.Join` | main.py:50 | joining an entry name to the directory gives `root`, then exactly one `/` unless `root` is empty or already ends in one, then the name: the path has `root` as a prefix, the name as its last component, and exactly that length |
| `Ordering.SortedNames` | main.py:32 | `sorted(...)` of a set of names is strictly ascending and holds exactly those names |
| `Ordering.SortedUnique` | main.py:32 | two strictly ascending lists with the same names are equal, so the listing is determined by the set of names |
| `Uploads.UploadDirectory.constructor` | main.py:16-17 | the directory starts with the given entries, all of them valid entry names |
| `Uploads.UploadDirectory.ListUploads` | main.py:31-33 | `list_uploads` returns, strictly ascending, exactly the names of the regular-file entries; sub-directories are left out |
| `Uploads.UploadDirectory.GetFile` | main.py:36-40 | `get_file` returns a file's bytes exactly when its name is in the listing; otherwise NotFound (404); it changes nothing |
| `Uploads.UploadDirectory.UploadImage` | main.py:43-66 | a refused content type gives 400 and leaves the directory unchanged. A failed read, a sub-directory under the stored name or a failed open gives 500 and leaves it unchanged. A failed write leaves the truncated file holding the bytes written before the failure. Success maps the stored name to exactly the uploaded bytes, every other entry unchanged, and reports the name, `uploads/<name>`, the byte count and the content type; the new listing is the old file names plus the stored one, sorted |

## Left out

- FastAPI app construction, route decorators, CORS middleware and the health route (main.py:7-14, 26-28): framework wiring with no logic of its own.
- Reading `UPLOAD_DIR` from the environment and `os.makedirs` (main.py:16-17): the directory's root and initial contents are constructor parameters.
- The clock (`time.time`, `time.strftime`): both readings are inputs. They are not tied to each other, just as the code reads them separately.
- `await file.read()`, `FileResponse` and `JSONResponse` (main.py:40, 53, 59-67): async I/O and serialisation. The response is a datatype, the read gives the bytes passed in, and the fetch result is the bytes.
- The content type `FileResponse` guesses on fetch: content types are not stored with the files.
- Uploads.UploadDirectory.GetFile: requires a name without `/`. The route's single path segment cannot hold one, so the code never joins such a name. No containment check is claimed, because `get_file` does none. Names like `..` are not entries, so they give 404.
- Uploads.UploadDirectory.UploadImage: the OS error text for a failed read, open or write is an input (`Fault`). Only the `IsADirectory` text, `[Errno 21] Is a directory: '<path>'`, is built from the path, and it assumes the path needs no escaping in Python's `repr`.
- A failed write is modelled as leaving the first `written` bytes, since `open(..., "wb")` has already truncated the file. The code does not roll back, so the model does not either: a storage failure may leave a partial file.
- Entries are regular files or sub-directories only; symbolic links and other special files are not modelled.
- Timestamp.StampOrder: proved only for years of at most four digits. `%Y` is not zero-padded the same way on every platform for years below 1000 or above 9999. The model pads to four digits and widens beyond.
- Platform differences in `os.path.basename` and `os.path.join` (Windows `\` separators): POSIX `/` only.
- Concurrency between requests: each operation is one atomic step on the directory.
- Local time is not monotonic. The stamp prints `time.localtime()`, so when daylight saving ends or the clock is set back, a later upload can get an earlier stamp and sort before an older file. Two uploads with the same client name in the same local second get the same name, and the later one overwrites the earlier. The order lemmas are about the printed wall-clock time, not about real upload order.
- Python strings can hold lone surrogates, for example names that `os.listdir` decodes with `surrogateescape`. Dafny's `char` cannot hold them, so such names are not modelled.
