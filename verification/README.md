# Document ingestion of 3chain, modelled in Dafny

This project models the document-ingestion path of the 3chain utilities.
`DocumentManager.add_document` copies a file into a managed base directory.
It returns `False` when the source is missing, when its extension is not one
of `.pdf`, `.txt`, `.doc`, `.docx` (compared case-insensitively), when the
source is larger than 10 MiB, or when the destination already exists.
The destination is the base directory joined with the sanitized basename of
the source. The model also covers the three helpers from `utils.py` that the
method relies on: `sanitize_filename`, `validate_file_type` and
`safe_path_join`.

The filesystem is a value of type `map<string, seq<byte>>`: a path is a key
exactly when `os.path.exists` holds for it, and the value is the file's
bytes. `add_document` becomes the pure function
`Documents.AddDocument(manager, fs, path, fault)`. It returns the boolean and
the new filesystem. `fault` is the outcome of the copy's I/O, which the model
cannot see: `NoFault`, a failure before the destination is created, or a
failure after `open(dest, 'wb')` created it with only some bytes written.

Modules:

- `Text` (text.dfy): `str.isalnum` and `str.lower` on ASCII, `str.isspace`,
  suffixes and the subsequence relation.
- `Sanitizer` (sanitizer.dfy): the character filter, `strip()` and
  `sanitize_filename`.
- `Paths` (paths.dfy): `rfind`, `os.path.basename`, `os.path.splitext`,
  `validate_file_type`, `posixpath.join` and `safe_path_join`.
- `Documents` (documents.dfy): the `DocumentManager` constants and
  `add_document`.

The docstring of `sanitize_filename` says it sanitizes file names "for
security", and its comment says it removes "potentially dangerous
characters", but the code only filters characters: `..` passes unchanged
(`Sanitizer.DotDotSurvives`). The model follows the code. Containment in the
base directory comes from `add_document` itself, which sanitizes the
basename only and requires an allowed extension, so the stored name has no
`/` and is never `.` or `..` (`Documents.StoredNameIsPlain`).

## Model

| member | source | states |
|---|---|---|
| `Sanitizer.Filter` | utils.py:46 | The filtered name holds only ASCII alphanumerics, `.`, `_`, `-` and space, and is a subsequence of the input |
| `Sanitizer.FilterAppend` | utils.py:46 | Filtering distributes over concatenation, so the filter acts on each character independently |
| `Sanitizer.FilterSingle` | utils.py:46 | A single character is kept exactly when it is alphanumeric or one of `._- ` |
| `Sanitizer.FilterIdentity` | utils.py:46 | A string made only of kept characters passes the filter unchanged |
| `Sanitizer.FilterDropsUnsafe` | utils.py:46 | A string with no kept character filters to the empty string |
| `Sanitizer.LeadingSpaces` | utils.py:47 | The count `strip()` removes at the front is the index of the first non-whitespace character |
| `Sanitizer.TrailingSpaces` | utils.py:47 | The count `strip()` removes at the back stops at the last non-whitespace character |
| `Sanitizer.Strip` | utils.py:47 | `strip()` leaves no whitespace at either end, removes only whitespace, and keeps a subsequence of the input |
| `Sanitizer.StripUnique` | utils.py:47 | Any unpadded string that the input pads with whitespace on both sides is exactly what `strip()` returns |
| `Sanitizer.StripUnpadded` | utils.py:47 | `strip()` leaves a string without surrounding whitespace unchanged |
| `Sanitizer.StripKeepsSuffix` | utils.py:47 | A suffix that starts and ends with non-whitespace survives `strip()`; only the whitespace before it goes |
| `Sanitizer.SanitizeFilename` | utils.py:42-50 | The sanitized name has only safe characters, no `/` or `\`, no leading or trailing space, and is a subsequence of the input, so it is no longer than it |
| `Sanitizer.SanitizeIdempotent` | utils.py:46-47 | Sanitizing an already sanitized name returns it unchanged |
| `Sanitizer.SanitizeFixedPoints` | utils.py:46-47 | A name is left unchanged exactly when it has only safe characters and no surrounding whitespace |
| `Sanitizer.SanitizeKeepsSuffix` | utils.py:46-47 | A trailing part of safe characters that starts and ends with non-whitespace survives sanitizing |
| `Sanitizer.SanitizeDropsPrefix` | utils.py:46-47 | When no character before an unpadded suffix of safe characters is kept, sanitizing returns exactly that suffix |
| `Sanitizer.DotDotSurvives` | utils.py:46-47 | `..` passes sanitizing unchanged, so the filter alone does not rule out traversal names |
| `Text.LowerChar` | utils.py:55 | Lowering maps exactly the ASCII letters into `a`-`z`, sends each upper-case letter to the lower-case letter at the same place in the alphabet, and leaves every other character alone |
| `Text.Lower` | utils.py:55 | Lowering a string keeps its length, lowers it character by character, and leaves no upper-case letter |
| `Text.LowerIdempotent` | utils.py:55 | Lowering an already lowered string changes nothing |
| `Text.LowerFixedPoints` | utils.py:55 | A string is its own lowering exactly when it has no upper-case letter |
| `Text.SameLowerAgreesOnNonLetters` | utils.py:55 | Two strings with equal lowerings have the same length and the same non-letters in the same places |
| `Paths.RFind` | utils.py:55 | The index found holds the character and no later index does; -1 means the character is absent |
| `Paths.Basename` | add_document.py:33 | The basename has no `/`, is a suffix of the path, and is preceded by a `/` when shorter than the path |
| `Paths.Ext` | utils.py:55 | The extension is no longer than the path and is empty or starts with a dot |
| `Paths.SplitExt` | utils.py:55 | The root and the extension concatenate to the path; the extension is empty or one dot followed by characters that are neither `.` nor `/` |
| `Paths.ExtCharacterization` | utils.py:55 | The extension is non-empty exactly when some dot has no dot or `/` after it and a non-dot character of the last component before it; the extension is the suffix from that dot |
| `Paths.ExtStartUnique` | utils.py:55 | At most one index can start an extension |
| `Paths.ExtFromLastDot` | utils.py:55 | A non-empty extension starts at the last dot, which lies at least two places after the last `/` |
| `Paths.ExtWithinBasename` | utils.py:55 | A non-empty extension is a proper suffix of the basename |
| `Paths.ExtOfExt` | utils.py:55 | An extension has no extension of its own: as a name it is hidden, its only dot being its first character |
| `Paths.ExtHiddenFile` | utils.py:55 | Leading dots do not start an extension: `.pdf` and `..pdf` have none |
| `Paths.ExtDirectoryDot` | utils.py:55 | A dot in a directory name is no extension: `dir.pdf/readme` has none |
| `Paths.ExtLastDotWins` | utils.py:55 | Only the last dot starts the extension: `archive.tar.gz` has `.gz` |
| `Paths.ValidateFileType` | utils.py:52-59 | When the empty extension is not allowed, an accepted path has a non-empty extension that starts with a dot |
| `Paths.ValidateFileTypeSpec` | utils.py:52-59 | The type check is true exactly when the lowered extension, located by the declarative rule above, is in the allowed set |
| `Paths.ExtSameShape` | utils.py:55 | Paths with dots and separators in the same places have extensions of the same length |
| `Paths.ValidateFileTypeCaseInsensitive` | utils.py:55-56 | Changing the letter case of a path never changes the type check's answer, for any allowed set |
| `Paths.RFindAgrees` | utils.py:55 | Strings with a character in the same places find the same last occurrence of it |
| `Paths.JoinStep` | utils.py:27 | One join step ends with the new part, keeps the path so far as a prefix unless the part is absolute, and adds at most one separator |
| `Paths.Join` | utils.py:27 | The joined path ends with the last part |
| `Paths.SafePathJoin` | utils.py:24-30 | Joining fails exactly when no path is given at all |
| `Paths.JoinRelativeName` | utils.py:27 | Joining a relative name gives the base, one `/` unless the base is empty or ends in `/`, then the name; a name without `/` is then the basename |
| `Paths.BasenameAfterSeparator` | utils.py:27 | A name without `/` placed right after a `/` is the basename of the joined path |
| `Paths.JoinRestartsAtAbsolute` | utils.py:27 | An absolute part discards everything joined before it |
| `Paths.JoinKeepsBase` | utils.py:27 | When no later part is absolute, the first part is a prefix of the joined path |
| `Documents.StoredName` | add_document.py:33 | The stored name has no `/` and is a subsequence of the source's basename |
| `Documents.Destination` | add_document.py:36 | The destination starts with the base directory and its last component is the stored name |
| `Documents.CopyInto` | add_document.py:43-51 | The copy succeeds exactly without an I/O failure; success writes the content at the destination only; every other path is unchanged; a destination left by a failure holds a prefix of the content |
| `Documents.AddDocument` | add_document.py:14-51 | On success the only change is the destination, which was absent and now holds the source bytes; every other path is unchanged; an existing destination is never touched; a destination created by a failed copy holds a prefix of the source |
| `Documents.AddMissingSource` | add_document.py:18-20 | A missing source gives false and the filesystem unchanged |
| `Documents.AddDisallowedType` | add_document.py:22-25 | An extension whose lowering is not `.pdf`, `.txt`, `.doc` or `.docx` gives false and the filesystem unchanged |
| `Documents.AddTooLarge` | add_document.py:27-30 | A source over 10485760 bytes gives false and the filesystem unchanged |
| `Documents.AddAtSizeLimit` | add_document.py:12 | The size comparison is strict: a source of exactly 10485760 bytes is copied when the other gates pass |
| `Documents.AddExistingDestination` | add_document.py:38-41 | An existing destination gives false and its content is not overwritten |
| `Documents.AddSuccessEffect` | add_document.py:43-47 | After a successful call the destination holds the source bytes, the source is unchanged, and the destination is the only new path |
| `Documents.AddSucceedsIffGatesPass` | add_document.py:16-47 | Without an I/O failure the call succeeds exactly when all four gates pass |
| `Documents.AddFaultFails` | add_document.py:49-51 | An I/O failure during the copy always gives false |
| `Documents.AddTwice` | add_document.py:38-45 | After a successful call, a second call with the same source gives false and leaves the first copy in place |
| `Documents.DestinationInBaseDirectory` | add_document.py:32-36 | For any source path the destination is the base, an optional `/`, and the stored name, which has no `/` and is the destination's last component |
| `Documents.AllowedExtensionsLowerCase` | add_document.py:11 | Every allowed extension is its own lowering, so comparing the lowered extension against the set loses no allowed spelling |
| `Documents.AllowedExtensionShape` | add_document.py:11 | An extension that lowers into the allowed set is a dot and at least three ASCII letters |
| `Documents.StoredNameKeepsExtension` | add_document.py:22-33 | A source that passes the type gate is stored under a name that ends with its extension |
| `Documents.StoredNameKeepsSafeSuffix` | add_document.py:33 | The stored name ends with an extension made of safe characters that starts and ends with non-whitespace |
| `Documents.StoredNameIsPlain` | add_document.py:22-36 | A source that passes the type gate is stored under a name of at least four characters without `/`, so never empty, `.` or `..` |
| `Documents.NoExtRejected` | add_document.py:22-25 | A path without an extension never passes the type gate |
| `Documents.StoredNameIsExt` | add_document.py:33 | When the filter drops everything before the extension, the stored name is the extension itself, and that name has no extension |
| `Documents.StoredNameCanLoseExtension` | add_document.py:22-33 | A source such as `$.pdf` passes the type gate, yet its stored name is the bare extension, which the same gate would reject |

## Left out

- `Text.IsAsciiAlnum`: Python's `str.isalnum` accepts every Unicode letter and digit; the model keeps only ASCII letters and digits. Whitespace is never alphanumeric, so the properties about stripping do not depend on this.
- `Text.LowerChar`: Python's `str.lower` lowers all of Unicode; the model lowers only `A`-`Z`. The allowed extensions are ASCII, so only non-ASCII characters that lower to ASCII letters are handled differently.
- Paths are POSIX paths. Windows `ntpath` semantics (`\` as a separator, drive letters) are not modelled.
- The filesystem map holds regular files only. Directories, symbolic links, permissions and path aliasing (`a//b` and `a/b` naming one file) are not modelled. A source path that names a directory is therefore outside the model.
- `Documents.AddDocument`: I/O during the copy is an abstract `fault` parameter. Failures of `os.path.exists` or `os.path.getsize` themselves are not modelled.
- The `except Exception` handlers of `sanitize_filename`, `validate_file_type` and `safe_path_join` are left out: with string arguments those bodies do not raise. The one exception kept is `os.path.join` called with no argument, modelled as `None`.
- Logging is left out: it changes no return value.
- The time-of-check/time-of-use race between the duplicate check and the write is left out: it needs concurrent callers, and the model is sequential.
- `validate_input` relies on Python's dynamic `isinstance` and has no counterpart here.
- `load_config`, `load_embeddings`, `load_documents`, `load_db` and `save_db` only read files and call external libraries (YAML, HuggingFace, PyPDF, FAISS); their behaviour is not visible in this code.
- `crypto_tracker.py` is not part of this model: it is key generation and encryption in an external library plus one HTTP request.
