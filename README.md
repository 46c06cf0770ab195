# Video info/download routes: a Dafny model of the core rules

The service answers two HTTP routes. `POST /info` validates a submitted
URL, asks the extraction library for the video's metadata, and returns it
together with a cleaned, sorted list of the available formats.
`GET /download` has the library fetch one format into a temporary
directory. It then streams that file back as an attachment in 8 KiB chunks.

This project models the rules in `src/routes/video.py` that can be stated
without the web framework, the extraction library or the filesystem:

- **Format filter** (`filter_formats`), module `Formats` in `formats.dfy`.
  It drops the `mhtml`/`html` renditions and projects each other entry onto
  a fixed record of ten optional attributes. Then it sorts the list in place
  by height, highest first, with a missing height counting as 0. The sort
  is an insertion sort over an `array`. It moves an entry left only past
  strictly lower entries, so it is stable, as Python's `list.sort` is.
  Stability is stated as follows: for every height, the entries with that
  height appear in their input order (`SameOrderPerHeight`). A lemma shows
  that this, together with sortedness, fixes the output completely.
- **`/info` validation** (`ValidateInfo`), module `InfoRequest`. The three
  checks run in order, and the first that fails decides the answer. The
  JSON body is a `Json` value with Python's truthiness and `in` semantics.
  The cases where Python raises inside the checks give `InternalError`,
  which the handler answers with 500. `urlparse` is replaced by the
  parameter `parseUrl`. It gives `None` where `urlparse` raises
  `ValueError`, and otherwise says whether the parse has both a scheme and
  a netloc.
- **Download decisions**, module `Download`: the parameter check, the
  choice of the first downloaded file, the extension-to-content-type chain
  (a method that reassigns `contentType`, as the source does), and the safe
  display filename. Python's Unicode `str.isalnum` is the parameter
  `isAlnum`.
- **Chunked streaming** (`generate`), module `Streaming`. A `FileReader`
  class holds the file's bytes and a position that each `Read` advances.
  `Generate` runs the read-until-empty loop over it.
- Module `PyText` gives the Python string built-ins these rules use.
  `IsSpace` is the `str.isspace` set. `RStrip`, `LStrip` and `Strip` are
  slices cut at the counts of leading and trailing whitespace, and each is
  characterised by its contract. `Lower` handles ASCII letters only.
  `SplitExt` follows `os.path.splitext`, including its leading-dot rule.

Two details of the code decide the model's behaviour in edge cases:

- The `Content-Disposition` name appends `ext` as line 131 lower-cased it,
  so `AttachmentName` uses `Lower(SplitExt(..))`.
- Check 1 tests only that the `url` key is present (line 63), so
  `{"url": ""}` fails check 2 (`EmptyUrl`), not check 1.

## Model

| member | source | states |
|---|---|---|
| `Formats.FilterFormats` | src/routes/video.py:26-56 | An absent or empty list gives `[]`. No output entry has extension `mhtml` or `html`. The output is a permutation of the kept, projected entries. It is non-increasing in height, with a missing height counting as 0. Entries of equal height keep their input order. |
| `Formats.SortByHeight` | src/routes/video.py:54 | The in-place sort leaves the array sorted by height, highest first. It is a permutation of the old contents, and every height's entries keep their old relative order (stable). |
| `Formats.InsertLeft` | src/routes/video.py:54 | One insertion pass extends the sorted prefix by one entry: afterwards `a[..i + 1]` is sorted by height and holds exactly the entries it held before, and `a[i + 1..]` is untouched. It only exchanges neighbours of different heights, so the whole array keeps its contents and each height's order. |
| `Formats.KeptIndices` | src/routes/video.py:33-36 | The positions of the non-page entries of the input. They are strictly increasing, and each non-page position occurs, so every kept entry appears exactly once. |
| `Formats.KeptCorrespondence` | src/routes/video.py:32-51 | Entry `i` of the filtered list is the projection of input entry `KeptIndices(xs)[i]`. The list has exactly as many entries as there are non-page inputs, in input order. |
| `Formats.KeptDropsPages` | src/routes/video.py:33-51 | No filtered entry has extension `mhtml` or `html`. Each filtered entry carries exactly the attribute values of some input entry. |
| `Formats.SummaryKeepsHeight` | src/routes/video.py:43 | A missing height stays missing in the output record; it does not become 0. A present height, including 0, is kept as it is. |
| `Formats.SortedSameOrderUnique` | src/routes/video.py:54 | Two lists that are both sorted by height and agree on the order within every height are equal. So the stable descending sort has exactly one possible result. |
| `InfoRequest.ValidateInfo` | src/routes/video.py:62-73 | `MissingUrl` exactly when the body is absent or falsy, or has no `url`. `EmptyUrl` exactly when the url string is all whitespace, whatever it would parse to. `MalformedUrl` exactly when the url is non-blank and parses without a scheme or netloc. It is accepted exactly when the url is a non-blank string that parses with a scheme and netloc, and then the url is trimmed and non-empty. Every other body makes Python raise and is `InternalError`: a truthy body where `'url' in` raises or the url is not a string, or a url on which `urlparse` raises. |
| `Download.ParamsPresent` | src/routes/video.py:97-101 | The download proceeds only when both `url` and `format_id` are present and non-empty. Otherwise the one combined error is returned. |
| `Download.PickDownloaded` | src/routes/video.py:123-127 | An empty directory listing is the "download failed" error. Otherwise the first listed file is used. |
| `Download.ClassifyContentType` | src/routes/video.py:131-136 | The extension is the lower-cased `splitext` extension of the file name. The content type is `video/webm` iff that extension is `.webm`, `video/x-matroska` iff it is `.mkv`, and `video/mp4` otherwise. |
| `Download.KeepAllowed` | src/routes/video.py:155 | The filtered title holds only alphanumerics, spaces, `-` and `_`, and is no longer than the title. A title that is already clean is unchanged. |
| `Download.KeepAllowedCounts` | src/routes/video.py:155 | The filter keeps every occurrence of every allowed character, and no occurrence of any other character. |
| `Download.KeepAllowedAppend` | src/routes/video.py:155 | The filter distributes over concatenation, so the kept characters stay in the title's order, as the generator and `join` keep them. |
| `Download.SafeFilename` | src/routes/video.py:155-157 | The safe name is never empty and never ends in whitespace. It is `"video"` when the filtered, right-stripped title is empty. Otherwise it is a prefix of the filtered title, and everything after that prefix is whitespace, so only trailing whitespace is removed. It equals `"video"` exactly when that stripped title is empty or is `"video"` itself. |
| `Download.SafeFilenameAllowed` | src/routes/video.py:155-157 | Every character of the safe name is alphanumeric, a space, `-` or `_`, on both the filtered branch and the fallback branch. |
| `Download.SafeFilenameIdempotent` | src/routes/video.py:155-157 | Sanitising a safe name again gives the same name. |
| `Download.AttachmentNameShape` | src/routes/video.py:155-163 | The `Content-Disposition` filename is the safe name (non-empty, only allowed characters, no trailing whitespace) followed by the downloaded file's lower-cased extension. |
| `Streaming.Generate` | src/routes/video.py:138-145 | The loop terminates. Every chunk is non-empty and at most 8192 bytes, and all chunks but the last are exactly 8192 bytes. Joined in order, the chunks are the file's bytes. |
| `Streaming.FileReader.Read` | src/routes/video.py:142 | `read(n)` returns the next at most `n` bytes from the position, and advances the position by the number of bytes returned. |
| `PyText.RStrip` | src/routes/video.py:155 | `rstrip()` gives a prefix of its input that does not end in whitespace, and everything it removes is whitespace. |
| `PyText.Strip` | src/routes/video.py:66 | `strip()` is empty exactly for an all-whitespace input. A non-empty result neither starts nor ends with whitespace. The result is a contiguous slice of the input with only whitespace before and after it, so only surrounding whitespace is removed. |
| `PyText.SplitExt` | src/routes/video.py:131 | The extension is empty or starts at the last `.`. It is a suffix of the name with no further `.`. It is empty exactly when there is no `.`, or when only dots come before the last one. |

## Left out

- The extraction library calls (`get_video_info`, `extract_info`, `download`, lines 11-24 and 114-120) are a foreign library and are not modelled. Their failures reach the client as a message string, which is not modelled either.
- Flask routing, `request`, `jsonify`, `Response`, `stream_with_context` and the shape of the JSON responses are framework plumbing. HTTP status codes are not modelled either.
- Filesystem effects are I/O and are not modelled: `tempfile.mkdtemp`, `os.listdir`, `os.path.getsize`, `open` and the swallowed-exception cleanup (`os.remove`, `os.rmdir`, lines 146-152). The file is an in-memory byte sequence, and the directory listing is a parameter. So the model does not capture that cleanup runs on every exit of the stream. It also does not capture that the "download failed" and error paths never remove the temporary directory.
- The success path of `get_info` (lines 76-91) is not modelled. It assembles the metadata from the library's answer, with title default and `formats` default `[]`. Only its `filter_formats` call is modelled.
- The download title default (line 117) is not modelled. This includes the case where a title present as `None` makes the filename comprehension raise.
- `InfoRequest.ValidateInfo`: `urlparse` is replaced by the parameter `parseUrl`, so which urls raise `ValueError` or lack a scheme or netloc is not modelled, only what the handler does in each case. Flask's own errors from `get_json` on a non-JSON body are not modelled; `None` stands for "no JSON body".
- `Download.SafeFilename`: Unicode `str.isalnum` is the parameter `isAlnum`. The lemmas that need the `"video"` fallback to be alphanumeric assume only that `isAlnum` accepts ASCII letters and digits.
- `Download.ClassifyContentType`: `str.lower()` is modelled for ASCII letters only. Unicode case mappings such as U+212A KELVIN SIGN to `k` are not modelled.
- `Formats.FilterFormats`: an absent key and a key holding `None` are modelled the same way, as `None`. Both lead to the same output record. `fps`, a float, is a `real` that is only passed through. Attributes other than the ten projected ones are an opaque `others` map, which the projection drops.
- The Arabic message texts are not modelled; the `Verdict` constructors stand for them. The unused `subprocess` and `json` imports are not modelled.
