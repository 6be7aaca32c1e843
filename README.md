# Whisper transcription endpoint: a Dafny model

This project models the decision logic of a small FastAPI service that wraps
OpenAI Whisper behind `POST /transcribe` (`main.py`). Three parts are modelled and proved:

- **Request validation.** The upload's extension is taken with
  `os.path.splitext` and lower-cased. It must be one of `.wav`, `.mp3`,
  `.m4a`, `.flac`. Then the model size must be one of `tiny`, `base`, `small`,
  `medium`, `large`, and then the task must be `transcribe` or `translate`.
  The first check that fails raises an HTTP 400 with its own detail.
- **The model memo.** `get_model` sits under `@lru_cache()`. A size outside
  the five raises `ValueError` before any load. A successful load is stored
  and returned to every later caller. A load that raises stores nothing.
- **Response shaping.** What happens inside the `try` block becomes a
  `{status, transcribed_text, error}` payload. The result can be a returned
  dict, a falsy result, a result without `"text"`, or any exception.

Modules, one per concern:

- `Wrappers` (`wrappers.dfy`): `Option`, for Python's `Optional`.
- `PyStr` (`pystr.dfy`): the parts of Python's library the endpoint uses.
  These are `str.lower`, `str.strip()` with the full `str.isspace` set, and
  `os.path.splitext` for both `posixpath` and `ntpath`. `splitext` follows
  the library's algorithm (`rfind`, last separator, skip leading dots) and is
  proved equal to the documented rule on the text after the last separator
  (a drive prefix stays in that text under `ntpath`).
  `strip` is characterised as the slice with white space cut off both ends.
  `lower` is characterised as "spells the result in any letter case".
- `Validation` (`validation.dfy`): the three constant sets, `Validate`, the
  rejection details, and a suffix-based statement of the extension check.
- `ModelCache` (`model_cache.dfy`): the pure get-or-load step, runs of many
  calls with their lemmas, and the class `Cache`. The class holds the
  memo's dictionary and a ghost per-size count of loader calls.
- `Response` (`response.dfy`): `ShapeResponse` and its properties.
- `Endpoint` (`endpoint.dfy`): the whole request as a pure function
  `HandleRequest`. It is `Respond` applied to the verdict of `Validate`.
  `Respond` is everything after validation, for a given verdict; most
  request lemmas are stated for `Respond` with any verdict. The method
  `TranscribeEndpoint` runs the same steps against a `Cache` object and is
  proved equal to `HandleRequest`.

Foreign calls become parameters: the upload write, the loader
(`whisper.load_model(...).to(device)`), `torch.cuda.is_available()` and the
model's `transcribe`. `Environment` holds what each of these does in one
request, and `ModelCache.Call` does the same for one `get_model` call. The
order in which Python iterates over a set, which shows in the rejection
details, depends on the process's hash seed. It is a parameter too
(`SetOrders`).

What the code does not do, and so the model does not either:

- There is no file-size check.
- The temp path is `temp_<filename>`. It is not unique (see
  `TempPathCollidesIffSameName`), and nothing deletes the file, because the
  `finally` block at `main.py:107-109` is commented out.
- The payload has only `status`, `transcribed_text` and `error`. There is no
  `processing_time`, `model_used` or `language`.
- Validation failures are raised as HTTP 400 before the `try` block. They are
  not in-band error payloads.

## Model

| member | source | states |
|---|---|---|
| `PyStr.Strip` | main.py:97 | `str.strip()`: the result is a slice of the input that neither starts nor ends with white space, and only white space is cut on either side |
| `PyStr.SplitExt` | main.py:62 | `os.path.splitext`: root and extension concatenate to the path; a non-empty extension is a '.' followed by characters that are neither '.' nor a separator |
| `PyStr.LowerSpells` | main.py:62 | `s.lower()` equals a lower-case `t` exactly when `s` spells `t` with any of its letters possibly in upper case |
| `PyStr.LowerIdempotent` | main.py:62 | lower-casing twice is lower-casing once |
| `PyStr.StripIdempotent` | main.py:97 | stripping the stripped text changes nothing |
| `PyStr.ExtIsBaseNameExt` | main.py:62 | the extension comes from the text after the last separator alone, with its leading dots counted as part of the root (under `ntpath` this text keeps a drive prefix such as `C:`, which `ntpath.basename` would drop) |
| `PyStr.ExtAt` | main.py:62 | a '.' with no later '.', preceded in the same component by a character other than '.', is where the extension starts |
| `Validation.ExtensionShape` | main.py:62 | the extracted, lower-cased extension is empty exactly when `splitext` finds none; otherwise it is a '.' followed by characters that are neither '.' nor a separator; it holds no upper-case ASCII letter |
| `Validation.DetailListsEveryChoice` | main.py:64-73 | when the interpreter's listing of each set holds all its members, a rejection detail shows every choice the user had: each allowed extension, each valid model size or each valid task appears quoted in it |
| `Validation.Validate` | main.py:62-73 | a request passes exactly when the lower-cased extension, the model size and the task are all in their fixed sets; a rejection carries the detail of its reason |
| `Validation.FirstFailingCheckIsReported` | main.py:62-73 | checks run in the order extension, model size, task; the first failing one is reported whatever the later inputs are |
| `Validation.ExtensionAllowedIff` | main.py:62-63 | an upload passes the extension check iff its name ends, in any letter case, with an allowed extension, and its final component has a character other than '.' before that ending |
| `Validation.UnsupportedDetailNamesExtension` | main.py:64-67 | the unsupported-type detail starts with `Unsupported file type: ` followed by the extracted, lower-cased extension |
| `Validation.DetailsAreDistinct` | main.py:64-73 | different rejections (including two different unsupported extensions) produce different details |
| `Validation.AcceptExample` | main.py:62-73 | `A.WAV` with size `small` and task `transcribe` passes |
| `Validation.AllBadExample` | main.py:62-67 | under `ntpath`, `rec\x.OGG` with a bad size and a bad task is reported as the unsupported type `.ogg` |
| `Validation.BadModelAndTaskExample` | main.py:70-73 | with a good extension, a bad size is reported before a bad task |
| `Validation.DotFileExample` | main.py:62-67 | a bare dot-file `.wav` has an empty extension, so it is rejected as the unsupported type `''` whatever the size and task |
| `Validation.UpperCaseWavExample` | main.py:62 | the extension of `A.WAV` is `.wav` |
| `Validation.OggExample` | main.py:62 | under `ntpath` the extension of `rec\x.OGG` is `.ogg` |
| `Validation.DirectoryExample` | main.py:62 | under `ntpath`, `song.wav\take` has no extension: a dot in a directory name does not count |
| `ModelCache.GetOrLoad` | main.py:33-40 | a hit returns the cached handle and loads nothing; a miss for a valid size whose load succeeds returns and stores a handle of that size on the device the CUDA probe chose; the loader runs only on a miss for a valid size; cached entries are never replaced; only a returned handle is stored, and what is returned is what is cached; the memo stays well formed |
| `ModelCache.InvalidSizeRaisesBeforeLoad` | main.py:36-37 | a size outside the five raises `Invalid model size: <size>` without loading or changing the memo |
| `ModelCache.FailedLoadIsRetried` | main.py:33-40 | a load that raised is not cached, so the next call for that size runs the loader again |
| `ModelCache.FailedLoadsAreAlwaysRetried` | main.py:33-40 | while every load of a valid, uncached size raises, over any sequence of calls that size stays uncached and every call for it runs the loader again and raises the loader's error |
| `ModelCache.AtMostOneSuccessfulLoad` | main.py:33-40 | over any sequence of calls the loader succeeds at most once per size, and never for a size already cached |
| `ModelCache.CachedHandleIsStable` | main.py:33-40 | once a size is cached, every later call for it returns that handle without loading, whatever the loader or the CUDA probe would say |
| `ModelCache.SameHandleAfterSuccess` | main.py:33-40 | after a call for a size returned a handle, every later call for that size returns the identical handle and loads nothing |
| `ModelCache.RunPreservesWellFormed` | main.py:33-37 | over any sequence of calls the memo holds only valid sizes, each under its own handle |
| `ModelCache.NeverEvicts` | main.py:33-37 | the memo holds at most 5 entries, below the 128-entry `lru_cache` bound, so nothing is evicted |
| `ModelCache.Cache.GetModel` | main.py:33-40 | the memo and the result after a call are those of `GetOrLoad`; the per-size loader count rises by one exactly when the loader ran; the class invariant is kept |
| `ModelCache.GetTwice` | main.py:33-40 | two calls for one size: after a returned handle the second call gives the same handle; after a failed load of a valid size the second call loads again; an invalid size never loads |
| `Response.ShapeResponse` | main.py:89-106 | exactly one of `transcribed_text` and `error` is present; status is `success` exactly when the text is |
| `Response.SuccessIff` | main.py:89-99 | the request succeeds exactly when the model returned a dict holding `"text"` |
| `Response.SuccessText` | main.py:95-99 | on success the text is the model's `"text"` stripped, and the error is null |
| `Response.FailureMessages` | main.py:89-106 | an exception is reported by its message; a falsy result or one without `"text"` is reported as `Transcription failed` |
| `Endpoint.TempPathCollidesIffSameName` | main.py:75 | two uploads get the same temp path exactly when their file names are equal |
| `Endpoint.Respond` | main.py:62-106 | whatever validation decided (`HandleRequest` is `Respond` on the verdict of `Validate`), a request never replaces or removes a memo entry, and the memo changes only when the request called `get_model` |
| `Endpoint.TranscribeEndpoint` | main.py:53-106 | the endpoint run against the shared memo gives the outcome, effects and new memo of `HandleRequest`; the loader count is unchanged unless the model was requested, and then rises by one exactly when `get_model` ran the loader |
| `Endpoint.TranscribeValidated` | main.py:75-106 | from a given verdict on, the method gives the outcome, effects and memo of `Respond`, and keeps the loader count as `TranscribeEndpoint` does |
| `Endpoint.AnswerAfterValidation` | main.py:75-106 | for a passing verdict: a failed write is answered with its error, a raising `get_model` with its error, and otherwise the shaped result of the model run |
| `Endpoint.SuccessScenario` | main.py:75-99 | a `.wav` file with size `tiny` and task `transcribe`, written, loaded and transcribed to a dict with `"text"`, is answered `success` with that text stripped and no error |
| `Endpoint.LoadFailureScenario` | main.py:84-106 | a valid request whose model fails to load is answered `error` with the loader's message; the temp file stays, nothing runs and nothing is cached |
| `Endpoint.RefusedIffRejected` | main.py:62-76 | a request is refused exactly when the verdict is a rejection, with its reason and detail; then no file is written, `get_model` is not called and the memo is unchanged |
| `Endpoint.ModelRequestedOnlyForValidSize` | main.py:70-84 | `get_model` is called only with a valid size, so its `ValueError` branch is unreachable from the endpoint |
| `Endpoint.AnsweredHasTextXorError` | main.py:89-106 | every answered payload has exactly one of a text and an error |
| `Endpoint.InferenceUsesCachedHandle` | main.py:84-87 | the model runs on `temp_<filename>` with the memoised handle of the requested size, the request's language and task, and fp16 exactly when CUDA is available |
| `Endpoint.SuccessCarriesStrippedText` | main.py:87-99 | a success comes from a model run that returned `"text"` and carries that text stripped |
| `Endpoint.TempFileLeftBehind` | main.py:75-79 | a temp file `temp_<filename>` is left on disk exactly when the verdict passed and the file could be opened |
| `Endpoint.RequestPreservesWellFormed` | main.py:33-40 | a request keeps the memo restricted to valid sizes, each under its own handle |
| `Endpoint.ModelRequestFacts` | main.py:62-87 | a request that called `get_model` had a passing verdict and wrote its file; its memo is the one `get_model` left; it ran the model on the returned handle, or ran nothing when `get_model` raised |
| `Endpoint.InferenceOnlyAfterModelRequest` | main.py:84-87 | only a request that called `get_model` runs the model |
| `Endpoint.SecondRequestReusesModel` | main.py:84 | whatever the two verdicts, a later request for the same size that reaches `get_model` runs the same handle and loads nothing |
| `Endpoint.OggUploadScenario` | main.py:62-67 | an upload whose extension is `.ogg` is refused for that extension before anything is written or loaded |
| `Endpoint.HugeModelScenario` | main.py:70-71 | a valid file with size `huge` is refused as an invalid model size before any load |

## Left out

- HTTP status codes, FastAPI routing, the pydantic response model and
  `uvicorn.run` are framework glue. The model keeps only the refusal (reason
  and detail) and the payload. In the code, handled errors are answered with
  HTTP 500 and refusals with HTTP 400.
- Reading the upload and writing the temp file are file I/O. Their outcome is
  a parameter (`WriteResult`). The model records the temp path the request
  leaves behind, not the bytes.
- `configure_environment` changes the process `PATH` on every request. This
  is an environment side effect and is not modelled. A failure there
  (for example an unset `PATH`) would be answered like any other exception.
- Whisper inference, `whisper.load_model`, `.to(device)` and
  `torch.cuda.is_available()` are foreign calls and become parameters.
  `print(result)`, logging and the `/health` stub are not modelled.
- Calls of `get_model` are modelled one after another. In this program that
  is exact, not a simplification. `transcribe_endpoint` is an `async def`
  that calls `get_model` directly, and `get_model` never awaits. So within
  one process, calls of `get_model` run to completion one at a time on the
  event loop.
- The eviction path of `lru_cache` is not modelled, because `NeverEvicts`
  shows it is never taken. Its hit and miss statistics are not modelled
  either.
- PyStr.Lower: models `str.lower` on ASCII letters only. Outside ASCII, only
  U+0130 and U+212A lower-case to ASCII letters (`i̇` and `k`), and neither
  letter occurs in an allowed extension. So the accept/reject decision is the
  same. Only the extension echoed in a rejection detail can differ for
  non-ASCII names.
- Validation.Quoted: renders set members as `'member'`. This matches
  Python's `repr` only for strings without quotes, backslashes or control
  characters. All members of the three constant sets are such strings.
- The query defaults `language="en"`, `model_size="small"` and
  `task="transcribe"` are applied by the framework when a parameter is
  absent. `Request` always carries all three values, so the defaults are not
  modelled.
- Validation.SetOrders: the listing orders are taken as given. They are not
  constrained to list each member of the matching set exactly once.
  `DetailListsEveryChoice` assumes only that every member is listed.
- A missing upload filename (`None`) is rejected by the framework before the
  endpoint runs. Dict values that are not strings (where `.strip()` would
  raise) are outside the model's `map<string, string>` result type.
