# A verified model of a Python utility toolkit's core

This project is a Dafny model of the core of a small Python utility
toolkit. It covers four modules:

- **text cleanup** (`text.py`): whitespace normalisation, hashtag
  extraction, and removal of hashtags and emoji;
- **function decorators** (`decorator.py`): the `retry` wrapper with its
  backoff schedule, and the `timer` wrapper;
- **file I/O** (`file.py`):
  - readers and writers for text, CSV, JSON, JSON Lines and Parquet files;
  - the `read_file` / `write_file` entry points, which pick a handler by
    the path's suffix;
- **the image handle** (`image.py`):
  - how `ImageTool` chooses its source, and how `load_img` tells a local
    file from a URL;
  - how a format is inferred from the file extension;
  - which format `save_img` uses, and how `resize_img` reads its
    arguments.

The Dafny modules follow the Python modules:

| Dafny file | module | models |
|---|---|---|
| `wrappers.dfy` | `Wrappers` | `Option` and `Result`, standing in for Python's `None` and raised exceptions |
| `text.dfy` | `Text` | `text.py` |
| `decorators.dfy` | `Decorators` | `decorator.py` |
| `files.dfy` | `Files` | `file.py` |
| `images.dfy` | `Images` | `image.py` |

Outside behaviour becomes a parameter:

- **File system.** A map from path to entry. An entry is a file (its text)
  or a directory (its listing, in `os.listdir` order).
- **Libraries.** json, csv, pandas and pyarrow are the function-valued
  fields of `Files.Codecs`. PIL's decoders and `save`, the HTTP fetch, base64
  decoding and `os.path.exists` are the fields of `Images.ImageEnv`. A
  library that raises is modelled as a `None` result.
- **Retried function.** Given as `outcome(k)`, the behaviour of its k-th
  call. Sleeps are recorded as a list of durations, never performed.
- **Timer.** Given the two clock readings around the call.
- **Unicode `\w`.** Given as a predicate on characters. The whitespace
  class `\s` (also used by `str.strip`) is written out concretely as
  CPython's whitespace set.

## Model

| member | source | states |
|---|---|---|
| Text.Strip | text.py:4 | `strip()` returns a contiguous slice of its input with no whitespace at either end, keeping every non-whitespace character in order; a string with non-space ends is unchanged |
| Text.Collapse | text.py:4 | after `re.sub(r'\s+', ' ')` the only whitespace is single `' '` characters; the result starts with a space exactly when the input starts with whitespace; it is empty exactly when the input is |
| Text.CollapseIsWords | text.py:4 | `re.sub(r'\s+', ' ', s)` is exactly the words of `s` (its maximal non-whitespace runs, in order) joined by single spaces, preceded by one space when `s` starts with whitespace and followed by one when it has a word and ends with whitespace |
| Text.CollapseFromWord | text.py:4 | a string that does not start with whitespace collapses to its words joined by single spaces, plus one space when it ends with whitespace |
| Text.JoinedWordsEnds | text.py:4 | words joined by single spaces are empty exactly when there are no words, and otherwise begin and end with non-whitespace |
| Text.CollapseKeepsNonSpaces | text.py:4 | the collapse step keeps the non-whitespace characters, in order |
| Text.CollapseAddsOnlySpaces | text.py:4 | every character the collapse step outputs is `' '` or a character of the input |
| Text.StripSingleSpaced | text.py:4 | stripping a string whose whitespace is isolated single spaces gives the normal form, with no new characters |
| Text.Normalize | text.py:3-5 | `normalize_text` output has no whitespace at either end, no two adjacent spaces and no whitespace other than `' '`; it keeps the input's non-whitespace characters in order and adds no character other than `' '` |
| Text.CollapseFixesSingleSpaces | text.py:4 | the collapse step leaves unchanged a string whose whitespace is already isolated single spaces |
| Text.NormalizeFixedPoint | text.py:3-5 | `normalize_text` returns its input unchanged exactly when the input is already in normal form (both directions) |
| Text.NormalizeIdempotent | text.py:3-5 | normalising twice gives the same as normalising once |
| Text.NormalizeJoinsWords | text.py:3-5 | `normalize_text(s)` equals `" ".join(s.split())`: the words of `s`, in order, separated by exactly one space, with nothing else |
| Text.RunEnd | text.py:8 | the greedy `[\w一-鿿+-]*` part of a tag ends at the first character outside the class |
| Text.SpansFromAreMatches | text.py:8-9 | every match `re.findall` reports is a complete greedy match: a `#`, a valid first character, then a maximal run; matches come left to right without overlapping |
| Text.TagsFromAreMatchTexts | text.py:9 | the tags `re.findall` returns are exactly the texts of those matches, in order |
| Text.SpansCoverEveryMatch | text.py:9 | no match is missed: every position where the pattern could start lies inside a reported match |
| Text.TagsWellFormed | text.py:8-9 | each extracted tag starts with an ASCII letter or digit or a U+4E00–U+9FFF character, continues only with word, CJK, `+` or `-` characters, and occurs right after a `#` |
| Text.ExtractHashtag | text.py:7-12 | without de-duplication the tags come in text order with repeats; with it, no tag repeats and the set of tags is the same |
| Text.Dedupe | text.py:11 | the de-duplicated list has no repeats and the same elements as the original |
| Text.FindAllTags | text.py:9 | the scanning loop computes exactly the tags of the match specification |
| Text.ScanRun | text.py:8 | the inner loop stops exactly where the greedy run of tag characters ends |
| Text.RemoveTagsFrom | text.py:16 | removing hashtags introduces no new characters |
| Text.RemoveTagsFromLength | text.py:16 | removal deletes exactly the characters of the matches (each tag and its `#`) and nothing else |
| Text.RemoveHashtagsLength | text.py:16 | over a whole string, the output length plus the matched length is the input length |
| Text.RemoveTagsFromNoHash | text.py:16 | text without a `#` passes through removal unchanged |
| Text.RemoveTagsKeepsGaps | text.py:16 | from any start position, removal outputs exactly the text between the matches the scan reports, in order; the matches are ordered, non-overlapping and inside the text |
| Text.RemoveHashtagsKeepsGaps | text.py:9-16 | `re.sub` of the pattern keeps exactly the gaps between the matches `re.findall` reports, concatenated in order |
| Text.DropEmoji | text.py:19-35 | a character survives emoji removal exactly when it was present and lies outside the ten listed ranges; the output is never longer |
| Text.DropEmojiAppend | text.py:19-35 | emoji removal distributes over concatenation, so it works character by character |
| Text.DropEmojiOne | text.py:19-35 | a single emoji (in one of the ten ranges) is removed, and any other single character is kept |
| Text.RemoveEmojiAndHashtag | text.py:14-37 | the cleaned text contains no emoji, is in normal form, and holds only spaces and characters of the input |
| Text.CleanedTextIsWordsOfGaps | text.py:14-37 | the cleaned text is exactly the words of the text outside every hashtag match, with emoji dropped, joined by single spaces |
| Text.CleanedTextIsNormalized | text.py:36 | the cleaned text is a fixed point of `normalize_text` |
| Text.EmojiCanShieldHashtag | text.py:16-35 | hashtags are removed before emoji, so `"#😀a"` cleans to `"#a"`, which still contains the tag `a` |
| Decorators.RetryFromFits | decorator.py:46-65 | a retry run consists of consecutive attempts within the budget; all but the last raised an `Exception`; a scheduled, non-negative sleep follows each failed attempt except the last; the last call decides the result (its value, `None` after the final attempt, an exception outside `Exception` passed through, or the sleep's `ValueError`) |
| Decorators.Retry | decorator.py:44-65 | the `for attempt in range(...)` loop with early returns computes the same run as the recursive definition |
| Decorators.RetryReturnsFirstSuccess | decorator.py:46-55 | when attempt k is the first success within the budget, the wrapper makes exactly k calls, returns that value and sleeps k-1 times on the backoff schedule |
| Decorators.RetryExhausted | decorator.py:56-65 | when every attempt raises, the wrapper makes exactly `max_attempts` calls with `max_attempts - 1` sleeps and returns `None` instead of raising |
| Decorators.EscapeIsNotRetried | decorator.py:46-49 | an exception that is not an `Exception` (such as `KeyboardInterrupt`) is not caught: the wrapper stops at that call, after `k - 1` scheduled sleeps, and the exception propagates |
| Decorators.RetryWithoutAttempts | decorator.py:46 | with `max_attempts <= 0` the function is never called and the result is `None` |
| Decorators.NegativeDelayRaises | decorator.py:52-55 | a negative delay makes the first retry's `time.sleep` raise |
| Decorators.FixedInterval | decorator.py:52 | with `backoff = 1` every sleep equals `delay` |
| Decorators.GrowingBackoff | decorator.py:52 | with `backoff > 1` and `delay > 0` each sleep is longer than the previous one |
| Decorators.Timer | decorator.py:8-17 | `timer` passes the single call's result or exception through unchanged; it logs exactly when the call returns, and the logged time is the second clock reading minus the first |
| Files.DirOfIsLastSlash | file.py:26 | the directory part of a path ends at its last `'/'`, and there is none when the path has no `'/'` |
| Files.ResolveUnchanged | file.py:48 | storing an entry at a path does not change how any shorter directory resolves |
| Files.ParentFaultAfterWrite | file.py:48 | writing a path leaves the way to its directory as it was |
| Files.Open | file.py:26 | opening for reading succeeds exactly on a file whose directory resolves, and gives its content; a missing directory component or a missing file raises `FileNotFoundError`, a component that is a file raises `NotADirectoryError`, and a directory raises `IsADirectoryError` |
| Files.ReadTxt | file.py:14-34 | `read_txt` succeeds exactly when its path opens, and otherwise raises that opening error; with `as_lines` it returns one whitespace-stripped string per line of the file, in order, and without it the whole text |
| Files.OpenForWrite | file.py:48 | opening for writing fails exactly when the directory part does not resolve (`FileNotFoundError` or `NotADirectoryError`) or the path is a directory (`IsADirectoryError`); append mode keeps the old content and write mode discards it |
| Files.OpenAfterWrite | file.py:26-48 | a file just written at a path whose directory resolves opens with exactly what was written |
| Files.PandasOpenForWrite | file.py:114 | pandas fails exactly where `open` would, but reports an unresolvable directory as its own `OSError` before opening |
| Files.Translate | file.py:26 | text-mode reads contain no `'\r'`; text without `'\r'` is read unchanged |
| Files.SplitLines | file.py:28 | `readlines()` pieces join back to the whole text; each piece has `'\n'` only at its end, and every piece but the last ends with one |
| Files.SplitTerminated | file.py:50-51 | lines without line breaks, each followed by `'\n'` and joined, split back into exactly those terminated lines |
| Files.WriteTxt | file.py:37-55 | only the target path is touched; when the path cannot be opened for writing nothing changes and the opening error is raised; otherwise the write raises `TypeError` exactly when the data is neither a string nor a list of strings; no other error arises |
| Files.WriteTxtLines | file.py:47-51 | a list is written as each line followed by exactly one `'\n'`; append mode puts it after the old content, write mode replaces the old content |
| Files.TxtRoundTrip | file.py:26-55 | lines without line breaks or surrounding whitespace, written by `write_txt`, are read back unchanged by `read_txt` |
| Files.ReadCsv | file.py:62-93 | a `format` other than `'dataframe'` or `'list'` raises `ValueError`; the opening error is passed on; dataframe mode returns pandas' table of the content or a frame error; list mode returns the parsed rows, with the first dropped under `skip_header`, raises `StopIteration` exactly when `skip_header` meets a file with no rows, and a csv error when the content does not parse |
| Files.CsvRows | file.py:122 | `writerows` fails exactly when some row is not iterable, and then with a csv error |
| Files.WriteFrameCsv | file.py:112-114 | `DataFrame.to_csv` touches only its path; it succeeds exactly when the path is writable, fails with pandas' `OSError` when the directory does not resolve and with `IsADirectoryError` on a directory, and then changes nothing |
| Files.WriteCsv | file.py:96-125 | only the target path is touched; data other than a dict, DataFrame or list raises `ValueError` before the file is touched; the only other errors are opening errors, pandas' missing-directory error, a DataFrame that cannot be built, and a row that is not iterable |
| Files.WriteCsvRows | file.py:116-122 | a list of rows is written as the header line (only if the header is non-empty) followed by the data rows in order, after the old content in append mode |
| Files.CsvRoundTrip | file.py:83-122 | rows written with a non-empty header and read in list mode with `skip_header` come back exactly; reading drops exactly the first row |
| Files.WriteCsvFresh | file.py:116-122 | in write mode the file holds exactly the header line and the rows |
| Files.CsvHeaderlessLosesFirstRow | file.py:86-122 | rows written without a header and read with the default `skip_header` lose their first row |
| Files.ReadJson | file.py:132-146 | (corrected) `read_json` succeeds exactly when the file opens and parses, and returns the parsed document; it raises only opening and decoding errors |
| Files.WriteJson | file.py:149-162 | `write_json` touches only its path; it succeeds exactly when the path is writable and the value serialises; an unwritable path raises its opening error with nothing changed, and the only other error is `TypeError` |
| Files.JsonRoundTrip | file.py:143-161 | a document the parser reads back from its own serialisation survives `write_json` and then `read_json` |
| Files.JsonRoundTripAsWritten | file.py:145 | as written, that round trip succeeds exactly for documents `len()` accepts; a top-level number, boolean or null raises `TypeError` |
| Files.ScalarDocumentCounterexample | file.py:143-146 | a file holding `42` makes the source's `read_json` raise `TypeError`, while the corrected reader returns 42 |
| Files.NonBlank | file.py:181 | `read_jsonl` keeps only lines that are not blank, and keeps all of them when none is blank |
| Files.NonBlankAppend | file.py:181 | the line filter distributes over concatenation, so it decides line by line and keeps file order |
| Files.NonBlankOne | file.py:181 | a single line is dropped exactly when `line.strip()` is empty, and otherwise kept unchanged |
| Files.ParseAll | file.py:181 | one parsed value per kept line, in order; the read fails exactly when some line fails to parse |
| Files.JsonLines | file.py:196-197 | the JSONL writer fails exactly when some element cannot be serialised, and then with `TypeError` |
| Files.ReadJsonl | file.py:169-183 | `read_jsonl` raises the opening error when the file does not open; otherwise it succeeds exactly when every non-blank line of the content parses, and returns those values in line order; decoding is the only other error |
| Files.WriteJsonl | file.py:186-198 | `write_jsonl` touches only its path; an unwritable path raises its opening error with nothing changed; a writable one ends up a file; the only other error is `TypeError` |
| Files.JsonlOneLinePerElement | file.py:195-197 | `write_jsonl` writes exactly one line per element, each being that element's serialisation and a `'\n'` |
| Files.JsonlRoundTrip | file.py:180-197 | a list whose elements serialise to single non-blank lines that parse back is read back unchanged by `read_jsonl` |
| Files.ReadTable | file.py:218 | `pd.read_parquet` of one path yields a table only for a file, and then exactly what the Parquet reader makes of the file's content |
| Files.ChunksAreReadableEntries | file.py:231-241 | a table is among the directory's chunks exactly when some entry that is not ignored reads as it |
| Files.ChunksOne | file.py:231-241 | one entry contributes its table, unless its name contains an ignored name or it does not read as a table; with `ChunksAppend` this fixes the chunks of every listing |
| Files.ChunksAppend | file.py:231-238 | chunks follow the listing order: reading a listing in two parts and joining the results gives the same chunks |
| Files.ReadParquetDir | file.py:229-253 | the directory loop, with `continue` on ignored names and `except` on failed reads, concatenates exactly the chunks of the readable, non-ignored entries in listing order |
| Files.ReadParquet | file.py:205-253 | `read_parquet` returns `None` exactly for a path that is neither a file nor a directory; a file gives the table it reads as, or an empty table when unreadable; a directory gives its chunks concatenated in listing order, which is an empty table when there are none |
| Files.WriteParquet | file.py:256-266 | anything but a DataFrame raises `AttributeError` with nothing written; only the target path is touched; a DataFrame is written exactly when the path is writable, and otherwise pandas' missing-directory error or `IsADirectoryError` is raised with nothing changed |
| Files.ParquetRoundTrip | file.py:216-265 | a DataFrame written by `write_parquet` to a writable path is read back unchanged by `read_parquet`, given a Parquet codec that reads back what it writes |
| Files.FormatOfBySuffix | file.py:279-288 | a path gets a format exactly when it ends with that format's suffix (both directions), so `.jsonl` goes to JSONL and not JSON |
| Files.UpperCaseSuffixUnsupported | file.py:289-290 | suffixes are case-sensitive: `.JSON` is unsupported |
| Files.ReadFile | file.py:269-290 | `read_file` sends a `.json` path to `read_json`, `.jsonl` to `read_jsonl`, `.parquet` to `read_parquet`, `.csv` to `read_csv` and `.txt` to `read_txt`, with the options each takes, and raises the unsupported-format error naming the path exactly when no suffix matches |
| Files.WriteFile | file.py:292-312 | `write_file` sends each of the five suffixes to its own writer, and raises the unsupported-format error, with nothing written, exactly when no suffix matches; only the target path is touched |
| Files.DispatchAgrees | file.py:279-312 | `read_file` rejects a path exactly when `write_file` does, and exactly when it ends with none of the five suffixes |
| Images.ConvertRgb | image.py:164 | `convert('RGB')` keeps the size and drops the decoded format |
| Images.LastPiece | image.py:172 | `split('.')[-1]` is the dot-free suffix of the path that follows its last dot, or the whole path when it has no dot |
| Images.AsciiLower | image.py:172 | lower-casing maps each character on its own and keeps the length |
| Images.ExtensionDecidesFormat | image.py:8-17 | a path ending in a dot and a known extension, in any letter case, gets the format the extension table gives |
| Images.UpperCaseJpg | image.py:172 | `photo.JPG` is taken as JPEG |
| Images.Locate | image.py:160-171 | an existing path is opened locally, with no bytes, and fails exactly when PIL cannot open it; otherwise a string starting with `http` is fetched and its bytes decoded, failing on the fetch or the decoding; anything else raises `ValueError`; the picture is the decoded one converted to RGB, and the format reported is the one PIL decoded |
| Images.LoadImg | image.py:151-182 | (corrected) a known extension decides the format, and otherwise the format PIL decoded does; picture and bytes come from locating the image |
| Images.LoadImgClassifies | image.py:162-171 | `load_img` rejects a path exactly when it neither exists nor starts with `http`; local loads carry no bytes and remote loads carry the fetched bytes |
| Images.LoadImgAsWrittenLosesFallback | image.py:172 | with a known extension the source and the corrected loader agree; without one, the source always records no format |
| Images.FallbackCounterexample | image.py:164-172 | an existing PNG file named `photo` loads with format `None` in the source, and `PNG` when corrected |
| Images.NewImageTool | image.py:23-46 | construction raises `ValueError` exactly when no source is given; the recorded size is the picture's size; `img_format` is set exactly when a path was given; a handle from a path exists exactly when `load_img` succeeds, and holds its picture, bytes and format; from bytes it exists exactly when they decode, holding the converted picture and the bytes; from base64 text it needs the text to decode and then the bytes to decode, holding the converted picture and the decoded bytes; a PIL image is kept as it is, with no bytes |
| Images.PathTakesPrecedence | image.py:36-37 | with a path, the handle is the one built from the path alone, whatever else is passed |
| Images.BytesBeforeBase64 | image.py:38-41 | without a path, bytes outrank base64 text and a PIL image |
| Images.Base64BeforePil | image.py:40-43 | without a path or bytes, base64 text outranks a PIL image |
| Images.SaveFormat | image.py:194-197 | the explicit format wins; otherwise a stored format is used as it is, and `JPEG` when the stored one is `None`; a handle that never set a format raises `AttributeError`, and nothing else fails |
| Images.SaveImg | image.py:186-202 | the handle's picture is saved to the given path in the format `SaveFormat` chooses; it succeeds exactly when that choice succeeds and PIL's save accepts the path and format; a failed choice raises `AttributeError` and a failed save re-raises PIL's error |
| Images.LoadedHandleSavesInItsFormat | image.py:37-197 | a handle loaded from a path with a known extension chooses that extension's format by default, and saves in it wherever PIL accepts the save |
| Images.PathHandleFormat | image.py:37 | a handle built from a path stores the format `load_img` reported |
| Images.SavesStoredFormat | image.py:194-199 | a handle with a stored format saves in it by default wherever PIL accepts the save |
| Images.UnloadedHandleNeedsFormat | image.py:194-199 | a handle built from bytes, base64 text or a PIL image cannot be saved without an explicit format, and with one it saves exactly when PIL accepts the save |
| Images.Trunc | image.py:229 | `int()` truncates toward zero |
| Images.Resize | image.py:227 | PIL's resize yields exactly the requested size and rejects a side shorter than one pixel |
| Images.ResizeImg | image.py:216-237 | with neither `size` nor `scale` it raises `ValueError`; `size` gives exactly that size; a non-negative `scale` gives the truncated products of the recorded size, and fails exactly when one of them is below one; a negative `scale` always fails |
| Images.SizeWinsOverScale | image.py:226-227 | when both are given, `scale` is ignored |
| Images.WholeScale | image.py:229 | scaling by a whole number multiplies the recorded size exactly |
| Images.ScaleUsesPictureSize | image.py:229 | for a handle whose recorded size is its picture's size, as every constructed handle's is, scaling truncates the picture's sides times the scale |

## Behaviour worth knowing

- **Suffix case.** The dispatch tests `str.endswith` against lower-case
  suffixes, so `.JSON` is rejected (file.py:279-290).
- **Unsupported-format error.** Its message holds the whole path
  (file.py:290, file.py:312).
- **Parquet directories.** A directory is read entry by entry, in
  `os.listdir` order. An entry whose name contains an ignored name is
  skipped, and an entry that fails to read is logged and skipped
  (file.py:228-241).
- **HTTP fetch.** `requests.get` is called with no timeout, and the
  status code is never looked at (image.py:165-169).
- **Base64.** The text goes to `base64.b64decode` as it is, so a data-URI
  prefix is not removed (image.py:122).
- **Saving.** `save_img` chooses its format from the argument or the
  stored format only, never from the destination's extension, and it
  creates no directories (image.py:193-199).
- **Constructor.** `ImageTool` takes each source as its own keyword
  argument and uses the first one given in the order path, bytes,
  base64, PIL image (image.py:36-45).
- **Resize.** When both `size` and `scale` are given, `size` is used and
  `scale` ignored. Scaled sides go through `int()`, which truncates
  toward zero (image.py:226-229).
- **Retry.** Only `Exception` is caught, and a failed last attempt
  returns `None` instead of raising (decorator.py:48-65).

## Left out

- `logger.py` is not part of this model: it only chooses a logging backend and sets up sinks. Log lines are not modelled anywhere.
- `mp.py` is not part of this model: it is thread and process pools, and progress bars.
- The `timeout` decorator (decorator.py:19-31) is left out: it is about concurrency and wall-clock waiting.
- Decoding and encoding pixels, and the bytes/base64 conversions (image.py:49-148), are PIL and base64 calls. They appear only as the `decode` and `b64decode` parameters. `visualize_img` (image.py:205-214) only opens a viewer.
- The HTTP request is the `fetch` parameter. Network errors are a single `FetchError`.
- Writing an image file is PIL's `save`, given as the `save` parameter: whether PIL accepts a path and format is not modelled further, and all its failures are one `SaveError`.
- Images.AsciiLower: lower-cases ASCII letters only. Python's `str.lower` also lowers other letters, but none of them lowers to a key of the extension table.
- File encodings are left out: files hold characters, not bytes. Writes are taken on POSIX, where text mode writes `'\n'` unchanged.
- Paths are resolved as strings split at `'/'`. `.`, `..`, repeated slashes, symbolic links and permissions are not modelled, and the root directory is not itself an entry.
- A file created by a write is not added to its directory's listing, which is kept only to drive `read_parquet`.
- pandas' check for a missing directory before writing raises an `OSError`; the model reports it as the single error `NoParentDirectory`.
- Images.NewImageTool: built on the corrected `load_img`, so an image whose path has no known extension stores the format PIL decoded. The code as written stores `None` there (see Findings), and `save_img` then writes JPEG.
- Files.ReadFile: built on the corrected `read_json`, so a `.json` file whose document is a number, boolean or null is returned. The code as written raises `TypeError` there (see Findings).
- Files.ReadParquet: a sub-directory inside a Parquet directory is read as an unreadable entry and skipped, not as a nested dataset.
- The `sep` and `**kwargs` arguments of the CSV and Parquet functions are not modelled.
- A keyword argument a handler does not accept raises `TypeError` in Python (for example `append` passed through `write_file` to `write_json`). The model's option records carry only the options each handler takes, and ignore the rest.
- Files.WriteJson: when serialisation fails, the file is modelled as left empty. `json.dump` may already have written part of the document.
- Files.WriteJsonl, Files.CsvRows: iterating a DataFrame yields its column labels in Python. The model has no column labels and reports a DataFrame as not iterable.
- Floating-point arithmetic is left out. Sleep durations, clock readings and `scale` are Dafny `real`, so there is no rounding or overflow.
- Decorators.Timer: the elapsed time is the difference of the two given clock readings. The clock itself is not modelled.
- Decorators.RetryFromFits: exceptions are only told apart as `Exception` or not; which exception class was raised is not modelled.
- Files.ReadParquet: the `data.info` logging calls that could raise inside the `try` are not modelled.

## Findings

| source | as written | input that shows it | evidently intended | confidence | as-written member | corrected member |
|---|---|---|---|---|---|---|
| file.py:145 | `read_json` logs `len(data)` after parsing, so a document whose top level is a number, boolean or null raises `TypeError`, even though `write_json` writes such documents without complaint | a `.json` file holding `42` | return the parsed document whatever its kind, so that `write_json` followed by `read_json` round-trips every serialisable value | medium (the docstring speaks of dicts); not executed | Files.ScalarDocumentCounterexample | Files.JsonRoundTrip |
| image.py:172 | the fallback for an unknown extension reads `img_pil.format`, but `img_pil` is already the result of `convert('RGB')`, which PIL creates with format `None` | an existing PNG file named `photo` (no extension) | fall back to the format PIL decoded before conversion | high; not executed | Images.FallbackCounterexample | Images.LoadImg |

In both cases the rest of the model uses the corrected member. `Files.ReadFile` calls `Files.ReadJson`, and `Images.NewImageTool` calls `Images.LoadImg`. The as-written behaviour is kept as `Files.ReadJsonAsWritten` and `Images.LoadImgAsWritten`.
