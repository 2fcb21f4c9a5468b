/** Model of the toolkit's file I/O: readers and writers for text, CSV,
    JSON, JSON Lines and Parquet files, and the `read_file` / `write_file`
    entry points that choose one by the path's suffix.

    The file system is a map from path to entry. The parsers and
    serialisers of the json, csv, pandas and pyarrow libraries are not
    modelled: they are the function-valued fields of `Codecs`. Text-mode
    reads apply Python's universal-newline translation; writes are taken
    on a POSIX system, where text mode writes `'\n'` unchanged. */
module Files {
  import opened Wrappers
  import Text

  type Row = seq<string>

  /** The rows of a pandas DataFrame; columns and dtypes are not modelled. */
  type Table = seq<Row>

  /** The Python values the readers return and the writers accept. */
  datatype Value =
    | VNone
    | VBool(b: bool)
    | VInt(i: int)
    | VStr(s: string)
    | VList(items: seq<Value>)
    | VDict(entries: seq<(string, Value)>)
    | VFrame(table: Table)

  datatype Entry = File(content: string) | Dir(names: seq<string>)

  type FileSystem = map<string, Entry>

  /** The exceptions the file functions raise. */
  datatype FileError =
    | UnsupportedFileFormat(path: string)   // ValueError from read_file / write_file
    | UnsupportedCsvFormat(format: string)  // ValueError from read_csv
    | UnsupportedCsvData                    // ValueError from write_csv
    | FileNotFound(path: string)
    | IsADirectory(path: string)
    | NotADirectory(path: string)           // a component of the path's directory is a file
    | NoParentDirectory(path: string)       // OSError from pandas: the directory to save into is missing
    | TypeError
    | JsonDecodeError
    | CsvError
    | FrameError                            // pandas could not build or parse a DataFrame
    | StopIteration                         // next() on a CSV reader with no rows
    | AttributeError                        // a non-DataFrame handed to write_parquet

  /** The library functions the file layer calls. `None` stands for the
      library raising. */
  datatype Codecs = Codecs(
    parseJson: string -> Option<Value>,                  // json.load / json.loads
    dumpJson: Value -> Option<string>,                   // json.dump(..., indent=4)
    dumpJsonLine: Value -> Option<string>,               // json.dumps(...)
    parseCsv: string -> Option<seq<Row>>,                // csv.reader
    csvLine: seq<Value> -> string,                       // csv.writer.writerow, with terminator
    readCsvFrame: string -> Option<Table>,               // pandas.read_csv
    frameToCsv: Table -> string,                         // DataFrame.to_csv
    dictToFrame: seq<(string, Value)> -> Option<Table>,  // pandas.DataFrame(dict)
    readParquet: string -> Option<Table>,                // pandas.read_parquet of a file's content
    frameToParquet: Table -> string                      // DataFrame.to_parquet
  )

  /** The outcome of a writer: the file system afterwards, and the
      exception raised, if any. A writer that fails after opening its
      file leaves what it had written by then. */
  datatype Written = Written(fs: FileSystem, error: Option<FileError>)

  /** No path other than `path` was touched. */
  ghost predicate SameElsewhere(fs: FileSystem, fs': FileSystem, path: string) {
    forall p :: p != path ==> (p in fs <==> p in fs') && (p in fs ==> fs'[p] == fs[p])
  }

  // ------------------------------------------------------------------
  // Paths
  // ------------------------------------------------------------------

  /** The directory part of `path`: what comes before its last `'/'`, or
      `None` when it has none, for a name in the working directory. The
      empty directory part of `"/name"` is the root. */
  function DirOf(path: string): (r: Option<string>)
    ensures r.Some? ==> |r.value| < |path|
    decreases |path|
  {
    if path == [] then None
    else if path[|path| - 1] == '/' then Some(path[..|path| - 1])
    else DirOf(path[..|path| - 1])
  }

  /** The directory part ends at the last `'/'`, and there is none when
      `path` has no `'/'`. */
  lemma {:induction false} DirOfIsLastSlash(path: string)
    ensures DirOf(path).None? <==> forall k :: 0 <= k < |path| ==> path[k] != '/'
    ensures DirOf(path).Some? ==>
              var d := DirOf(path).value;
              && path[..|d|] == d && path[|d|] == '/'
              && forall k :: |d| < k < |path| ==> path[k] != '/'
    decreases |path|
  {
    if path != [] && path[|path| - 1] != '/' {
      var q := path[..|path| - 1];
      DirOfIsLastSlash(q);
      assert forall k :: 0 <= k < |q| ==> q[k] == path[k];
    }
  }

  /** Why a directory does not resolve: a component is missing, or is a
      file. */
  datatype Fault = Missing | NotDir

  /** Resolving directory `dir` one component at a time, the first
      component that is missing or is a file decides. The root and the
      working directory always resolve. */
  function Resolve(fs: FileSystem, dir: string): (r: Option<Fault>)
    ensures r.None? && dir != [] ==> dir in fs && fs[dir].Dir?
    decreases |dir|
  {
    if dir == [] then None
    else
      var above := match DirOf(dir) case None => None case Some(up) => Resolve(fs, up);
      if above.Some? then above
      else if dir !in fs then Some(Missing)
      else if fs[dir].File? then Some(NotDir)
      else None
  }

  /** What stands in the way of reaching the directory `path` is in. */
  function ParentFault(fs: FileSystem, path: string): Option<Fault> {
    match DirOf(path)
    case None => None
    case Some(d) => Resolve(fs, d)
  }

  /** `os.path.isfile(path)`. */
  predicate IsFile(fs: FileSystem, path: string) {
    ParentFault(fs, path).None? && path in fs && fs[path].File?
  }

  /** `os.path.isdir(path)`. */
  predicate IsDir(fs: FileSystem, path: string) {
    ParentFault(fs, path).None? && path in fs && fs[path].Dir?
  }

  /** `open(path, 'w')` can create or truncate `path`. */
  predicate Writable(fs: FileSystem, path: string) {
    ParentFault(fs, path).None? && !(path in fs && fs[path].Dir?)
  }

  /** Storing an entry at `path` does not change how any shorter
      directory resolves. */
  lemma {:induction false} ResolveUnchanged(fs: FileSystem, d: string, path: string, e: Entry)
    requires |d| < |path|
    ensures Resolve(fs[path := e], d) == Resolve(fs, d)
    decreases |d|
  {
    if d != [] {
      match DirOf(d)
      case None =>
      case Some(up) => ResolveUnchanged(fs, up, path, e);
    }
  }

  /** Writing `path` leaves the way to it as it was. */
  lemma ParentFaultAfterWrite(fs: FileSystem, path: string, e: Entry)
    ensures ParentFault(fs[path := e], path) == ParentFault(fs, path)
  {
    match DirOf(path)
    case None =>
    case Some(d) => ResolveUnchanged(fs, d, path, e);
  }

  // ------------------------------------------------------------------
  // Opening files, lines and newlines
  // ------------------------------------------------------------------

  /** The errors opening `path` can raise. */
  predicate OpenError(e: FileError, path: string) {
    e == FileNotFound(path) || e == IsADirectory(path) || e == NotADirectory(path)
  }

  /** `open(path, 'r')`: the file's content. */
  function Open(fs: FileSystem, path: string): (r: Result<string, FileError>)
    ensures r.Ok? <==> IsFile(fs, path)
    ensures r.Ok? ==> r.value == fs[path].content
    ensures r.Err? ==> OpenError(r.error, path)
    ensures ParentFault(fs, path) == Some(Missing) ==> r == Err(FileNotFound(path))
    ensures ParentFault(fs, path) == Some(NotDir) ==> r == Err(NotADirectory(path))
    ensures ParentFault(fs, path).None? && path !in fs ==> r == Err(FileNotFound(path))
    ensures ParentFault(fs, path).None? && path in fs && fs[path].Dir? ==> r == Err(IsADirectory(path))
  {
    match ParentFault(fs, path)
    case Some(Missing) => Err(FileNotFound(path))
    case Some(NotDir) => Err(NotADirectory(path))
    case None =>
      if path !in fs then Err(FileNotFound(path))
      else match fs[path]
        case File(content) => Ok(content)
        case Dir(_) => Err(IsADirectory(path))
  }

  /** `open(path, 'a' if append else 'w')`: the content the new text goes
      after: the old content when appending, nothing when truncating. */
  function OpenForWrite(fs: FileSystem, path: string, append: bool): (r: Result<string, FileError>)
    ensures r.Err? <==> !Writable(fs, path)
    ensures r.Err? ==> OpenError(r.error, path)
    ensures ParentFault(fs, path) == Some(Missing) ==> r == Err(FileNotFound(path))
    ensures ParentFault(fs, path) == Some(NotDir) ==> r == Err(NotADirectory(path))
    ensures ParentFault(fs, path).None? && path in fs && fs[path].Dir? ==> r == Err(IsADirectory(path))
    ensures r.Ok? && append && path in fs ==> r.value == fs[path].content
    ensures r.Ok? && !(append && path in fs) ==> r.value == []
  {
    match ParentFault(fs, path)
    case Some(Missing) => Err(FileNotFound(path))
    case Some(NotDir) => Err(NotADirectory(path))
    case None =>
      if path in fs && fs[path].Dir? then Err(IsADirectory(path))
      else if append && path in fs then Ok(fs[path].content)
      else Ok([])
  }

  /** A file just written at a reachable path opens with what was written. */
  lemma OpenAfterWrite(fs: FileSystem, path: string, x: string)
    requires ParentFault(fs, path).None?
    ensures Open(fs[path := File(x)], path) == Ok(x)
  {
    ParentFaultAfterWrite(fs, path, File(x));
  }

  /** pandas checks that the directory to save into exists before it
      opens the file. */
  function PandasOpenForWrite(fs: FileSystem, path: string, append: bool): (r: Result<string, FileError>)
    ensures r.Err? <==> !Writable(fs, path)
    ensures ParentFault(fs, path).Some? ==> r == Err(NoParentDirectory(path))
    ensures ParentFault(fs, path).None? ==> r == OpenForWrite(fs, path, append)
  {
    if ParentFault(fs, path).Some? then Err(NoParentDirectory(path))
    else OpenForWrite(fs, path, append)
  }

  predicate NoLineBreak(t: string) {
    forall k :: 0 <= k < |t| ==> t[k] != '\n' && t[k] != '\r'
  }

  /** Universal-newline decoding of text-mode reads: `"\r\n"` and a lone
      `'\r'` each become `'\n'`. */
  function Translate(c: string): (r: string)
    ensures forall k :: 0 <= k < |r| ==> r[k] != '\r'
    ensures (forall k :: 0 <= k < |c| ==> c[k] != '\r') ==> r == c
    decreases |c|
  {
    if c == [] then []
    else if c[0] == '\r' then
      var rest := if |c| > 1 && c[1] == '\n' then c[2..] else c[1..];
      ['\n'] + Translate(rest)
    else
      [c[0]] + Translate(c[1..])
  }

  function Concat(ls: seq<string>): string {
    if ls == [] then [] else ls[0] + Concat(ls[1..])
  }

  /** The end of the first line of `c`: just past its first `'\n'`, or the
      end of `c` when there is none. */
  function FirstLineEnd(c: string): (e: nat)
    requires c != []
    ensures 1 <= e <= |c|
    ensures forall m :: 0 <= m < e - 1 ==> c[m] != '\n'
    ensures e < |c| ==> c[e - 1] == '\n'
    decreases |c|
  {
    if c[0] == '\n' || |c| == 1 then 1 else 1 + FirstLineEnd(c[1..])
  }

  /** A line as iterating a text file yields it: non-empty, with `'\n'`
      only as its last character. */
  predicate IsLine(l: string) {
    |l| > 0 && forall m :: 0 <= m < |l| - 1 ==> l[m] != '\n'
  }

  /** A line that carries its `'\n'`. */
  predicate EndsLine(l: string) {
    |l| > 0 && l[|l| - 1] == '\n'
  }

  /** The lines `readlines()` (or iterating the file) yields. */
  function SplitLines(c: string): (r: seq<string>)
    ensures Concat(r) == c
    ensures forall k :: 0 <= k < |r| ==> IsLine(r[k])
    ensures forall k :: 0 <= k < |r| - 1 ==> EndsLine(r[k])
    decreases |c|
  {
    if c == [] then []
    else
      var e := FirstLineEnd(c);
      assert c[..e] + c[e..] == c;
      [c[..e]] + SplitLines(c[e..])
  }

  /** Each line followed by `'\n'`, as `write_txt` and `write_jsonl` frame them. */
  function Terminated(lines: seq<string>): (r: seq<string>)
    ensures |r| == |lines|
    ensures forall k :: 0 <= k < |r| ==> r[k] == lines[k] + "\n"
  {
    seq(|lines|, k requires 0 <= k < |lines| => lines[k] + "\n")
  }

  lemma {:induction false} FirstLineEndOfTerminated(l: string, rest: string)
    requires NoLineBreak(l)
    ensures FirstLineEnd(l + "\n" + rest) == |l| + 1
    decreases |l|
  {
    if l != [] {
      FirstLineEndOfTerminated(l[1..], rest);
      assert (l + "\n" + rest)[1..] == l[1..] + "\n" + rest;
    }
  }

  /** Framing lines that contain no line break and splitting the result
      again gives back each line with exactly one `'\n'`. */
  lemma {:induction false} SplitTerminated(lines: seq<string>)
    requires forall k :: 0 <= k < |lines| ==> NoLineBreak(lines[k])
    ensures SplitLines(Concat(Terminated(lines))) == Terminated(lines)
    decreases |lines|
  {
    if lines != [] {
      var t := Terminated(lines);
      assert t[1..] == Terminated(lines[1..]);
      SplitTerminated(lines[1..]);
      var c := Concat(t);
      assert c == lines[0] + "\n" + Concat(t[1..]);
      FirstLineEndOfTerminated(lines[0], Concat(t[1..]));
      assert c[..|lines[0]| + 1] == lines[0] + "\n";
      assert c[|lines[0]| + 1..] == Concat(t[1..]);
    }
  }

  lemma {:induction false} ConcatNoLineBreak(lines: seq<string>)
    requires forall k :: 0 <= k < |lines| ==> NoLineBreak(lines[k])
    ensures forall k :: 0 <= k < |Concat(Terminated(lines))| ==> Concat(Terminated(lines))[k] != '\r'
    decreases |lines|
  {
    if lines != [] {
      var t := Terminated(lines);
      assert t[1..] == Terminated(lines[1..]);
      ConcatNoLineBreak(lines[1..]);
      var c := Concat(t);
      assert c == (lines[0] + "\n") + Concat(t[1..]);
      forall k | 0 <= k < |c|
        ensures c[k] != '\r'
      {
        if k >= |lines[0]| + 1 {
          assert c[k] == Concat(t[1..])[k - |lines[0]| - 1];
        }
      }
    }
  }

  /** `str.strip()` of each line. */
  function StripEach(lines: seq<string>): (r: seq<string>)
    ensures |r| == |lines|
    ensures forall k :: 0 <= k < |r| ==> r[k] == Text.Strip(lines[k])
  {
    seq(|lines|, k requires 0 <= k < |lines| => Text.Strip(lines[k]))
  }

  /** A line already without whitespace at either end. */
  predicate IsStripped(l: string) {
    l == [] || (!Text.IsSpace(l[0]) && !Text.IsSpace(l[|l| - 1]))
  }

  lemma StripTerminated(l: string)
    requires IsStripped(l)
    ensures Text.Strip(l + "\n") == l
  {
    var t := l + "\n";
    assert Text.IsSpace(t[|t| - 1]);
    if l == [] {
      assert Text.TrimStart(t) == Text.TrimStart([]) == [];
    } else {
      assert !Text.IsSpace(t[0]);
      assert Text.TrimStart(t) == t;
      assert t[..|t| - 1] == l;
      assert Text.TrimEnd(l) == l;
      assert Text.TrimEnd(t) == Text.TrimEnd(l);
    }
  }

  function Strings(ls: seq<string>): (r: seq<Value>)
    ensures |r| == |ls|
    ensures forall k :: 0 <= k < |r| ==> r[k] == VStr(ls[k])
  {
    seq(|ls|, k requires 0 <= k < |ls| => VStr(ls[k]))
  }

  /** Python iteration over a value: a list yields its items, a str its
      characters, a dict its keys. Anything else is not iterable (a
      DataFrame's column labels are not modelled). */
  function Iterate(v: Value): Option<seq<Value>> {
    match v
    case VList(items) => Some(items)
    case VStr(s) => Some(seq(|s|, k requires 0 <= k < |s| => VStr([s[k]])))
    case VDict(entries) => Some(seq(|entries|, k requires 0 <= k < |entries| => VStr(entries[k].0)))
    case _ => None
  }

  // ------------------------------------------------------------------
  // TXT
  // ------------------------------------------------------------------

  /** `read_txt`: the stripped lines, or the whole text. */
  function ReadTxt(fs: FileSystem, path: string, asLines: bool): (r: Result<Value, FileError>)
    ensures r.Ok? <==> Open(fs, path).Ok?
    ensures r.Err? ==> r.error == Open(fs, path).error && OpenError(r.error, path)
    ensures r.Ok? && !asLines ==> r.value == VStr(Translate(Open(fs, path).value))
    ensures r.Ok? && asLines ==>
              var lines := SplitLines(Translate(Open(fs, path).value));
              && r.value.VList? && |r.value.items| == |lines|
              && forall k :: 0 <= k < |lines| ==> r.value.items[k] == VStr(Text.Strip(lines[k]))
  {
    match Open(fs, path)
    case Err(e) => Err(e)
    case Ok(raw) =>
      var c := Translate(raw);
      if asLines then Ok(VList(Strings(StripEach(SplitLines(c))))) else Ok(VStr(c))
  }

  /** All items are Python strings. */
  predicate AllStrings(items: seq<Value>) {
    forall k :: 0 <= k < |items| ==> items[k].VStr?
  }

  function StringsOf(items: seq<Value>): (r: seq<string>)
    requires AllStrings(items)
    ensures |r| == |items|
    ensures forall k :: 0 <= k < |r| ==> items[k] == VStr(r[k])
  {
    seq(|items|, k requires 0 <= k < |items| => items[k].s)
  }

  /** `write_txt`: a list is written as its lines, each followed by
      `'\n'`; a string is written as it is. Anything else raises
      `TypeError` after the file was opened (and, in write mode, emptied). */
  function WriteTxt(fs: FileSystem, path: string, data: Value, append: bool): (w: Written)
    ensures SameElsewhere(fs, w.fs, path)
    ensures !Writable(fs, path) ==> w.fs == fs && w.error.Some? && OpenError(w.error.value, path)
    ensures w.error.None? <==> Writable(fs, path) && (data.VStr? || (data.VList? && AllStrings(data.items)))
    ensures Writable(fs, path) ==> path in w.fs && w.fs[path].File?
    ensures w.error.Some? ==> OpenError(w.error.value, path) || w.error.value == TypeError
  {
    match OpenForWrite(fs, path, append)
    case Err(e) => Written(fs, Some(e))
    case Ok(base) =>
      match data
      case VStr(s) => Written(fs[path := File(base + s)], None)
      case VList(items) =>
        if AllStrings(items) then Written(fs[path := File(base + Concat(Terminated(StringsOf(items))))], None)
        else Written(fs[path := File(base)], Some(TypeError))
      case _ => Written(fs[path := File(base)], Some(TypeError))
  }

  /** Writing lines: each line and one `'\n'`, after the old content in
      append mode and in place of it in write mode. */
  lemma WriteTxtLines(fs: FileSystem, path: string, lines: seq<string>, append: bool)
    requires Writable(fs, path)
    ensures var w := WriteTxt(fs, path, VList(Strings(lines)), append);
            && w.error.None?
            && w.fs[path] == File((if append && path in fs then fs[path].content else []) + Concat(Terminated(lines)))
  {
    assert StringsOf(Strings(lines)) == lines;
  }

  /** Lines without line breaks or surrounding whitespace, written by
      `write_txt`, are read back unchanged by `read_txt`. */
  lemma TxtRoundTrip(fs: FileSystem, path: string, lines: seq<string>)
    requires Writable(fs, path)
    requires forall k :: 0 <= k < |lines| ==> NoLineBreak(lines[k]) && IsStripped(lines[k])
    ensures ReadTxt(WriteTxt(fs, path, VList(Strings(lines)), false).fs, path, true) == Ok(VList(Strings(lines)))
  {
    var w := WriteTxt(fs, path, VList(Strings(lines)), false);
    var c := Concat(Terminated(lines));
    WriteTxtLines(fs, path, lines, false);
    assert [] + c == c;
    assert w.fs == fs[path := File(c)];
    OpenAfterWrite(fs, path, c);
    ReadTerminated(w.fs, path, lines);
  }

  /** Reading back a file that holds framed lines. */
  lemma ReadTerminated(fs: FileSystem, path: string, lines: seq<string>)
    requires forall k :: 0 <= k < |lines| ==> NoLineBreak(lines[k]) && IsStripped(lines[k])
    requires Open(fs, path) == Ok(Concat(Terminated(lines)))
    ensures ReadTxt(fs, path, true) == Ok(VList(Strings(lines)))
  {
    var c := Concat(Terminated(lines));
    ConcatNoLineBreak(lines);
    assert Translate(c) == c;
    SplitTerminated(lines);
    StripEachTerminated(lines);
  }

  lemma StripEachTerminated(lines: seq<string>)
    requires forall k :: 0 <= k < |lines| ==> IsStripped(lines[k])
    ensures StripEach(Terminated(lines)) == lines
  {
    forall k | 0 <= k < |lines|
      ensures StripEach(Terminated(lines))[k] == lines[k]
    {
      StripTerminated(lines[k]);
    }
  }

  // ------------------------------------------------------------------
  // CSV
  // ------------------------------------------------------------------

  function RowsValue(rows: seq<Row>): (r: Value)
    ensures r.VList? && |r.items| == |rows|
    ensures forall k :: 0 <= k < |rows| ==> r.items[k] == VList(Strings(rows[k]))
  {
    VList(seq(|rows|, k requires 0 <= k < |rows| => VList(Strings(rows[k]))))
  }

  /** `read_csv`: a DataFrame, or in list mode the rows with the first
      one dropped when `skip_header` is set. Any other `format` is
      rejected before the file is touched. */
  function ReadCsv(fs: FileSystem, c: Codecs, path: string, format: string, skipHeader: bool): (r: Result<Value, FileError>)
    ensures format != "dataframe" && format != "list" ==> r == Err(UnsupportedCsvFormat(format))
    ensures r.Ok? && format == "dataframe" ==> r.value.VFrame?
    ensures r.Ok? && format == "list" ==> r.value.VList?
    ensures (format == "list" || format == "dataframe") && Open(fs, path).Err? ==> r == Err(Open(fs, path).error)
    ensures format == "list" && Open(fs, path).Ok? ==>
              var parsed := c.parseCsv(Translate(Open(fs, path).value));
              && (parsed.None? ==> r == Err(CsvError))
              && (parsed.Some? && !skipHeader ==> r == Ok(RowsValue(parsed.value)))
              && (parsed.Some? && skipHeader ==>
                    (r == Err(StopIteration) <==> parsed.value == [])
                    && (parsed.value != [] ==> r == Ok(RowsValue(parsed.value[1..]))))
    ensures format == "dataframe" && Open(fs, path).Ok? ==>
              var t := c.readCsvFrame(Open(fs, path).value);
              && (t.None? ==> r == Err(FrameError))
              && (t.Some? ==> r == Ok(VFrame(t.value)))
    ensures r.Err? ==> OpenError(r.error, path) ||
                       r.error in {UnsupportedCsvFormat(format), FrameError, CsvError, StopIteration}
  {
    if format == "dataframe" then
      match Open(fs, path)
      case Err(e) => Err(e)
      case Ok(raw) =>
        match c.readCsvFrame(raw)
        case None => Err(FrameError)
        case Some(t) => Ok(VFrame(t))
    else if format == "list" then
      match Open(fs, path)
      case Err(e) => Err(e)
      case Ok(raw) =>
        match c.parseCsv(Translate(raw))
        case None => Err(CsvError)
        case Some(rows) =>
          if skipHeader then
            if rows == [] then Err(StopIteration) else Ok(RowsValue(rows[1..]))
          else Ok(RowsValue(rows))
    else Err(UnsupportedCsvFormat(format))
  }

  /** `writer.writerows(items)`: one line per item, stopping at the first
      item that is not iterable. */
  function CsvRows(c: Codecs, items: seq<Value>): (r: (string, Option<FileError>))
    ensures r.1.None? <==> forall k :: 0 <= k < |items| ==> Iterate(items[k]).Some?
    ensures r.1.Some? ==> r.1 == Some(CsvError)
  {
    if items == [] then ([], None)
    else match Iterate(items[0])
      case None => ([], Some(CsvError))
      case Some(cells) =>
        var rest := CsvRows(c, items[1..]);
        assert forall k :: 1 <= k < |items| ==> items[k] == items[1..][k - 1];
        (c.csvLine(cells) + rest.0, rest.1)
  }

  /** The CSV text of a list of string rows. */
  function CsvText(c: Codecs, rows: seq<Row>): string {
    if rows == [] then [] else c.csvLine(Strings(rows[0])) + CsvText(c, rows[1..])
  }

  /** The header line `write_csv` writes: only when a non-empty header is given. */
  function HeaderLine(c: Codecs, header: Option<Row>): string {
    if header.Some? && |header.value| > 0 then c.csvLine(Strings(header.value)) else []
  }

  /** `DataFrame.to_csv(path, mode='a' if append else 'w')`. */
  function WriteFrameCsv(fs: FileSystem, c: Codecs, path: string, t: Table, append: bool): (w: Written)
    ensures SameElsewhere(fs, w.fs, path)
    ensures w.error.None? <==> Writable(fs, path)
    ensures ParentFault(fs, path).Some? ==> w == Written(fs, Some(NoParentDirectory(path)))
    ensures w.error.Some? ==> w.fs == fs && w.error.value in {IsADirectory(path), NoParentDirectory(path)}
    ensures Writable(fs, path) ==> path in w.fs && w.fs[path].File?
  {
    match PandasOpenForWrite(fs, path, append)
    case Err(e) => Written(fs, Some(e))
    case Ok(base) => Written(fs[path := File(base + c.frameToCsv(t))], None)
  }

  /** `write_csv`: a dict is turned into a DataFrame; a DataFrame goes
      through pandas; a list is written as the header row (when a
      non-empty one is given) followed by its rows. Any other data
      raises `ValueError` before the file is opened. */
  function WriteCsv(fs: FileSystem, c: Codecs, path: string, data: Value, append: bool, header: Option<Row>): (w: Written)
    ensures SameElsewhere(fs, w.fs, path)
    ensures w.error == Some(UnsupportedCsvData) <==> !(data.VDict? || data.VFrame? || data.VList?)
    ensures w.error == Some(UnsupportedCsvData) ==> w.fs == fs
    ensures w.error.Some? ==> OpenError(w.error.value, path) ||
                              w.error.value in {NoParentDirectory(path), UnsupportedCsvData, FrameError, CsvError}
  {
    match data
    case VDict(entries) =>
      (match c.dictToFrame(entries)
       case None => Written(fs, Some(FrameError))
       case Some(t) => WriteFrameCsv(fs, c, path, t, append))
    case VFrame(t) => WriteFrameCsv(fs, c, path, t, append)
    case VList(items) =>
      (match OpenForWrite(fs, path, append)
       case Err(e) => Written(fs, Some(e))
       case Ok(base) =>
         var body := CsvRows(c, items);
         Written(fs[path := File(base + HeaderLine(c, header) + body.0)], body.1))
    case _ => Written(fs, Some(UnsupportedCsvData))
  }

  lemma {:induction false} CsvRowsOfStrings(c: Codecs, rows: seq<Row>)
    ensures CsvRows(c, RowsValue(rows).items) == (CsvText(c, rows), None)
    decreases |rows|
  {
    if rows != [] {
      CsvRowsOfStrings(c, rows[1..]);
      assert RowsValue(rows).items[1..] == RowsValue(rows[1..]).items;
    }
  }

  /** A list of string rows is written as the header line (when non-empty)
      and then one line per row, in order. */
  lemma WriteCsvRows(fs: FileSystem, c: Codecs, path: string, rows: seq<Row>, append: bool, header: Option<Row>)
    requires Writable(fs, path)
    ensures var w := WriteCsv(fs, c, path, RowsValue(rows), append, header);
            && w.error.None?
            && w.fs[path] == File((if append && path in fs then fs[path].content else [])
                                  + HeaderLine(c, header) + CsvText(c, rows))
  {
    CsvRowsOfStrings(c, rows);
  }

  /** Rows written with a non-empty header and read back in list mode with
      `skip_header` come back as written, provided the csv reader parses
      the written text into the header and the rows. */
  lemma CsvRoundTrip(fs: FileSystem, c: Codecs, path: string, rows: seq<Row>, header: Row)
    requires Writable(fs, path)
    requires |header| > 0
    requires c.parseCsv(Translate(c.csvLine(Strings(header)) + CsvText(c, rows))) == Some([header] + rows)
    ensures ReadCsv(WriteCsv(fs, c, path, RowsValue(rows), false, Some(header)).fs, c, path, "list", true)
            == Ok(RowsValue(rows))
  {
    var w := WriteCsv(fs, c, path, RowsValue(rows), false, Some(header));
    var text := c.csvLine(Strings(header)) + CsvText(c, rows);
    WriteCsvFresh(fs, c, path, rows, Some(header));
    assert HeaderLine(c, Some(header)) + CsvText(c, rows) == text;
    OpenAfterWrite(fs, path, text);
    ReadCsvSkippingHeader(w.fs, c, path, text, [header] + rows);
    assert ([header] + rows)[1..] == rows;
  }

  /** In write mode the file holds exactly the header line and the rows. */
  lemma WriteCsvFresh(fs: FileSystem, c: Codecs, path: string, rows: seq<Row>, header: Option<Row>)
    requires Writable(fs, path)
    ensures var w := WriteCsv(fs, c, path, RowsValue(rows), false, header);
            w.fs == fs[path := File(HeaderLine(c, header) + CsvText(c, rows))]
  {
    WriteCsvRows(fs, c, path, rows, false, header);
    assert [] + HeaderLine(c, header) + CsvText(c, rows) == HeaderLine(c, header) + CsvText(c, rows);
  }

  /** A list-mode read with `skip_header` of a file the csv reader parses
      into at least one row. */
  lemma ReadCsvSkippingHeader(fs: FileSystem, c: Codecs, path: string, text: string, parsed: seq<Row>)
    requires Open(fs, path) == Ok(text)
    requires c.parseCsv(Translate(text)) == Some(parsed) && parsed != []
    ensures ReadCsv(fs, c, path, "list", true) == Ok(RowsValue(parsed[1..]))
  {
  }

  /** Without a header (or with an empty one) nothing marks the first
      line, and the default `skip_header` read drops the first data row. */
  lemma CsvHeaderlessLosesFirstRow(fs: FileSystem, c: Codecs, path: string, rows: seq<Row>, header: Option<Row>)
    requires Writable(fs, path)
    requires header.None? || header.value == []
    requires rows != []
    requires c.parseCsv(Translate(CsvText(c, rows))) == Some(rows)
    ensures ReadCsv(WriteCsv(fs, c, path, RowsValue(rows), false, header).fs, c, path, "list", true)
            == Ok(RowsValue(rows[1..]))
  {
    var w := WriteCsv(fs, c, path, RowsValue(rows), false, header);
    var text := CsvText(c, rows);
    WriteCsvFresh(fs, c, path, rows, header);
    assert HeaderLine(c, header) == [];
    assert [] + text == text;
    OpenAfterWrite(fs, path, text);
    ReadCsvSkippingHeader(w.fs, c, path, text, rows);
  }

  // ------------------------------------------------------------------
  // JSON
  // ------------------------------------------------------------------

  /** Python's `len()` accepts the value. */
  predicate HasLen(v: Value) {
    v.VStr? || v.VList? || v.VDict? || v.VFrame?
  }

  /** `read_json` as written: after parsing, it logs `len(data)`, which
      raises `TypeError` when the document is a number, a boolean or
      `null`. */
  function ReadJsonAsWritten(fs: FileSystem, c: Codecs, path: string): Result<Value, FileError> {
    match Open(fs, path)
    case Err(e) => Err(e)
    case Ok(raw) =>
      match c.parseJson(raw)
      case None => Err(JsonDecodeError)
      case Some(v) => if HasLen(v) then Ok(v) else Err(TypeError)
  }

  /** `read_json` as intended: the parsed document, whatever its kind. */
  function ReadJson(fs: FileSystem, c: Codecs, path: string): (r: Result<Value, FileError>)
    ensures r.Ok? <==> Open(fs, path).Ok? && c.parseJson(Open(fs, path).value).Some?
    ensures r.Ok? ==> Some(r.value) == c.parseJson(Open(fs, path).value)
    ensures r.Err? ==> OpenError(r.error, path) || r.error == JsonDecodeError
  {
    match Open(fs, path)
    case Err(e) => Err(e)
    case Ok(raw) =>
      match c.parseJson(raw)
      case None => Err(JsonDecodeError)
      case Some(v) => Ok(v)
  }

  /** `write_json`: the file is emptied, then the serialised document
      written; a value json cannot serialise raises `TypeError`. */
  function WriteJson(fs: FileSystem, c: Codecs, path: string, data: Value): (w: Written)
    ensures SameElsewhere(fs, w.fs, path)
    ensures !Writable(fs, path) ==> w.fs == fs && w.error.Some? && OpenError(w.error.value, path)
    ensures w.error.None? <==> Writable(fs, path) && c.dumpJson(data).Some?
    ensures w.error.Some? ==> OpenError(w.error.value, path) || w.error.value == TypeError
  {
    match OpenForWrite(fs, path, false)
    case Err(e) => Written(fs, Some(e))
    case Ok(_) =>
      match c.dumpJson(data)
      case None => Written(fs[path := File([])], Some(TypeError))
      case Some(text) => Written(fs[path := File(text)], None)
  }

  /** A document that the parser reads back from its own serialisation
      survives a write and a read. */
  lemma JsonRoundTrip(fs: FileSystem, c: Codecs, path: string, v: Value)
    requires Writable(fs, path)
    requires c.dumpJson(v).Some? && c.parseJson(c.dumpJson(v).value) == Some(v)
    ensures ReadJson(WriteJson(fs, c, path, v).fs, c, path) == Ok(v)
  {
    OpenAfterWrite(fs, path, c.dumpJson(v).value);
  }

  /** As written, that round trip holds exactly for the documents `len()`
      accepts: a top-level number, boolean or null is written but cannot
      be read back. */
  lemma JsonRoundTripAsWritten(fs: FileSystem, c: Codecs, path: string, v: Value)
    requires Writable(fs, path)
    requires c.dumpJson(v).Some? && c.parseJson(c.dumpJson(v).value) == Some(v)
    ensures ReadJsonAsWritten(WriteJson(fs, c, path, v).fs, c, path) == Ok(v) <==> HasLen(v)
    ensures !HasLen(v) ==> ReadJsonAsWritten(WriteJson(fs, c, path, v).fs, c, path) == Err(TypeError)
  {
    OpenAfterWrite(fs, path, c.dumpJson(v).value);
  }

  /** A concrete case: a file holding the JSON document `42`. */
  lemma ScalarDocumentCounterexample(fs: FileSystem, c: Codecs, path: string)
    requires Open(fs, path) == Ok("42")
    requires c.parseJson("42") == Some(VInt(42))
    ensures ReadJsonAsWritten(fs, c, path) == Err(TypeError)
    ensures ReadJson(fs, c, path) == Ok(VInt(42))
  {
  }

  // ------------------------------------------------------------------
  // JSON Lines
  // ------------------------------------------------------------------

  /** The lines `read_jsonl` keeps: those that are not blank. */
  function NonBlank(lines: seq<string>): (r: seq<string>)
    ensures |r| <= |lines|
    ensures forall k :: 0 <= k < |r| ==> Text.Strip(r[k]) != []
    ensures (forall k :: 0 <= k < |lines| ==> Text.Strip(lines[k]) != []) ==> r == lines
  {
    if lines == [] then []
    else
      var rest := NonBlank(lines[1..]);
      if Text.Strip(lines[0]) != [] then [lines[0]] + rest else rest
  }

  /** One line as `read_jsonl` filters it. */
  function KeptLine(l: string): (r: seq<string>)
    ensures Text.Strip(l) != [] ==> r == [l]
    ensures Text.Strip(l) == [] ==> r == []
  {
    if Text.Strip(l) != [] then [l] else []
  }

  /** The filter works line by line: it distributes over concatenation ... */
  lemma {:induction false} NonBlankAppend(a: seq<string>, b: seq<string>)
    ensures NonBlank(a + b) == NonBlank(a) + NonBlank(b)
    decreases |a|
  {
    if a == [] {
      assert a + b == b;
    } else {
      var l, a' := a[0], a[1..];
      assert a + b == [l] + (a' + b);
      assert a == [l] + a';
      NonBlankAppend(a', b);
      NonBlankCons(l, a' + b);
      NonBlankCons(l, a');
      LinesRegroup(NonBlank([l] + (a' + b)), KeptLine(l), NonBlank(a' + b), NonBlank(a'),
                   NonBlank(b), NonBlank([l] + a'));
    }
  }

  lemma NonBlankCons(l: string, t: seq<string>)
    ensures NonBlank([l] + t) == KeptLine(l) + NonBlank(t)
  {
    assert ([l] + t)[1..] == t;
  }

  lemma LinesRegroup(x: seq<string>, k: seq<string>, x1: seq<string>, a1: seq<string>, b: seq<string>, a: seq<string>)
    requires x == k + x1 && x1 == a1 + b && a == k + a1
    ensures x == a + b
  {
  }

  /** ... drops a single blank line and keeps any other single line. */
  lemma NonBlankOne(l: string)
    ensures Text.Strip(l) == [] ==> NonBlank([l]) == []
    ensures Text.Strip(l) != [] ==> NonBlank([l]) == [l]
  {
    NonBlankCons(l, []);
    assert [l] + [] == [l];
  }

  /** `json.loads` of every line; `None` as soon as one is rejected. */
  function ParseAll(c: Codecs, lines: seq<string>): (r: Option<seq<Value>>)
    ensures r.Some? <==> forall k :: 0 <= k < |lines| ==> c.parseJson(lines[k]).Some?
    ensures r.Some? ==> |r.value| == |lines| &&
                        forall k :: 0 <= k < |lines| ==> c.parseJson(lines[k]) == Some(r.value[k])
  {
    if lines == [] then Some([])
    else match c.parseJson(lines[0])
      case None => None
      case Some(v) =>
        match ParseAll(c, lines[1..])
        case None => None
        case Some(vs) =>
          assert forall k :: 1 <= k < |lines| ==> lines[k] == lines[1..][k - 1];
          Some([v] + vs)
  }

  /** `read_jsonl`: one parsed value per non-blank line, in file order. */
  function ReadJsonl(fs: FileSystem, c: Codecs, path: string): (r: Result<Value, FileError>)
    ensures r.Err? ==> OpenError(r.error, path) || r.error == JsonDecodeError
    ensures Open(fs, path).Err? ==> r == Err(Open(fs, path).error)
    ensures Open(fs, path).Ok? ==>
              var parsed := ParseAll(c, NonBlank(SplitLines(Translate(Open(fs, path).value))));
              && (r.Ok? <==> parsed.Some?)
              && (r.Ok? ==> r.value == VList(parsed.value))
  {
    match Open(fs, path)
    case Err(e) => Err(e)
    case Ok(raw) =>
      match ParseAll(c, NonBlank(SplitLines(Translate(raw))))
      case None => Err(JsonDecodeError)
      case Some(vs) => Ok(VList(vs))
  }

  /** `f.write(json.dumps(item) + '\n')` for each item in turn, stopping
      at the first item json cannot serialise. */
  function JsonLines(c: Codecs, items: seq<Value>): (r: (string, Option<FileError>))
    ensures r.1.None? <==> forall k :: 0 <= k < |items| ==> c.dumpJsonLine(items[k]).Some?
    ensures r.1.Some? ==> r.1 == Some(TypeError)
  {
    if items == [] then ([], None)
    else match c.dumpJsonLine(items[0])
      case None => ([], Some(TypeError))
      case Some(t) =>
        var rest := JsonLines(c, items[1..]);
        assert forall k :: 1 <= k < |items| ==> items[k] == items[1..][k - 1];
        (t + "\n" + rest.0, rest.1)
  }

  /** `write_jsonl`. A value other than a list is written through Python
      iteration (a str by characters, a dict by keys). */
  function WriteJsonl(fs: FileSystem, c: Codecs, path: string, data: Value): (w: Written)
    ensures SameElsewhere(fs, w.fs, path)
    ensures !Writable(fs, path) ==> w.fs == fs && w.error.Some? && OpenError(w.error.value, path)
    ensures Writable(fs, path) ==> path in w.fs && w.fs[path].File?
    ensures w.error.Some? ==> OpenError(w.error.value, path) || w.error.value == TypeError
  {
    match OpenForWrite(fs, path, false)
    case Err(e) => Written(fs, Some(e))
    case Ok(_) =>
      match Iterate(data)
      case None => Written(fs[path := File([])], Some(TypeError))
      case Some(items) =>
        var body := JsonLines(c, items);
        Written(fs[path := File(body.0)], body.1)
  }

  /** What `json.dumps` makes of each item, when it accepts them all. */
  function Dumps(c: Codecs, items: seq<Value>): (r: seq<string>)
    requires forall k :: 0 <= k < |items| ==> c.dumpJsonLine(items[k]).Some?
    ensures |r| == |items|
    ensures forall k :: 0 <= k < |items| ==> c.dumpJsonLine(items[k]) == Some(r[k])
  {
    seq(|items|, k requires 0 <= k < |items| => c.dumpJsonLine(items[k]).value)
  }

  lemma {:induction false} JsonLinesFramed(c: Codecs, items: seq<Value>)
    requires forall k :: 0 <= k < |items| ==> c.dumpJsonLine(items[k]).Some?
    ensures JsonLines(c, items) == (Concat(Terminated(Dumps(c, items))), None)
    decreases |items|
  {
    if items != [] {
      JsonLinesFramed(c, items[1..]);
      assert Dumps(c, items)[1..] == Dumps(c, items[1..]);
      assert Terminated(Dumps(c, items))[1..] == Terminated(Dumps(c, items[1..]));
    }
  }

  /** `write_jsonl` on a list writes exactly one line per element, when no
      serialised element contains a line break. */
  lemma JsonlOneLinePerElement(fs: FileSystem, c: Codecs, path: string, items: seq<Value>)
    requires Writable(fs, path)
    requires forall k :: 0 <= k < |items| ==> c.dumpJsonLine(items[k]).Some?
    requires forall k :: 0 <= k < |items| ==> NoLineBreak(c.dumpJsonLine(items[k]).value)
    ensures var w := WriteJsonl(fs, c, path, VList(items));
            && w.error.None?
            && |SplitLines(w.fs[path].content)| == |items|
            && SplitLines(w.fs[path].content) == Terminated(Dumps(c, items))
  {
    JsonLinesFramed(c, items);
    SplitTerminated(Dumps(c, items));
  }

  /** A serialised element that is one non-blank line and parses back to
      the element. */
  predicate JsonLineSafe(c: Codecs, v: Value) {
    match c.dumpJsonLine(v)
    case None => false
    case Some(t) => NoLineBreak(t) && Text.Strip(t) != [] && c.parseJson(t + "\n") == Some(v)
  }

  /** A list written by `write_jsonl` is read back by `read_jsonl` unchanged. */
  lemma JsonlRoundTrip(fs: FileSystem, c: Codecs, path: string, items: seq<Value>)
    requires Writable(fs, path)
    requires forall k :: 0 <= k < |items| ==> JsonLineSafe(c, items[k])
    ensures ReadJsonl(WriteJsonl(fs, c, path, VList(items)).fs, c, path) == Ok(VList(items))
  {
    assert forall k :: 0 <= k < |items| ==> c.dumpJsonLine(items[k]).Some?;
    var ds := Dumps(c, items);
    var fs' := WriteJsonl(fs, c, path, VList(items)).fs;
    assert Open(fs', path) == Ok(Concat(Terminated(ds))) by {
      JsonLinesFramed(c, items);
      OpenAfterWrite(fs, path, Concat(Terminated(ds)));
    }
    forall k | 0 <= k < |ds|
      ensures NoLineBreak(ds[k]) && Text.Strip(ds[k]) != [] && c.parseJson(ds[k] + "\n") == Some(items[k])
    {
      assert JsonLineSafe(c, items[k]);
    }
    ReadFramedJsonLines(fs', c, path, items, ds);
  }

  /** A file of framed lines, each non-blank and parsing to its item, reads
      back as the items. */
  lemma ReadFramedJsonLines(fs: FileSystem, c: Codecs, path: string, items: seq<Value>, ds: seq<string>)
    requires Open(fs, path) == Ok(Concat(Terminated(ds)))
    requires |ds| == |items|
    requires forall k :: 0 <= k < |ds| ==>
               NoLineBreak(ds[k]) && Text.Strip(ds[k]) != [] && c.parseJson(ds[k] + "\n") == Some(items[k])
    ensures ReadJsonl(fs, c, path) == Ok(VList(items))
  {
    var lines := Terminated(ds);
    var text := Concat(lines);
    ConcatNoLineBreak(ds);
    assert Translate(text) == text;
    SplitTerminated(ds);
    forall k | 0 <= k < |lines|
      ensures Text.Strip(lines[k]) != []
    {
      NonBlankHasNonSpace(ds[k]);
    }
    assert NonBlank(lines) == lines;
    ParseTerminated(c, items, ds);
  }

  lemma ParseTerminated(c: Codecs, items: seq<Value>, ds: seq<string>)
    requires |ds| == |items|
    requires forall k :: 0 <= k < |items| ==> c.parseJson(ds[k] + "\n") == Some(items[k])
    ensures ParseAll(c, Terminated(ds)) == Some(items)
  {
    var r := ParseAll(c, Terminated(ds));
    assert r.Some?;
    assert r.value == items;
  }

  /** A string whose strip is non-empty keeps a non-whitespace character
      when more text is added after it. */
  lemma NonBlankHasNonSpace(t: string)
    requires Text.Strip(t) != []
    ensures Text.Strip(t + "\n") != []
  {
    var s := Text.Strip(t);
    assert !Text.IsSpace(s[0]);
    assert Text.RemoveSpaces(s) != [] by {
      assert Text.RemoveSpaces(s) == [s[0]] + Text.RemoveSpaces(s[1..]);
    }
    Text.RemoveSpacesAppend(t, "\n");
    assert Text.RemoveSpaces("\n") == [];
    assert Text.RemoveSpaces(t + "\n") == Text.RemoveSpaces(t);
    assert Text.RemoveSpaces(Text.Strip(t + "\n")) != [];
  }

  // ------------------------------------------------------------------
  // Parquet
  // ------------------------------------------------------------------

  /** `sub in s` on strings. */
  predicate Contains(s: string, sub: string)
    decreases |s|
  {
    (|sub| <= |s| && s[..|sub|] == sub) || (|s| > 0 && Contains(s[1..], sub))
  }

  /** `any(ignore_name in file_name for ignore_name in ignore)`. */
  predicate Ignored(name: string, ignore: seq<string>) {
    exists k :: 0 <= k < |ignore| && Contains(name, ignore[k])
  }

  /** `os.path.join(root, name)` for a bare entry name. */
  function Join(root: string, name: string): string {
    if root == [] || root[|root| - 1] == '/' then root + name else root + "/" + name
  }

  /** `pd.read_parquet(path)` of one file: `None` when it cannot be
      opened or does not hold a table. */
  function ReadTable(fs: FileSystem, c: Codecs, path: string): (r: Option<Table>)
    ensures r.Some? ==> IsFile(fs, path) && c.readParquet(fs[path].content) == r
    ensures IsFile(fs, path) ==> r == c.readParquet(fs[path].content)
  {
    match Open(fs, path)
    case Err(_) => None
    case Ok(content) => c.readParquet(content)
  }

  /** The tables of the directory entries that are not ignored and that
      pandas reads, in listing order. */
  function Chunks(fs: FileSystem, c: Codecs, root: string, names: seq<string>, ignore: seq<string>): seq<Table> {
    if names == [] then []
    else
      var rest := Chunks(fs, c, root, names[1..], ignore);
      if Ignored(names[0], ignore) then rest
      else match ReadTable(fs, c, Join(root, names[0]))
        case None => rest
        case Some(t) => [t] + rest
  }

  /** `pd.concat(..., ignore_index=True)` on row lists. */
  function Flatten(ts: seq<Table>): Table {
    if ts == [] then [] else ts[0] + Flatten(ts[1..])
  }

  /** A table is among the chunks exactly when some entry, not ignored,
      reads as it. */
  lemma {:induction false} ChunksAreReadableEntries(fs: FileSystem, c: Codecs, root: string, names: seq<string>, ignore: seq<string>, t: Table)
    ensures t in Chunks(fs, c, root, names, ignore) <==>
            exists k :: 0 <= k < |names| && !Ignored(names[k], ignore) && ReadTable(fs, c, Join(root, names[k])) == Some(t)
    decreases |names|
  {
    if names != [] {
      ChunksAreReadableEntries(fs, c, root, names[1..], ignore, t);
      if exists k :: 0 <= k < |names| && !Ignored(names[k], ignore) && ReadTable(fs, c, Join(root, names[k])) == Some(t) {
        var k :| 0 <= k < |names| && !Ignored(names[k], ignore) && ReadTable(fs, c, Join(root, names[k])) == Some(t);
        if k > 0 {
          assert names[1..][k - 1] == names[k];
        }
      }
      if exists k :: 0 <= k < |names| - 1 && !Ignored(names[1..][k], ignore) && ReadTable(fs, c, Join(root, names[1..][k])) == Some(t) {
        var k :| 0 <= k < |names| - 1 && !Ignored(names[1..][k], ignore) && ReadTable(fs, c, Join(root, names[1..][k])) == Some(t);
        assert names[k + 1] == names[1..][k];
      }
    }
  }

  /** Chunks follow the listing order: reading a listing in two parts and
      putting the parts together gives the same chunks. */
  lemma {:induction false} ChunksAppend(fs: FileSystem, c: Codecs, root: string, a: seq<string>, b: seq<string>, ignore: seq<string>)
    ensures Chunks(fs, c, root, a + b, ignore) == Chunks(fs, c, root, a, ignore) + Chunks(fs, c, root, b, ignore)
    decreases |a|
  {
    if a == [] {
      assert a + b == b;
    } else {
      ChunksAppend(fs, c, root, a[1..], b, ignore);
      assert (a + b)[1..] == a[1..] + b;
    }
  }

  /** One directory entry contributes its table, unless it is ignored or
      does not read as a table. With `ChunksAppend` this decides the
      chunks of every listing. */
  lemma ChunksOne(fs: FileSystem, c: Codecs, root: string, n: string, ignore: seq<string>)
    ensures Chunks(fs, c, root, [n], ignore) ==
              if Ignored(n, ignore) || ReadTable(fs, c, Join(root, n)).None? then []
              else [ReadTable(fs, c, Join(root, n)).value]
  {
    assert [n][1..] == [];
  }

  /** Concatenating the chunks keeps every row of every chunk, in order. */
  lemma {:induction false} FlattenAppend(x: seq<Table>, y: seq<Table>)
    ensures Flatten(x + y) == Flatten(x) + Flatten(y)
    decreases |x|
  {
    if x == [] {
      assert x + y == y;
    } else {
      FlattenAppend(x[1..], y);
      assert (x + y)[1..] == x[1..] + y;
    }
  }

  /** The directory loop of `read_parquet`, as the source writes it. */
  method ReadParquetDir(fs: FileSystem, c: Codecs, root: string, names: seq<string>, ignore: seq<string>) returns (rows: Table)
    ensures rows == Flatten(Chunks(fs, c, root, names, ignore))
  {
    var allChunks: seq<Table> := [];
    var i := 0;
    while i < |names|
      invariant 0 <= i <= |names|
      invariant allChunks == Chunks(fs, c, root, names[..i], ignore)
    {
      var name := names[i];
      ChunksAppend(fs, c, root, names[..i], [name], ignore);
      ChunksOne(fs, c, root, name, ignore);
      assert names[..i + 1] == names[..i] + [name];
      if !Ignored(name, ignore) {
        var chunk := ReadTable(fs, c, Join(root, name));
        if chunk.Some? {
          allChunks := allChunks + [chunk.value];
        }
      }
      i := i + 1;
    }
    assert names[..|names|] == names;
    rows := [];
    var j := 0;
    while j < |allChunks|
      invariant 0 <= j <= |allChunks|
      invariant rows == Flatten(allChunks[..j])
    {
      FlattenAppend(allChunks[..j], [allChunks[j]]);
      assert allChunks[..j + 1] == allChunks[..j] + [allChunks[j]];
      rows := rows + allChunks[j];
      j := j + 1;
    }
    assert allChunks[..|allChunks|] == allChunks;
  }

  /** `read_parquet`: a file is read whole (an unreadable one gives an
      empty table); a directory gives its readable, non-ignored entries
      concatenated in listing order (an empty table when there are none);
      anything else gives `None`. */
  function ReadParquet(fs: FileSystem, c: Codecs, root: string, ignore: seq<string>): (r: Value)
    ensures r.VNone? <==> !IsFile(fs, root) && !IsDir(fs, root)
    ensures IsFile(fs, root) && ReadTable(fs, c, root).None? ==> r == VFrame([])
    ensures IsDir(fs, root) && Chunks(fs, c, root, fs[root].names, ignore) == [] ==> r == VFrame([])
    ensures IsFile(fs, root) && ReadTable(fs, c, root).Some? ==> r == VFrame(ReadTable(fs, c, root).value)
    ensures IsDir(fs, root) ==> r == VFrame(Flatten(Chunks(fs, c, root, fs[root].names, ignore)))
  {
    if IsFile(fs, root) then VFrame(ReadTable(fs, c, root).GetOr([]))
    else if IsDir(fs, root) then VFrame(Flatten(Chunks(fs, c, root, fs[root].names, ignore)))
    else VNone
  }

  /** `write_parquet`: only a DataFrame has `to_parquet`. */
  function WriteParquet(fs: FileSystem, c: Codecs, path: string, data: Value): (w: Written)
    ensures SameElsewhere(fs, w.fs, path)
    ensures !data.VFrame? ==> w == Written(fs, Some(AttributeError))
    ensures data.VFrame? && ParentFault(fs, path).Some? ==> w == Written(fs, Some(NoParentDirectory(path)))
    ensures w.error.None? <==> data.VFrame? && Writable(fs, path)
    ensures w.error.Some? ==> w.fs == fs && w.error.value in {IsADirectory(path), NoParentDirectory(path), AttributeError}
  {
    match data
    case VFrame(t) =>
      (match PandasOpenForWrite(fs, path, false)
       case Err(e) => Written(fs, Some(e))
       case Ok(_) => Written(fs[path := File(c.frameToParquet(t))], None))
    case _ => Written(fs, Some(AttributeError))
  }

  /** A DataFrame written by `write_parquet` is read back by
      `read_parquet` unchanged, provided the Parquet codec reads back what
      it writes. */
  lemma ParquetRoundTrip(fs: FileSystem, c: Codecs, path: string, t: Table, ignore: seq<string>)
    requires Writable(fs, path)
    requires c.readParquet(c.frameToParquet(t)) == Some(t)
    ensures ReadParquet(WriteParquet(fs, c, path, VFrame(t)).fs, c, path, ignore) == VFrame(t)
  {
    var x := c.frameToParquet(t);
    assert WriteParquet(fs, c, path, VFrame(t)).fs == fs[path := File(x)];
    OpenAfterWrite(fs, path, x);
  }

  // ------------------------------------------------------------------
  // Dispatch by suffix
  // ------------------------------------------------------------------

  datatype Format = Json | Jsonl | Parquet | Csv | Txt

  function Suffix(f: Format): string {
    match f
    case Json => ".json"
    case Jsonl => ".jsonl"
    case Parquet => ".parquet"
    case Csv => ".csv"
    case Txt => ".txt"
  }

  /** `str.endswith`, case-sensitive. */
  predicate EndsWith(s: string, suffix: string) {
    |suffix| <= |s| && s[|s| - |suffix|..] == suffix
  }

  /** The `if/elif` chain shared by `read_file` and `write_file`. */
  function FormatOf(path: string): Option<Format> {
    if EndsWith(path, ".json") then Some(Json)
    else if EndsWith(path, ".jsonl") then Some(Jsonl)
    else if EndsWith(path, ".parquet") then Some(Parquet)
    else if EndsWith(path, ".csv") then Some(Csv)
    else if EndsWith(path, ".txt") then Some(Txt)
    else None
  }

  /** No path ends with two of the suffixes, so the order of the chain does
      not matter: a path gets a format exactly when it ends with that
      format's suffix. In particular `.jsonl` is not taken for `.json`. */
  lemma FormatOfBySuffix(path: string, f: Format)
    ensures FormatOf(path) == Some(f) <==> EndsWith(path, Suffix(f))
  {
    var n := |path|;
    if EndsWith(path, ".jsonl") {
      assert path[n - 1] == 'l';
    }
    if EndsWith(path, ".json") {
      assert path[n - 1] == 'n';
    }
    if EndsWith(path, ".parquet") {
      assert path[n - 1] == 't' && path[n - 2] == 'e';
    }
    if EndsWith(path, ".csv") {
      assert path[n - 1] == 'v';
    }
    if EndsWith(path, ".txt") {
      assert path[n - 1] == 't' && path[n - 2] == 'x';
    }
  }

  /** `FormatOfBySuffix` for each of the five formats. */
  lemma FormatsBySuffix(path: string)
    ensures EndsWith(path, ".json") ==> FormatOf(path) == Some(Json)
    ensures EndsWith(path, ".jsonl") ==> FormatOf(path) == Some(Jsonl)
    ensures EndsWith(path, ".parquet") ==> FormatOf(path) == Some(Parquet)
    ensures EndsWith(path, ".csv") ==> FormatOf(path) == Some(Csv)
    ensures EndsWith(path, ".txt") ==> FormatOf(path) == Some(Txt)
  {
    FormatOfBySuffix(path, Json);
    FormatOfBySuffix(path, Jsonl);
    FormatOfBySuffix(path, Parquet);
    FormatOfBySuffix(path, Csv);
    FormatOfBySuffix(path, Txt);
  }

  /** Suffix matching is case-sensitive: an upper-case `.JSON` is not
      supported. */
  lemma UpperCaseSuffixUnsupported(stem: string)
    ensures FormatOf(stem + ".JSON") == None
  {
    var p := stem + ".JSON";
    assert p[|p| - 1] == 'N';
  }

  /** Options `read_file` passes through to the chosen reader. */
  datatype ReadOptions = ReadOptions(asLines: bool, csvFormat: string, skipHeader: bool, ignore: seq<string>)

  /** The readers' own defaults. */
  const DefaultReadOptions := ReadOptions(true, "dataframe", true, ["_SUCCESS"])

  /** Options `write_file` passes through to the chosen writer. */
  datatype WriteOptions = WriteOptions(append: bool, header: Option<Row>)

  const DefaultWriteOptions := WriteOptions(false, None)

  /** The reader for a format, or `ValueError` naming the path when
      there is none. */
  function ReadAs(fs: FileSystem, c: Codecs, path: string, opts: ReadOptions, f: Option<Format>): (r: Result<Value, FileError>)
    ensures r == Err(UnsupportedFileFormat(path)) <==> f.None?
    ensures f == Some(Json) ==> r == ReadJson(fs, c, path)
    ensures f == Some(Jsonl) ==> r == ReadJsonl(fs, c, path)
    ensures f == Some(Parquet) ==> r == Ok(ReadParquet(fs, c, path, opts.ignore))
    ensures f == Some(Csv) ==> r == ReadCsv(fs, c, path, opts.csvFormat, opts.skipHeader)
    ensures f == Some(Txt) ==> r == ReadTxt(fs, path, opts.asLines)
  {
    match f
    case None => Err(UnsupportedFileFormat(path))
    case Some(Json) => ReadJson(fs, c, path)
    case Some(Jsonl) => ReadJsonl(fs, c, path)
    case Some(Parquet) => Ok(ReadParquet(fs, c, path, opts.ignore))
    case Some(Csv) => ReadCsv(fs, c, path, opts.csvFormat, opts.skipHeader)
    case Some(Txt) => ReadTxt(fs, path, opts.asLines)
  }

  /** `read_file`: the reader the suffix names, or `ValueError` naming the path. */
  function ReadFile(fs: FileSystem, c: Codecs, path: string, opts: ReadOptions): (r: Result<Value, FileError>)
    ensures r == Err(UnsupportedFileFormat(path)) <==> FormatOf(path).None?
    ensures EndsWith(path, ".json") ==> r == ReadJson(fs, c, path)
    ensures EndsWith(path, ".jsonl") ==> r == ReadJsonl(fs, c, path)
    ensures EndsWith(path, ".parquet") ==> r == Ok(ReadParquet(fs, c, path, opts.ignore))
    ensures EndsWith(path, ".csv") ==> r == ReadCsv(fs, c, path, opts.csvFormat, opts.skipHeader)
    ensures EndsWith(path, ".txt") ==> r == ReadTxt(fs, path, opts.asLines)
  {
    FormatsBySuffix(path);
    ReadAs(fs, c, path, opts, FormatOf(path))
  }

  /** The writer for a format, or `ValueError` naming the path, with
      nothing written, when there is none. */
  function WriteAs(fs: FileSystem, c: Codecs, data: Value, path: string, opts: WriteOptions, f: Option<Format>): (w: Written)
    ensures SameElsewhere(fs, w.fs, path)
    ensures f.None? ==> w == Written(fs, Some(UnsupportedFileFormat(path)))
    ensures w.error == Some(UnsupportedFileFormat(path)) <==> f.None?
    ensures f == Some(Json) ==> w == WriteJson(fs, c, path, data)
    ensures f == Some(Jsonl) ==> w == WriteJsonl(fs, c, path, data)
    ensures f == Some(Parquet) ==> w == WriteParquet(fs, c, path, data)
    ensures f == Some(Csv) ==> w == WriteCsv(fs, c, path, data, opts.append, opts.header)
    ensures f == Some(Txt) ==> w == WriteTxt(fs, path, data, opts.append)
  {
    match f
    case None => Written(fs, Some(UnsupportedFileFormat(path)))
    case Some(Json) => WriteJson(fs, c, path, data)
    case Some(Jsonl) => WriteJsonl(fs, c, path, data)
    case Some(Parquet) => WriteParquet(fs, c, path, data)
    case Some(Csv) => WriteCsv(fs, c, path, data, opts.append, opts.header)
    case Some(Txt) => WriteTxt(fs, path, data, opts.append)
  }

  /** `write_file`: the writer the suffix names, or `ValueError` naming the
      path, with nothing written. */
  function WriteFile(fs: FileSystem, c: Codecs, data: Value, path: string, opts: WriteOptions): (w: Written)
    ensures SameElsewhere(fs, w.fs, path)
    ensures FormatOf(path).None? ==> w == Written(fs, Some(UnsupportedFileFormat(path)))
    ensures w.error == Some(UnsupportedFileFormat(path)) <==> FormatOf(path).None?
    ensures EndsWith(path, ".json") ==> w == WriteJson(fs, c, path, data)
    ensures EndsWith(path, ".jsonl") ==> w == WriteJsonl(fs, c, path, data)
    ensures EndsWith(path, ".parquet") ==> w == WriteParquet(fs, c, path, data)
    ensures EndsWith(path, ".csv") ==> w == WriteCsv(fs, c, path, data, opts.append, opts.header)
    ensures EndsWith(path, ".txt") ==> w == WriteTxt(fs, path, data, opts.append)
  {
    FormatsBySuffix(path);
    WriteAs(fs, c, data, path, opts, FormatOf(path))
  }

  /** `read_file` and `write_file` agree: each rejects a path exactly when
      the other does, and exactly when no supported suffix ends it. */
  lemma DispatchAgrees(fs: FileSystem, c: Codecs, path: string, data: Value, ro: ReadOptions, wo: WriteOptions)
    ensures ReadFile(fs, c, path, ro) == Err(UnsupportedFileFormat(path))
            <==> WriteFile(fs, c, data, path, wo).error == Some(UnsupportedFileFormat(path))
    ensures WriteFile(fs, c, data, path, wo).error == Some(UnsupportedFileFormat(path))
            <==> forall f :: !EndsWith(path, Suffix(f))
  {
    forall f
      ensures FormatOf(path) == Some(f) <==> EndsWith(path, Suffix(f))
    {
      FormatOfBySuffix(path, f);
    }
  }
}
