/** `NetworkStatsWriter`: flattens the network statistics the Daily SDK
    reports into a 14-column CSV row, appends it as one line to the file of
    the day, and rotates to a new file, with a header, when the date
    changes. The filesystem is a map from path to the lines written to the
    file, in order; the clock is given as the date and the two timestamp
    renderings of each call. */
module NetworkStatsWriter {
  import opened Common

  /** A value in the reported statistics: `None`, a scalar shown by its
      `str()` text, or a mapping with its entries and its `str()` text. */
  datatype Value =
    | Null
    | Scalar(text: string)
    | Mapping(entries: map<string, Value>, text: string)

  /** `str(value)` */
  function Str(v: Value): string
  {
    match v
    case Null => "None"
    case Scalar(t) => t
    case Mapping(_, t) => t
  }

  /** The `{}` default of `dict.get`. */
  const EMPTY: Value := Mapping(map[], "{}")

  /** `m.get(k, default)` */
  function GetOr(m: map<string, Value>, k: string, default: Value): (v: Value)
    ensures k in m ==> v == m[k]
    ensures k !in m ==> v == default
  {
    if k in m then m[k] else default
  }

  /** `m.get(k)` */
  function Get(m: map<string, Value>, k: string): Value
  {
    GetOr(m, k, Null)
  }

  /** The column names, in order. */
  const HEADERS: seq<string> := [
    "timestamp", "timestamp_iso",
    "recv_bits_per_second", "send_bits_per_second",
    "video_recv_bits_per_second", "video_send_bits_per_second",
    "total_recv_packet_loss", "total_send_packet_loss",
    "video_recv_packet_loss", "video_send_packet_loss",
    "worst_video_recv_packet_loss", "worst_video_send_packet_loss",
    "quality", "threshold"]

  /** The columns of a row. The source keys the row's dictionary by the
      column names; here a row is keyed by the column, whose `Name` is that
      name. */
  datatype Column =
    | Timestamp | TimestampIso
    | RecvBitsPerSecond | SendBitsPerSecond
    | VideoRecvBitsPerSecond | VideoSendBitsPerSecond
    | TotalRecvPacketLoss | TotalSendPacketLoss
    | VideoRecvPacketLoss | VideoSendPacketLoss
    | WorstVideoRecvPacketLoss | WorstVideoSendPacketLoss
    | Quality | Threshold

  /** The columns in `HEADERS` order. */
  const COLUMNS: seq<Column> := [
    Timestamp, TimestampIso,
    RecvBitsPerSecond, SendBitsPerSecond,
    VideoRecvBitsPerSecond, VideoSendBitsPerSecond,
    TotalRecvPacketLoss, TotalSendPacketLoss,
    VideoRecvPacketLoss, VideoSendPacketLoss,
    WorstVideoRecvPacketLoss, WorstVideoSendPacketLoss,
    Quality, Threshold]

  function Name(c: Column): string
  {
    match c
    case Timestamp => "timestamp"
    case TimestampIso => "timestamp_iso"
    case RecvBitsPerSecond => "recv_bits_per_second"
    case SendBitsPerSecond => "send_bits_per_second"
    case VideoRecvBitsPerSecond => "video_recv_bits_per_second"
    case VideoSendBitsPerSecond => "video_send_bits_per_second"
    case TotalRecvPacketLoss => "total_recv_packet_loss"
    case TotalSendPacketLoss => "total_send_packet_loss"
    case VideoRecvPacketLoss => "video_recv_packet_loss"
    case VideoSendPacketLoss => "video_send_packet_loss"
    case WorstVideoRecvPacketLoss => "worst_video_recv_packet_loss"
    case WorstVideoSendPacketLoss => "worst_video_send_packet_loss"
    case Quality => "quality"
    case Threshold => "threshold"
  }

  /** Every column appears once in `COLUMNS`, at the place of its name in
      `HEADERS`. */
  lemma ColumnsMatchHeaders()
    ensures |COLUMNS| == |HEADERS| == 14
    ensures forall i :: 0 <= i < 14 ==> Name(COLUMNS[i]) == HEADERS[i]
  {
  }

  lemma ColumnsDistinct()
    ensures forall i, j :: 0 <= i < j < |COLUMNS| ==> COLUMNS[i] != COLUMNS[j]
  {
  }

  lemma ColumnListed(c: Column)
    ensures c in COLUMNS
  {
  }

  /** A row of the CSV file. */
  type Row = map<Column, Value>

  /** Where each column's value comes from: the clock, `stats.latest`
      (`l`), `stats.stats` (`d`) or `stats` itself; a missing key reads
      as `None`. */
  function ColumnValue(c: Column, stats: map<string, Value>, d: map<string, Value>,
                       l: map<string, Value>, stamp: string, iso: string): Value
  {
    match c
    case Timestamp => Scalar(stamp)
    case TimestampIso => Scalar(iso)
    case RecvBitsPerSecond => Get(l, "receiveBitsPerSecond")
    case SendBitsPerSecond => Get(l, "sendBitsPerSecond")
    case VideoRecvBitsPerSecond => Get(l, "videoRecvBitsPerSecond")
    case VideoSendBitsPerSecond => Get(l, "videoSendBitsPerSecond")
    case TotalRecvPacketLoss => Get(l, "totalRecvPacketLoss")
    case TotalSendPacketLoss => Get(l, "totalSendPacketLoss")
    case VideoRecvPacketLoss => Get(l, "videoRecvPacketLoss")
    case VideoSendPacketLoss => Get(l, "videoSendPacketLoss")
    case WorstVideoRecvPacketLoss => Get(d, "worstVideoReceivePacketLoss")
    case WorstVideoSendPacketLoss => Get(d, "worstVideoSendPacketLoss")
    case Quality => Get(stats, "quality")
    case Threshold => Get(stats, "threshold")
  }

  /** `_extract_stats_from_daily_format`. `stats.get("stats", {})` and its
      `.get("latest", {})` raise `AttributeError` when the value found is
      not a mapping; that is the `Err` case. `stamp` and `iso` are the
      renderings of the call's `datetime.now()`. */
  function Extract(stats: map<string, Value>, stamp: string, iso: string): Result<Row, string>
  {
    var detailed := GetOr(stats, "stats", EMPTY);
    if !detailed.Mapping? then Err("AttributeError")
    else
      var latest := GetOr(detailed.entries, "latest", EMPTY);
      if !latest.Mapping? then Err("AttributeError")
      else
        Ok(map c: Column :: ColumnValue(c, stats, detailed.entries, latest.entries, stamp, iso))
  }

  /** The row has every column. */
  lemma ExtractKeys(stats: map<string, Value>, stamp: string, iso: string)
    ensures Extract(stats, stamp, iso).Ok? ==>
      forall c: Column :: c in Extract(stats, stamp, iso).value
  {
  }

  /** Extraction fails exactly when `stats` or `stats.latest` is present
      but not a mapping; a missing one reads as `{}`, so every nested
      column is then `None`. */
  lemma ExtractFails(stats: map<string, Value>, stamp: string, iso: string)
    ensures Extract(stats, stamp, iso).Err? <==>
      ("stats" in stats && !stats["stats"].Mapping?)
      || ("stats" in stats && stats["stats"].Mapping? && "latest" in stats["stats"].entries
          && !stats["stats"].entries["latest"].Mapping?)
    ensures "stats" !in stats ==>
      Extract(stats, stamp, iso).Ok? &&
      forall c: Column :: !(c.Timestamp? || c.TimestampIso? || c.Quality? || c.Threshold?) ==>
        Extract(stats, stamp, iso).value[c] == Null
  {
  }

  /** The clock columns and the top-level columns. */
  lemma ExtractOuterSources(stats: map<string, Value>, stamp: string, iso: string)
    requires Extract(stats, stamp, iso).Ok?
    ensures var row := Extract(stats, stamp, iso).value;
      && row[Timestamp] == Scalar(stamp) && row[TimestampIso] == Scalar(iso)
      && row[Quality] == Get(stats, "quality")
      && row[Threshold] == Get(stats, "threshold")
  {
  }

  /** The latest statistics, `stats.get("stats", {}).get("latest", {})`. */
  function Latest(stats: map<string, Value>): map<string, Value>
  {
    var detailed := GetOr(stats, "stats", EMPTY);
    var latest := if detailed.Mapping? then GetOr(detailed.entries, "latest", EMPTY) else EMPTY;
    if latest.Mapping? then latest.entries else map[]
  }

  /** The bitrate columns come from `stats.latest`. */
  lemma ExtractBitrateSources(stats: map<string, Value>, stamp: string, iso: string)
    requires Extract(stats, stamp, iso).Ok?
    ensures var row, l := Extract(stats, stamp, iso).value, Latest(stats);
      && row[RecvBitsPerSecond] == Get(l, "receiveBitsPerSecond")
      && row[SendBitsPerSecond] == Get(l, "sendBitsPerSecond")
      && row[VideoRecvBitsPerSecond] == Get(l, "videoRecvBitsPerSecond")
      && row[VideoSendBitsPerSecond] == Get(l, "videoSendBitsPerSecond")
  {
  }

  /** The packet-loss columns come from `stats.latest`. */
  lemma ExtractPacketLossSources(stats: map<string, Value>, stamp: string, iso: string)
    requires Extract(stats, stamp, iso).Ok?
    ensures var row, l := Extract(stats, stamp, iso).value, Latest(stats);
      && row[TotalRecvPacketLoss] == Get(l, "totalRecvPacketLoss")
      && row[TotalSendPacketLoss] == Get(l, "totalSendPacketLoss")
      && row[VideoRecvPacketLoss] == Get(l, "videoRecvPacketLoss")
      && row[VideoSendPacketLoss] == Get(l, "videoSendPacketLoss")
  {
  }

  /** The worst-case columns come from `stats`. */
  lemma ExtractDetailedSources(stats: map<string, Value>, stamp: string, iso: string)
    requires Extract(stats, stamp, iso).Ok?
    ensures var row, d := Extract(stats, stamp, iso).value, GetOr(stats, "stats", EMPTY).entries;
      && row[WorstVideoRecvPacketLoss] == Get(d, "worstVideoReceivePacketLoss")
      && row[WorstVideoSendPacketLoss] == Get(d, "worstVideoSendPacketLoss")
  {
  }

  /** `sep.join(parts)` for a one-character separator. */
  function Join(parts: seq<string>, sep: char): string
  {
    if parts == [] then []
    else if |parts| == 1 then parts[0]
    else parts[0] + [sep] + Join(parts[1..], sep)
  }

  /** `s.split(sep)` for a one-character separator: the pieces between the
      separators, always at least one. */
  function Split(s: string, sep: char): (r: seq<string>)
    ensures r != []
  {
    if s == [] then [[]]
    else if s[0] == sep then [[]] + Split(s[1..], sep)
    else
      var rest := Split(s[1..], sep);
      [[s[0]] + rest[0]] + rest[1..]
  }

  /** A character other than the separator starts the first field. */
  lemma SplitCons(c: char, s: string, sep: char)
    requires c != sep
    ensures Split([c] + s, sep) == [[c] + Split(s, sep)[0]] + Split(s, sep)[1..]
  {
    assert ([c] + s)[1..] == s;
  }

  lemma ConsParts(x: string, y: seq<string>)
    ensures ([x] + y)[0] == x && ([x] + y)[1..] == y
  {
  }

  /** A piece without the separator extends the first field. */
  lemma {:induction false} SplitPrefix(p: string, rest: string, sep: char)
    requires sep !in p
    ensures Split(p + rest, sep) == [p + Split(rest, sep)[0]] + Split(rest, sep)[1..]
  {
    var r := Split(rest, sep);
    if p == [] {
      assert p + rest == rest;
      assert p + r[0] == r[0];
    } else {
      SplitPrefix(p[1..], rest, sep);
      var q := Split(p[1..] + rest, sep);
      ConsParts(p[1..] + r[0], r[1..]);
      HeadConcat(p, rest);
      HeadConcat(p, r[0]);
      SplitCons(p[0], p[1..] + rest, sep);
    }
  }

  /** Splitting undoes joining when no part holds the separator. */
  lemma {:induction false} SplitJoin(parts: seq<string>, sep: char)
    requires parts != []
    requires forall i :: 0 <= i < |parts| ==> sep !in parts[i]
    ensures Split(Join(parts, sep), sep) == parts
  {
    if |parts| == 1 {
      SplitPrefix(parts[0], [], sep);
      assert parts[0] + [] == parts[0];
    } else {
      var tail := Join(parts[1..], sep);
      SplitJoin(parts[1..], sep);
      SplitPrefix(parts[0], [sep] + tail, sep);
      assert parts[0] + [sep] + tail == parts[0] + ([sep] + tail);
      assert ([sep] + tail)[0] == sep && ([sep] + tail)[1..] == tail;
      assert Split([sep] + tail, sep) == [[]] + parts[1..];
      assert parts[0] + [] == parts[0];
      assert parts == [parts[0]] + parts[1..];
    }
  }

  /** The fields of a data line, in `HEADERS` order; the `""` default of
      `row.get` applies to no column of an extracted row. */
  function Fields(row: Row): (r: seq<string>)
    ensures |r| == |COLUMNS|
  {
    seq(|COLUMNS|, i requires 0 <= i < |COLUMNS| => if COLUMNS[i] in row then Str(row[COLUMNS[i]]) else "")
  }

  /** A line of a CSV file: the header, or the fields of a data row. */
  datatype Line = Header | Row(fields: seq<string>)

  /** The text of a line: its fields joined with commas, then a newline. */
  function Text(l: Line): string
  {
    match l
    case Header => Join(HEADERS, ',') + "\n"
    case Row(fields) => Join(fields, ',') + "\n"
  }

  /** The line `write_stats` builds for an extracted row. */
  function DataLine(row: Row): Line
  {
    Row(Fields(row))
  }

  /** A line without its final newline. */
  function Body(line: string): string
  {
    if line == [] then [] else line[..|line| - 1]
  }

  /** A line built from parts without commas splits back into them. */
  lemma LineSplits(parts: seq<string>)
    requires parts != []
    requires forall i :: 0 <= i < |parts| ==> ',' !in parts[i]
    ensures Split(Body(Join(parts, ',') + "\n"), ',') == parts
  {
    var j := Join(parts, ',');
    assert Body(j + "\n") == j;
    SplitJoin(parts, ',');
  }

  /** No column name holds a comma (one column family at a time, to keep
      each proof small). */
  lemma HeadersHaveNoComma()
    ensures forall i :: 0 <= i < |HEADERS| ==> ',' !in HEADERS[i]
  {
    NoCommaInRates();
    NoCommaInLosses();
    NoCommaInWorst();
    assert forall i :: 0 <= i < 2 || 12 <= i < 14 ==> ',' !in HEADERS[i];
  }

  lemma NoCommaInRates()
    ensures forall i :: 2 <= i < 6 ==> ',' !in HEADERS[i]
  {
  }

  lemma NoCommaInLosses()
    ensures forall i :: 6 <= i < 10 ==> ',' !in HEADERS[i]
  {
  }

  lemma NoCommaInWorst()
    ensures forall i :: 10 <= i < 12 ==> ',' !in HEADERS[i]
  {
  }

  /** The header line splits back into the 14 column names. */
  lemma HeaderFields()
    ensures Split(Body(Text(Header)), ',') == HEADERS
    ensures |Split(Body(Text(Header)), ',')| == 14
  {
    HeadersHaveNoComma();
    LineSplits(HEADERS);
  }

  /** A data line splits back into the row's values in column order, as
      many fields as the header has, as long as no value's text holds a
      comma: values are written unquoted. A `None` value reads "None". */
  lemma DataLineFields(row: Row)
    requires forall c :: c in row ==> ',' !in Str(row[c])
    requires forall c: Column :: c in row
    ensures var fields := Split(Body(Text(DataLine(row))), ',');
      && |fields| == |Split(Body(Text(Header)), ',')| == 14
      && (forall i :: 0 <= i < 14 ==> fields[i] == Str(row[COLUMNS[i]]))
      && (forall i :: 0 <= i < 14 && row[COLUMNS[i]] == Null ==> fields[i] == "None")
  {
    var f := Fields(row);
    assert forall i :: 0 <= i < |f| ==> f[i] == Str(row[COLUMNS[i]]);
    LineSplits(f);
    HeaderFields();
  }

  /** `_get_file_path`: `output_dir / f"network_stats_{date}.csv"`. */
  function FilePath(outputDir: string, date: string): string
  {
    outputDir + "/network_stats_" + date + ".csv"
  }

  /** Distinct dates give distinct files. */
  lemma FilePathInjective(outputDir: string, d1: string, d2: string)
    requires FilePath(outputDir, d1) == FilePath(outputDir, d2)
    ensures d1 == d2
  {
    var pre := outputDir + "/network_stats_";
    assert FilePath(outputDir, d1) == pre + (d1 + ".csv");
    assert FilePath(outputDir, d2) == pre + (d2 + ".csv");
    assert (pre + (d1 + ".csv"))[|pre|..] == d1 + ".csv";
    assert (pre + (d2 + ".csv"))[|pre|..] == d2 + ".csv";
    assert d1 == (d1 + ".csv")[..|d1 + ".csv"| - 4];
    assert d2 == (d2 + ".csv")[..|d2 + ".csv"| - 4];
  }

  /** Each file as the lines written to it, in order; its text is their
      `Text`s one after the other. */
  type Files = map<string, seq<Line>>

  /** `_ensure_file_exists`: a missing file is created holding the header. */
  function EnsureFileExists(fs: Files, path: string): (r: Files)
    ensures path in r && r.Keys == fs.Keys + {path}
    ensures path in fs ==> r == fs
    ensures path !in fs ==> r[path] == [Header]
    ensures forall p :: p in fs ==> r[p] == fs[p]
  {
    if path in fs then fs else fs[path := [Header]]
  }

  /** Writing in append mode, which creates a missing file. */
  function Append(fs: Files, path: string, line: Line): (r: Files)
  {
    fs[path := (if path in fs then fs[path] else []) + [line]]
  }

  datatype WriterState = WriterState(currentDate: Option<string>, currentFilePath: Option<string>)

  /** The writer's fields agree: both unset, or the path is the file of
      the date. */
  predicate Consistent(outputDir: string, s: WriterState)
  {
    match s.currentDate
    case None => s.currentFilePath.None?
    case Some(d) => s.currentFilePath == Some(FilePath(outputDir, d))
  }

  datatype Outcome = Outcome(state: WriterState, fs: Files, headerWritten: bool)

  /** `write_stats` on the date `date`: rotate when the date differs, then
      append the row's line. A failed extraction is logged and swallowed,
      after the rotation took place; so is a write to no path. Every call
      returns normally. */
  function Write(outputDir: string, s: WriterState, fs: Files, stats: map<string, Value>,
                 date: string, stamp: string, iso: string): Outcome
  {
    var rotate := s.currentDate != Some(date);
    var s1 := if rotate then WriterState(Some(date), Some(FilePath(outputDir, date))) else s;
    var fs1 := if rotate then EnsureFileExists(fs, FilePath(outputDir, date)) else fs;
    var header := rotate && FilePath(outputDir, date) !in fs;
    match Extract(stats, stamp, iso)
    case Err(_) => Outcome(s1, fs1, header)
    case Ok(row) =>
      if s1.currentFilePath.None? then Outcome(s1, fs1, header)
      else Outcome(s1, Append(fs1, s1.currentFilePath.value, DataLine(row)), header)
  }

  /** After a call the writer is on the call's date and its file; the
      fields change exactly when the date differs. */
  lemma WriteRotation(outputDir: string, s: WriterState, fs: Files, stats: map<string, Value>,
                      date: string, stamp: string, iso: string)
    requires Consistent(outputDir, s)
    ensures var o := Write(outputDir, s, fs, stats, date, stamp, iso);
      && o.state.currentDate == Some(date)
      && o.state.currentFilePath == Some(FilePath(outputDir, date))
      && Consistent(outputDir, o.state)
      && (o.state != s <==> s.currentDate != Some(date))
  {
  }

  /** A call changes the file of its date and no other, never removes a
      file, writes the header only into a file that did not exist, and
      otherwise appends the data line (when extraction succeeded) to what
      was there. */
  lemma WriteFiles(outputDir: string, s: WriterState, fs: Files, stats: map<string, Value>,
                   date: string, stamp: string, iso: string)
    requires Consistent(outputDir, s)
    ensures var o, p := Write(outputDir, s, fs, stats, date, stamp, iso), FilePath(outputDir, date);
      var ex := Extract(stats, stamp, iso);
      && fs.Keys <= o.fs.Keys
      && (forall q :: q != p ==> (q in o.fs <==> q in fs) && (q in fs ==> o.fs[q] == fs[q]))
      && (o.headerWritten <==> s.currentDate != Some(date) && p !in fs)
      && (ex.Ok? || o.headerWritten ==> p in o.fs)
      && (p in o.fs ==>
            o.fs[p] == (if o.headerWritten then [Header] else if p in fs then fs[p] else [])
                       + (if ex.Ok? then [DataLine(ex.value)] else []))
  {
  }

  /** One `write_stats` call: the statistics and what the clock says. */
  datatype Call = Call(stats: map<string, Value>, date: string, stamp: string, iso: string)

  datatype Trace = Trace(state: WriterState, fs: Files, headers: seq<string>)

  /** A sequence of calls, with the paths that received a header, in
      order. */
  function Run(outputDir: string, s: WriterState, fs: Files, calls: seq<Call>): Trace
  {
    if calls == [] then Trace(s, fs, [])
    else
      var t := Run(outputDir, s, fs, calls[..|calls| - 1]);
      var c := calls[|calls| - 1];
      var o := Write(outputDir, t.state, t.fs, c.stats, c.date, c.stamp, c.iso);
      Trace(o.state, o.fs, t.headers + if o.headerWritten then [FilePath(outputDir, c.date)] else [])
  }

  /** Over any sequence of calls every file receives the header at most
      once, only when it did not exist beforehand, and keeps existing. */
  lemma {:induction false} HeaderOncePerFile(outputDir: string, s: WriterState, fs: Files, calls: seq<Call>)
    ensures var t := Run(outputDir, s, fs, calls);
      && fs.Keys <= t.fs.Keys
      && (forall i :: 0 <= i < |t.headers| ==> t.headers[i] !in fs && t.headers[i] in t.fs)
      && (forall i, j :: 0 <= i < j < |t.headers| ==> t.headers[i] != t.headers[j])
  {
    if calls != [] {
      var prev := calls[..|calls| - 1];
      var t := Run(outputDir, s, fs, prev);
      var c := calls[|calls| - 1];
      HeaderOncePerFile(outputDir, s, fs, prev);
      var o := Write(outputDir, t.state, t.fs, c.stats, c.date, c.stamp, c.iso);
      assert t.fs.Keys <= o.fs.Keys;
      assert o.headerWritten ==> FilePath(outputDir, c.date) !in t.fs && FilePath(outputDir, c.date) in o.fs;
    }
  }

  /** `NetworkStatsWriter`. */
  class Writer {
    const outputDir: string
    var currentDate: Option<string>
    var currentFilePath: Option<string>

    function State(): WriterState
      reads this
    {
      WriterState(currentDate, currentFilePath)
    }

    constructor (outputDir: string)
      ensures this.outputDir == outputDir && currentDate.None? && currentFilePath.None?
      ensures Consistent(outputDir, State())
    {
      this.outputDir := outputDir;
      currentDate := None;
      currentFilePath := None;
    }

    /** `write_stats`, given the files before the call, the statistics and
        the clock's readings; returns the files after it. */
    method WriteStats(fs: Files, stats: map<string, Value>, date: string, stamp: string, iso: string)
      returns (files: Files)
      modifies this
      ensures var o := Write(outputDir, old(State()), fs, stats, date, stamp, iso);
        State() == o.state && files == o.fs
    {
      files := fs;
      if currentDate != Some(date) {
        currentDate := Some(date);
        currentFilePath := Some(FilePath(outputDir, date));
        files := EnsureFileExists(files, currentFilePath.value);
      }
      var row := Extract(stats, stamp, iso);
      if row.Err? {
        return;
      }
      if currentFilePath.None? {
        return;
      }
      var path := currentFilePath.value;
      files := Append(files, path, DataLine(row.value));
    }
  }
}
