/**
 * The append-only CSV store (brightmls.py `save_data_to_csv`).  The file is
 * `None` while it does not exist, otherwise the lines written to it so far:
 * a header line of column names or a data line of field values.  Quoting and
 * encoding by the `csv` module are below this level of detail.
 */
module CsvSink {
  import opened Wrappers
  import opened Records

  datatype Line = HeaderLine(names: seq<string>) | DataLine(fields: seq<string>)

  /** What opening the file for append gives. */
  datatype Access = Writable | PermissionDenied | OpenFailed

  const TIMESTAMP_COLUMN := "Timestamp"

  /** `row['Timestamp'] = timestamp` for every row. */
  function Stamp(data: seq<Record>, ts: string): (stamped: seq<Record>)
    ensures |stamped| == |data|
  {
    seq(|data|, i requires 0 <= i < |data| => Put(data[i], TIMESTAMP_COLUMN, ts))
  }

  /**
   * Every stamped row has `Timestamp` set to `ts`, keeps the value under
   * every other key, and gains the `Timestamp` column at the end if it had none.
   */
  lemma StampFacts(data: seq<Record>, ts: string)
    ensures forall i | 0 <= i < |data| :: Get(Stamp(data, ts)[i], TIMESTAMP_COLUMN) == Some(ts)
    ensures forall i, k | 0 <= i < |data| && k != TIMESTAMP_COLUMN :: Get(Stamp(data, ts)[i], k) == Get(data[i], k)
    ensures forall i | 0 <= i < |data| :: Keys(Stamp(data, ts)[i]) == (if TIMESTAMP_COLUMN in Keys(data[i]) then Keys(data[i]) else Keys(data[i]) + [TIMESTAMP_COLUMN])
  {
    forall i | 0 <= i < |data|
      ensures Stamp(data, ts)[i] == Put(data[i], TIMESTAMP_COLUMN, ts)
    {
    }
  }

  /** `DictWriter` with the default `extrasaction='raise'` accepts a row iff all its keys are columns. */
  predicate Fits(row: Record, names: seq<string>)
  {
    forall k | k in Keys(row) :: k in names
  }

  /** The line `DictWriter` writes for an accepted row: one field per column, `""` when missing. */
  function RowLine(row: Record, names: seq<string>): (line: Line)
    ensures line.DataLine? && |line.fields| == |names|
  {
    DataLine(seq(|names|, j requires 0 <= j < |names| => GetOr(row, names[j], "")))
  }

  /**
   * A reader of the written line loses nothing: every key of an accepted,
   * well-formed row has a column whose field is that key's value, and every
   * column the row has no key for is written as `""`.
   */
  lemma RowLineKeepsValues(row: Record, names: seq<string>)
    requires Valid(row) && Fits(row, names)
    ensures forall k | k in Keys(row) :: exists j | 0 <= j < |names| :: names[j] == k && RowLine(row, names).fields[j] == row.values[k]
    ensures forall j | 0 <= j < |names| && names[j] !in Keys(row) :: RowLine(row, names).fields[j] == ""
  {
    forall k | k in Keys(row)
      ensures exists j | 0 <= j < |names| :: names[j] == k && RowLine(row, names).fields[j] == row.values[k]
    {
      var j :| 0 <= j < |names| && names[j] == k;
      assert RowLine(row, names).fields[j] == row.values[k];
    }
  }

  function RowLines(rows: seq<Record>, names: seq<string>): (lines: seq<Line>)
    ensures |lines| == |rows|
  {
    seq(|rows|, i requires 0 <= i < |rows| => RowLine(rows[i], names))
  }

  /** How many rows `writerows` writes before the first one it rejects with a `ValueError`. */
  function FitCount(rows: seq<Record>, names: seq<string>): (n: nat)
    ensures n <= |rows|
    ensures forall i | 0 <= i < n :: Fits(rows[i], names)
    ensures n < |rows| ==> !Fits(rows[n], names)
  {
    if |rows| == 0 || !Fits(rows[0], names) then 0
    else 1 + FitCount(rows[1..], names)
  }

  function Contents(file: Option<seq<Line>>): seq<Line>
  {
    match file
    case None => []
    case Some(lines) => lines
  }

  /** The new file, the stamped rows and the returned flag of one save. */
  datatype Saved = Saved(file: Option<seq<Line>>, stamped: seq<Record>, ok: bool)

  /** `save_data_to_csv(data, timestamp)` on the store `file` when opening it gives `access`. */
  function SaveSpec(file: Option<seq<Line>>, data: seq<Record>, ts: string, access: Access): Saved
  {
    if |data| == 0 then Saved(file, data, false)
    else
      var stamped := Stamp(data, ts);
      if access != Writable then Saved(file, stamped, false)
      else
        var names := Keys(stamped[0]);
        var header := if file.None? then [HeaderLine(names)] else [];
        var n := FitCount(stamped, names);
        Saved(Some(Contents(file) + header + RowLines(stamped[..n], names)), stamped, n == |stamped|)
  }

  /** Only the first line of a file may be a header. */
  predicate HeaderFirst(file: Option<seq<Line>>)
  {
    file.Some? ==> forall i | 0 < i < |file.value| :: file.value[i].DataLine?
  }

  /** The stamping loop of lines 82-83. */
  method StampRows(data: seq<Record>, ts: string) returns (stamped: seq<Record>)
    ensures stamped == Stamp(data, ts)
  {
    stamped := [];
    for i := 0 to |data|
      invariant |stamped| == i
      invariant forall j | 0 <= j < i :: stamped[j] == Put(data[j], TIMESTAMP_COLUMN, ts)
    {
      stamped := stamped + [Put(data[i], TIMESTAMP_COLUMN, ts)];
    }
  }

  class CsvStore {
    var file: Option<seq<Line>>

    constructor(initial: Option<seq<Line>>)
      ensures file == initial
    {
      file := initial;
    }

    /**
     * Lines 77-99.  The rows are stamped first (the source stamps its
     * dictionaries in place; here the stamped rows are returned), then the
     * header is written if the file did not exist, then the rows one by one
     * until the first that does not fit the columns.
     */
    method SaveDataToCsv(data: seq<Record>, ts: string, access: Access) returns (ok: bool, stamped: seq<Record>)
      modifies this
      ensures Saved(file, stamped, ok) == SaveSpec(old(file), data, ts, access)
    {
      if |data| == 0 {
        return false, data;
      }
      stamped := StampRows(data, ts);
      var writeHeader := file.None?;
      if access != Writable {
        return false, stamped;
      }
      var names := Keys(stamped[0]);
      if writeHeader {
        file := Some([HeaderLine(names)]);
      }
      ghost var before := file;
      var n := WriteRows(stamped, names);
      ok := n == |stamped|;
      ghost var header := if writeHeader then [HeaderLine(names)] else [];
      assert Contents(before) == Contents(old(file)) + header;
      assert file.value == Contents(old(file)) + header + RowLines(stamped[..n], names);
    }

    /** `writer.writerows(rows)`: append rows until the first one that does not fit. */
    method WriteRows(rows: seq<Record>, names: seq<string>) returns (n: nat)
      modifies this
      ensures n == FitCount(rows, names)
      ensures file == Some(Contents(old(file)) + RowLines(rows[..n], names))
    {
      var start := Contents(file);
      file := Some(start);
      n := 0;
      assert start + RowLines(rows[..n], names) == start;
      while n < |rows| && Fits(rows[n], names)
        invariant n <= FitCount(rows, names)
        invariant file == Some(start + RowLines(rows[..n], names))
      {
        assert RowLines(rows[..n + 1], names) == RowLines(rows[..n], names) + [RowLine(rows[n], names)];
        assert start + RowLines(rows[..n + 1], names) == file.value + [RowLine(rows[n], names)];
        file := Some(file.value + [RowLine(rows[n], names)]);
        n := n + 1;
      }
    }
  }

  /**
   * An empty batch changes nothing and returns False; otherwise every row is
   * stamped whatever happens next.  The save succeeds iff the file opens and
   * every row fits the first row's columns; a failed open leaves the file as
   * it was, and an existing file is only appended to.
   */
  lemma SaveOutcome(file: Option<seq<Line>>, data: seq<Record>, ts: string, access: Access)
    ensures var r := SaveSpec(file, data, ts, access);
      && (|data| == 0 ==> r == Saved(file, data, false))
      && (|data| > 0 ==> r.stamped == Stamp(data, ts))
      && (r.ok <==> |data| > 0 && access == Writable && forall i | 0 <= i < |data| :: Fits(r.stamped[i], Keys(r.stamped[0])))
      && (access != Writable ==> r.file == file)
      && (file.Some? ==> r.file.Some? && file.value <= r.file.value)
  {
    var r := SaveSpec(file, data, ts, access);
    if |data| > 0 && access == Writable {
      var stamped := Stamp(data, ts);
      var names := Keys(stamped[0]);
      var n := FitCount(stamped, names);
      var header := if file.None? then [HeaderLine(names)] else [];
      assert r.file.value == Contents(file) + header + RowLines(stamped[..n], names);
      if n < |stamped| {
        assert !Fits(r.stamped[n], Keys(r.stamped[0]));
      }
    }
  }

  /** Saving keeps the one-header discipline. */
  lemma SavePreservesHeaderFirst(file: Option<seq<Line>>, data: seq<Record>, ts: string, access: Access)
    requires HeaderFirst(file)
    ensures HeaderFirst(SaveSpec(file, data, ts, access).file)
  {
    var r := SaveSpec(file, data, ts, access);
    if |data| > 0 && access == Writable {
      var stamped := Stamp(data, ts);
      var names := Keys(stamped[0]);
      var rows := RowLines(stamped[..FitCount(stamped, names)], names);
      var header := if file.None? then [HeaderLine(names)] else [];
      assert r.file.value == Contents(file) + header + rows;
      forall i | 0 < i < |r.file.value| ensures r.file.value[i].DataLine? {
        if i >= |Contents(file) + header| {
          assert r.file.value[i] == rows[i - |Contents(file) + header|];
        }
      }
    }
  }

  /**
   * A header is added iff the file did not exist and a non-empty batch could
   * be opened for writing; it then names the first stamped row's keys.
   */
  lemma SaveHeader(file: Option<seq<Line>>, data: seq<Record>, ts: string, access: Access)
    ensures var r := SaveSpec(file, data, ts, access);
      (file.None? && r.file.Some?) <==> (file.None? && |data| > 0 && access == Writable)
    ensures var r := SaveSpec(file, data, ts, access);
      file.None? && r.file.Some? ==>
        |r.file.value| >= 1 && r.file.value[0] == HeaderLine(Keys(Stamp(data, ts)[0]))
    ensures var r := SaveSpec(file, data, ts, access);
      file.Some? ==> forall i | |file.value| <= i < |r.file.value| :: r.file.value[i].DataLine?
  {
    var r := SaveSpec(file, data, ts, access);
    if file.Some? && |data| > 0 && access == Writable {
      var stamped := Stamp(data, ts);
      var names := Keys(stamped[0]);
      var rows := RowLines(stamped[..FitCount(stamped, names)], names);
      assert r.file.value == file.value + [] + rows;
      forall i | |file.value| <= i < |r.file.value| ensures r.file.value[i].DataLine? {
        assert r.file.value[i] == rows[i - |file.value|];
      }
    }
  }

  /**
   * The lines appended for a batch are, in order, the rows before the first
   * row with a key outside the first row's keys; each holds that row's value
   * under every column.
   */
  lemma SaveAppendsRows(file: Option<seq<Line>>, data: seq<Record>, ts: string)
    requires |data| > 0
    ensures var r := SaveSpec(file, data, ts, Writable);
      var stamped := Stamp(data, ts);
      var names := Keys(stamped[0]);
      var start := |Contents(file)| + (if file.None? then 1 else 0);
      var n := FitCount(stamped, names);
      && |r.file.value| == start + n
      && forall i | 0 <= i < n :: r.file.value[start + i] == RowLine(stamped[i], names)
  {
    var names := Keys(Stamp(data, ts)[0]);
    SavedLines(file, data, ts);
    LinesAfter(SaveSpec(file, data, ts, Writable).file.value,
      Contents(file) + (if file.None? then [HeaderLine(names)] else []),
      |Contents(file)| + (if file.None? then 1 else 0),
      Stamp(data, ts), names, FitCount(Stamp(data, ts), names));
  }

  /** The file after a writable save of a non-empty batch: old lines, a header if new, the fitting rows. */
  lemma SavedLines(file: Option<seq<Line>>, data: seq<Record>, ts: string)
    requires |data| > 0
    ensures var stamped := Stamp(data, ts);
      var names := Keys(stamped[0]);
      SaveSpec(file, data, ts, Writable).file.value
        == Contents(file) + (if file.None? then [HeaderLine(names)] else []) + RowLines(stamped[..FitCount(stamped, names)], names)
  {
  }

  /** The lines of the first `n` rows, placed after `pre`, sit at `|pre|` onwards. */
  lemma LinesAfter(lines: seq<Line>, pre: seq<Line>, start: nat, rows: seq<Record>, names: seq<string>, n: nat)
    requires n <= |rows| && start == |pre| && lines == pre + RowLines(rows[..n], names)
    ensures |lines| == start + n
    ensures forall i | 0 <= i < n :: lines[start + i] == RowLine(rows[i], names)
  {
    var added := RowLines(rows[..n], names);
    forall i | 0 <= i < n ensures lines[start + i] == RowLine(rows[i], names) {
      assert lines[|pre| + i] == added[i];
      assert added[i] == RowLine(rows[..n][i], names);
    }
  }

  /** The header of a new file ends with the `Timestamp` column unless the first row already had one. */
  lemma HeaderEndsWithTimestamp(data: seq<Record>, ts: string)
    requires |data| > 0 && TIMESTAMP_COLUMN !in Keys(data[0])
    ensures var r := SaveSpec(None, data, ts, Writable);
      r.file.value[0] == HeaderLine(Keys(data[0]) + [TIMESTAMP_COLUMN])
  {
  }

  /** Every written data line carries the batch timestamp in the `Timestamp` column. */
  lemma WrittenLinesCarryTimestamp(data: seq<Record>, ts: string, i: nat)
    requires |data| > 0 && i < FitCount(Stamp(data, ts), Keys(Stamp(data, ts)[0]))
    ensures var names := Keys(Stamp(data, ts)[0]);
      exists j | 0 <= j < |names| :: names[j] == TIMESTAMP_COLUMN &&
        RowLine(Stamp(data, ts)[i], names).fields[j] == ts
  {
    var stamped := Stamp(data, ts);
    var names := Keys(stamped[0]);
    assert TIMESTAMP_COLUMN in Keys(stamped[0]);
    var j :| 0 <= j < |names| && names[j] == TIMESTAMP_COLUMN;
    assert GetOr(stamped[i], TIMESTAMP_COLUMN, "") == ts;
  }

  /** A second row with a column the first row lacks stops the write after the first row. */
  lemma LongerSecondRowRejected(file: Option<seq<Line>>, a: Record, b: Record, ts: string, extra: string)
    requires extra != TIMESTAMP_COLUMN && extra !in Keys(a) && extra in Keys(b)
    ensures var r := SaveSpec(file, [a, b], ts, Writable);
      !r.ok && |r.file.value| == |Contents(file)| + (if file.None? then 1 else 0) + 1
  {
    var stamped := Stamp([a, b], ts);
    var names := Keys(stamped[0]);
    assert extra !in names;
    assert extra in Keys(stamped[1]);
    assert !Fits(stamped[1], names);
    assert FitCount(stamped, names) == 1 by {
      assert Fits(stamped[0], names);
    }
  }
}
