/**
 * The CSV file `append_csv` of src/pingwatch/monitor.py writes: a header
 * row written when the file is created, then one row per probe result,
 * `timestamp, target, reachable, latency_ms`.
 *
 * A row is a sequence of typed cells rather than text: the timestamp is an
 * instant, `int(reachable)` an integer, the latency a number or the empty
 * string. How csv.writer renders and quotes the cells is not modelled.
 */
module Store {
  import opened Wrappers
  import opened Round

  /** A UTC timestamp read from the clock; only equality of timestamps is
      used, so what it counts is not modelled. */
  datatype Instant = Instant(micros: int)

  /** One cell of a CSV row. */
  datatype Cell = Str(text: string) | Int(n: int) | Number(x: real) | Time(t: Instant)

  datatype Row = Row(cells: seq<Cell>)

  const Header: Row := Row([Str("timestamp"), Str("target"), Str("reachable"), Str("latency_ms")])

  /** The row written for `r` in the round stamped `ts`. */
  function EncodeRow(ts: Instant, r: ProbeResult): (row: Row)
  {
    Row([Time(ts), Str(r.target), Int(if r.reachable then 1 else 0),
         match r.latency
         case Some(ms) => Number(ms)
         case None => Str("")])
  }

  /** Reading a data row back: the inverse of EncodeRow, None for anything
      that is not a data row (the header among them). */
  function DecodeRow(row: Row): (d: Option<(Instant, ProbeResult)>)
    ensures d.Some? ==> |row.cells| == 4 && row.cells[0].Time? && row.cells[1].Str?
  {
    var c := row.cells;
    if |c| == 4 && c[0].Time? && c[1].Str? && c[2].Int? && 0 <= c[2].n <= 1
       && (c[3].Number? || c[3] == Str(""))
    then
      var latency := if c[3].Number? then Some(c[3].x) else None;
      Some((c[0].t, ProbeResult(c[1].text, c[2].n == 1, latency)))
    else None
  }

  /** Every row written can be read back as the result it was written for. */
  lemma DecodeEncode(ts: Instant, r: ProbeResult)
    ensures DecodeRow(EncodeRow(ts, r)) == Some((ts, r))
  {
  }

  /** Every readable row is the row written for what it reads as. */
  lemma EncodeDecode(row: Row)
    requires DecodeRow(row).Some?
    ensures EncodeRow(DecodeRow(row).value.0, DecodeRow(row).value.1) == row
  {
    var d := DecodeRow(row).value;
    var e := EncodeRow(d.0, d.1);
    assert e.cells[2] == row.cells[2];
    assert e.cells[3] == row.cells[3];
  }

  /** The header is never a data row. */
  lemma HeaderIsNotData()
    ensures DecodeRow(Header).None?
  {
  }

  /** The rows written for one round, in result order. */
  function RoundRows(ts: Instant, results: seq<ProbeResult>): (rows: seq<Row>)
    ensures |rows| == |results|
  {
    if results == [] then []
    else
      var n := |results| - 1;
      RoundRows(ts, results[..n]) + [EncodeRow(ts, results[n])]
  }

  /** The k-th row of a round is the k-th result, stamped with the round's
      timestamp. */
  lemma {:induction false} RoundRowsAt(ts: Instant, results: seq<ProbeResult>, k: nat)
    requires k < |results|
    ensures RoundRows(ts, results)[k] == EncodeRow(ts, results[k])
  {
    var n := |results| - 1;
    if k < n {
      RoundRowsAt(ts, results[..n], k);
    }
  }

  /** The file before the rows of a round are appended: as it is when it
      exists, and just the header when `append_csv` creates it. */
  function Existing(file: Option<seq<Row>>): seq<Row>
  {
    match file
    case Some(rows) => rows
    case None => [Header]
  }

  /** Rows that are all data rows. */
  predicate AllData(rows: seq<Row>) {
    forall k :: 0 <= k < |rows| ==> DecodeRow(rows[k]).Some?
  }

  /** A file the monitor wrote: the header first, data rows after it. */
  predicate WellFormed(rows: seq<Row>) {
    |rows| >= 1 && rows[0] == Header && AllData(rows[1..])
  }

  lemma AllDataAppend(a: seq<Row>, b: seq<Row>)
    requires AllData(a) && AllData(b)
    ensures AllData(a + b)
  {
    forall k | 0 <= k < |a + b| ensures DecodeRow((a + b)[k]).Some? {
      if k >= |a| {
        assert (a + b)[k] == b[k - |a|];
      }
    }
  }

  /** Every row of a round is a data row. */
  lemma RoundRowsData(ts: Instant, results: seq<ProbeResult>)
    ensures AllData(RoundRows(ts, results))
  {
    var rows := RoundRows(ts, results);
    forall k | 0 <= k < |rows| ensures DecodeRow(rows[k]).Some? {
      RoundRowsAt(ts, results, k);
      DecodeEncode(ts, results[k]);
    }
  }

  /** How many header rows a file holds. */
  function HeaderCount(rows: seq<Row>): (n: nat)
    ensures n <= |rows|
  {
    if rows == [] then 0
    else
      var last := |rows| - 1;
      HeaderCount(rows[..last]) + if rows[last] == Header then 1 else 0
  }

  /** Appending data rows adds no header. */
  lemma {:induction false} HeaderCountData(rows: seq<Row>, more: seq<Row>)
    requires AllData(more)
    ensures HeaderCount(rows + more) == HeaderCount(rows)
    decreases |more|
  {
    if more == [] {
      assert rows + more == rows;
    } else {
      var last := |more| - 1;
      var init := rows + more[..last];
      assert AllData(more[..last]) by {
        forall k | 0 <= k < last ensures DecodeRow(more[..last][k]).Some? {
          assert more[..last][k] == more[k];
        }
      }
      HeaderCountData(rows, more[..last]);
      assert rows + more == init + [more[last]];
      assert (init + [more[last]])[..|init|] == init;
      HeaderIsNotData();
    }
  }

  /** A well-formed file holds exactly one header. */
  lemma WellFormedOneHeader(rows: seq<Row>)
    requires WellFormed(rows)
    ensures HeaderCount(rows) == 1
  {
    assert rows == [Header] + rows[1..];
    HeaderCountData([Header], rows[1..]);
    assert [Header][..0] == [];
  }

  /** Data rows appended to a well-formed file, or to the header of a new
      one, leave a well-formed file. */
  lemma WellFormedAppend(file: Option<seq<Row>>, more: seq<Row>)
    requires file.Some? ==> WellFormed(file.value)
    requires AllData(more)
    ensures WellFormed(Existing(file) + more)
  {
    var before := Existing(file);
    assert (before + more)[1..] == before[1..] + more;
    AllDataAppend(before[1..], more);
  }

  /** Appending a round to a file the monitor wrote, or creating it, leaves
      a file the monitor wrote. */
  lemma AppendKeepsWellFormed(file: Option<seq<Row>>, ts: Instant, results: seq<ProbeResult>)
    requires file.Some? ==> WellFormed(file.value)
    ensures WellFormed(Existing(file) + RoundRows(ts, results))
  {
    RoundRowsData(ts, results);
    WellFormedAppend(file, RoundRows(ts, results));
  }

  /** `append_csv` writes the header exactly when it creates the file: the
      header count grows by one if the file did not exist and is unchanged
      otherwise, even for an existing empty file. */
  lemma AppendHeaderCount(file: Option<seq<Row>>, ts: Instant, results: seq<ProbeResult>)
    ensures HeaderCount(Existing(file) + RoundRows(ts, results))
            == if file.None? then 1 else HeaderCount(file.value)
  {
    RoundRowsData(ts, results);
    HeaderCountData(Existing(file), RoundRows(ts, results));
    if file.None? {
      assert [Header][..0] == [];
    }
  }
}
