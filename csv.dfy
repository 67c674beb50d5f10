/**
 * The csv crate as the record store uses it. A file is a header row followed
 * by lines; a reader opened on it consumes the header once and then yields
 * one record per line. Quoting, escaping and byte positions stay out: lines
 * arrive already split into fields.
 */
module Csv {

  datatype Option<T> = None | Some(value: T)

  /** ReadFailed: a line the reader cannot turn into a record.
      InvalidField: a class or sex column holding an unknown literal.
      WriteFailed: creating, writing, flushing or renaming a file failed. */
  datatype Error = ReadFailed | InvalidField | WriteFailed

  datatype Result<T> = Ok(value: T) | Err(error: Error)

  type Row = seq<string>

  /** A line of a file: a record, or a line the reader fails on (an I/O
      error, bytes that are not UTF-8). */
  datatype Line = Record(fields: Row) | Unreadable

  /** The contents of a file: its header row and the lines below it. */
  datatype Table = Table(header: Row, lines: seq<Line>)

  /** What a scan returned and how many lines it consumed to get there. */
  datatype Scan<T> = Scan(result: Result<T>, read: nat)

  /** The same outcome, reached after `d` more lines were read first. */
  function Shift<T>(sc: Scan<T>, d: nat): Scan<T>
  {
    Scan(sc.result, sc.read + d)
  }

  /** The reader is not flexible: a record with a different number of fields
      than the header is refused like an unreadable line. */
  predicate Readable(width: nat, line: Line)
  {
    line.Record? && |line.fields| == width
  }

  /** One step of `records()`. */
  function ReadRecord(width: nat, line: Line): Result<Row>
  {
    if Readable(width, line) then Ok(line.fields) else Err(ReadFailed)
  }

  predicate AllReadable(width: nat, s: seq<Line>)
  {
    forall j :: 0 <= j < |s| ==> Readable(width, s[j])
  }

  /** `row.get(k) == Some(name)`; the readers test `record[0] == name`, which
      is column 0 of a record that is known to be wide enough. */
  predicate KeyAt(row: Row, k: nat, name: string)
  {
    k < |row| && row[k] == name
  }

  function FieldsOf(line: Line): Row
  {
    if line.Record? then line.fields else []
  }

  /** The rows of a file whose lines all read. */
  function RowsOf(s: seq<Line>): seq<Row>
  {
    seq(|s|, j requires 0 <= j < |s| => FieldsOf(s[j]))
  }

  /** The lines a writer produces for `rows`. */
  function Records(rows: seq<Row>): seq<Line>
  {
    seq(|rows|, j requires 0 <= j < |rows| => Record(rows[j]))
  }

  predicate Rectangular(width: nat, rows: seq<Row>)
  {
    forall j :: 0 <= j < |rows| ==> |rows[j]| == width
  }

  /** Number of rows whose column `k` holds `name`. */
  function CountKey(rows: seq<Row>, k: nat, name: string): (n: nat)
    ensures n <= |rows|
  {
    if rows == [] then 0
    else (if KeyAt(rows[0], k, name) then 1 else 0) + CountKey(rows[1..], k, name)
  }

  /** A line at which a keyed lookup stops: it does not read, or its key is `name`. */
  predicate Stops(width: nat, line: Line, name: string)
  {
    !Readable(width, line) || KeyAt(line.fields, 0, name)
  }

  /** The position of the first line a lookup for `name` stops at, or `|s|`. */
  function FirstStop(s: seq<Line>, width: nat, name: string): (i: nat)
    ensures i <= |s|
    ensures forall j :: 0 <= j < i ==> !Stops(width, s[j], name)
    ensures i < |s| ==> Stops(width, s[i], name)
  {
    if s == [] || Stops(width, s[0], name) then 0
    else 1 + FirstStop(s[1..], width, name)
  }

  /** The counting loop of both `count_animal`s: `count` is what has been
      counted so far; the first unreadable line ends the scan with its error. */
  function CountFrom(s: seq<Line>, width: nat, name: string, count: nat): (sc: Scan<nat>)
    ensures sc.read <= |s|
    ensures sc.result.Ok? ==> sc.read == |s| && count <= sc.result.value <= count + |s|
    ensures sc.result.Err? ==> sc.result.error == ReadFailed
  {
    if s == [] then Scan(Ok(count), 0)
    else match ReadRecord(width, s[0])
      case Err(e) => Scan(Err(e), 1)
      case Ok(row) =>
        Shift(CountFrom(s[1..], width, name, count + if KeyAt(row, 0, name) then 1 else 0), 1)
  }

  function CountScan(s: seq<Line>, width: nat, name: string): Scan<nat>
  {
    CountFrom(s, width, name, 0)
  }

  lemma {:induction false} CountFromAdds(s: seq<Line>, width: nat, name: string, count: nat)
    requires AllReadable(width, s)
    ensures CountFrom(s, width, name, count).result == Ok(count + CountKey(RowsOf(s), 0, name))
    decreases |s|
  {
    if s != [] {
      assert RowsOf(s)[1..] == RowsOf(s[1..]);
      CountFromAdds(s[1..], width, name, count + if KeyAt(s[0].fields, 0, name) then 1 else 0);
    }
  }

  /** Over a file whose lines all read, counting returns the number of rows
      whose column 0 is `name`. */
  lemma CountScanCounts(s: seq<Line>, width: nat, name: string)
    requires AllReadable(width, s)
    ensures CountScan(s, width, name).result == Ok(CountKey(RowsOf(s), 0, name))
  {
    CountFromAdds(s, width, name, 0);
  }

  /** Counting fails exactly when some line does not read. */
  lemma {:induction false} CountFromFails(s: seq<Line>, width: nat, name: string, count: nat)
    ensures CountFrom(s, width, name, count).result.Err? <==> !AllReadable(width, s)
    decreases |s|
  {
    if s != [] {
      CountFromFails(s[1..], width, name, count + if KeyAt(FieldsOf(s[0]), 0, name) then 1 else 0);
      if Readable(width, s[0]) {
        if !AllReadable(width, s[1..]) {
          var j :| 0 <= j < |s[1..]| && !Readable(width, s[1..][j]);
          assert !Readable(width, s[j + 1]);
        }
      }
    }
  }

  lemma {:induction false} CountKeyAppend(a: seq<Row>, b: seq<Row>, k: nat, name: string)
    ensures CountKey(a + b, k, name) == CountKey(a, k, name) + CountKey(b, k, name)
    decreases |a|
  {
    if a == [] {
      assert a + b == b;
    } else {
      assert (a + b)[0] == a[0];
      assert (a + b)[1..] == a[1..] + b;
      CountKeyAppend(a[1..], b, k, name);
    }
  }

  /** A header row seen as data after a rewind does not change a count of a
      key other than the header's first column. */
  lemma CountPastHeader(header: Row, s: seq<Line>, name: string)
    requires |header| >= 1 && header[0] != name
    ensures CountScan([Record(header)] + s, |header|, name).result == CountScan(s, |header|, name).result
  {
    assert ([Record(header)] + s)[1..] == s;
  }

  lemma RecordsOfRowsOf(s: seq<Line>, width: nat)
    requires AllReadable(width, s)
    ensures Records(RowsOf(s)) == s
    ensures Rectangular(width, RowsOf(s))
  {
  }

  lemma RowsOfRecords(rows: seq<Row>, width: nat)
    requires Rectangular(width, rows)
    ensures RowsOf(Records(rows)) == rows
    ensures AllReadable(width, Records(rows))
  {
  }

  /** A counting loop reading the first of the lines `s`. */
  lemma CountStep(s: seq<Line>, width: nat, name: string, count: nat)
    requires s != []
    ensures !Readable(width, s[0]) ==> CountFrom(s, width, name, count) == Scan(Err(ReadFailed), 1)
    ensures Readable(width, s[0]) ==>
              var next := count + if KeyAt(s[0].fields, 0, name) then 1 else 0;
              && CountFrom(s, width, name, count).result == CountFrom(s[1..], width, name, next).result
              && CountFrom(s, width, name, count).read == 1 + CountFrom(s[1..], width, name, next).read
  {
  }

  /** A file on disk, reached through its fixed path. */
  class CsvFile {
    var table: Table

    /** A new file holding only its header row. */
    constructor (header: Row)
      ensures table == Table(header, [])
    {
      table := Table(header, []);
    }

    /** A writer opened in append mode writes one record at the end. */
    method Append(row: Row)
      modifies this
      ensures table == Table(old(table.header), old(table.lines) + [Record(row)])
    {
      table := Table(table.header, table.lines + [Record(row)]);
    }
  }

  /** A `csv::Reader` over a file: the header was consumed when it was
      opened; `pos` counts the lines read since the last seek. */
  class Reader {
    const header: Row
    const body: seq<Line>
    var rewound: bool
    var pos: nat

    /** The lines the reader yields from its starting point. Seeking to byte
        0 does not repeat the header skip, so once the reader has been
        rewound the header row comes back as an ordinary record. */
    function Stream(): seq<Line>
      reads this
    {
      if rewound then [Record(header)] + body else body
    }

    ghost predicate Valid()
      reads this
    {
      pos <= |Stream()|
    }

    /** The lines not yet read. */
    function Remaining(): seq<Line>
      reads this
      requires Valid()
    {
      Stream()[pos..]
    }

    constructor Open(t: Table)
      ensures header == t.header && body == t.lines
      ensures !rewound && pos == 0 && Valid()
    {
      header := t.header;
      body := t.lines;
      rewound := false;
      pos := 0;
    }

    /** The next item of `records()`, or None at the end of the file. */
    method Next() returns (next: Option<Result<Row>>)
      requires Valid()
      modifies this
      ensures Valid() && rewound == old(rewound) && Stream() == old(Stream())
      ensures old(pos) == |Stream()| ==> next == None && pos == old(pos)
      ensures old(pos) < |Stream()| ==>
                next == Some(ReadRecord(|header|, Stream()[old(pos)])) && pos == old(pos) + 1
                && old(Remaining()) != [] && Stream()[old(pos)] == old(Remaining())[0] && Remaining() == old(Remaining())[1..]
    {
      if pos == |Stream()| {
        return None;
      }
      next := Some(ReadRecord(|header|, Stream()[pos]));
      pos := pos + 1;
    }

    /** `seek(Position::new())`: back to byte 0. */
    method Seek()
      modifies this
      ensures rewound && pos == 0 && Valid()
    {
      rewound := true;
      pos := 0;
    }
  }
}
