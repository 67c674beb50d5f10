/**
 * Deleting records: the file is copied record by record into a temporary
 * file, leaving out the records to delete, and the copy is then renamed over
 * the original. The rename is the only step that changes the file.
 */
module SharedCsv {
  import opened Csv
  import CustomReaders

  /** The position of the column labelled "name". */
  function NameColumn(header: Row): (k: nat)
    requires "name" in header
    ensures k < |header| && header[k] == "name"
    ensures forall j :: 0 <= j < k ==> header[j] != "name"
  {
    if header[0] == "name" then 0
    else
      assert "name" in header[1..];
      1 + NameColumn(header[1..])
  }

  /** The rows the copy loop writes: a row is copied when its key column is
      not `name` (a row too short to have one included), or when one row has
      already been dropped in delete-one mode. `killed` is that flag. */
  function Survivors(rows: seq<Row>, k: nat, name: string, deleteAll: bool, killed: bool): seq<Row>
  {
    if rows == [] then []
    else if !KeyAt(rows[0], k, name) || (killed && !deleteAll) then
      [rows[0]] + Survivors(rows[1..], k, name, deleteAll, killed)
    else
      Survivors(rows[1..], k, name, deleteAll, true)
  }

  /** The rows whose key is not `name`, in their order. */
  function Without(rows: seq<Row>, k: nat, name: string): (r: seq<Row>)
    ensures forall x :: x in r ==> x in rows && !KeyAt(x, k, name)
    ensures forall x :: x in rows && !KeyAt(x, k, name) ==> x in r
  {
    if rows == [] then []
    else
      var rest := Without(rows[1..], k, name);
      assert forall x :: x in rows ==> x == rows[0] || x in rows[1..];
      if KeyAt(rows[0], k, name) then rest else [rows[0]] + rest
  }

  /** The first index whose key is `name`, or `|rows|`. */
  function FirstKey(rows: seq<Row>, k: nat, name: string): (i: nat)
    ensures i <= |rows|
    ensures forall j :: 0 <= j < i ==> !KeyAt(rows[j], k, name)
    ensures i < |rows| ==> KeyAt(rows[i], k, name)
  {
    if rows == [] || KeyAt(rows[0], k, name) then 0
    else 1 + FirstKey(rows[1..], k, name)
  }

  /** The rows with the first one keyed `name` taken out. */
  function RemoveFirst(rows: seq<Row>, k: nat, name: string): seq<Row>
  {
    var i := FirstKey(rows, k, name);
    if i == |rows| then rows else rows[..i] + rows[i + 1..]
  }

  /** The copy writes only rows it read. */
  lemma {:induction false} SurvivorsFromRows(rows: seq<Row>, k: nat, name: string, deleteAll: bool, killed: bool)
    ensures forall x :: x in Survivors(rows, k, name, deleteAll, killed) ==> x in rows
    decreases |rows|
  {
    if rows != [] {
      SurvivorsFromRows(rows[1..], k, name, deleteAll, killed);
      SurvivorsFromRows(rows[1..], k, name, deleteAll, true);
      assert forall x :: x in rows[1..] ==> x in rows;
    }
  }

  /** What the copy writes is a file the reader reads again in full. */
  lemma SurvivorsReadable(rows: seq<Row>, width: nat, k: nat, name: string, deleteAll: bool)
    requires Rectangular(width, rows)
    ensures AllReadable(width, Records(Survivors(rows, k, name, deleteAll, false)))
    ensures RowsOf(Records(Survivors(rows, k, name, deleteAll, false))) == Survivors(rows, k, name, deleteAll, false)
  {
    var r := Survivors(rows, k, name, deleteAll, false);
    SurvivorsFromRows(rows, k, name, deleteAll, false);
    assert Rectangular(width, r) by {
      forall j | 0 <= j < |r| ensures |r[j]| == width {
        assert r[j] in rows;
      }
    }
    RowsOfRecords(r, width);
  }

  /** Once a row has been dropped in delete-one mode, everything is copied. */
  lemma {:induction false} SurvivorsAfterKill(rows: seq<Row>, k: nat, name: string)
    ensures Survivors(rows, k, name, false, true) == rows
    decreases |rows|
  {
    if rows != [] {
      SurvivorsAfterKill(rows[1..], k, name);
    }
  }

  /** Delete-all mode keeps exactly the rows with another key. */
  lemma {:induction false} SurvivorsDeleteAll(rows: seq<Row>, k: nat, name: string, killed: bool)
    ensures Survivors(rows, k, name, true, killed) == Without(rows, k, name)
    decreases |rows|
  {
    if rows != [] {
      SurvivorsDeleteAll(rows[1..], k, name, killed);
      SurvivorsDeleteAll(rows[1..], k, name, true);
    }
  }

  /** A row with another key stays in front. */
  lemma RemoveFirstCons(rows: seq<Row>, k: nat, name: string)
    requires rows != [] && !KeyAt(rows[0], k, name)
    ensures RemoveFirst(rows, k, name) == [rows[0]] + RemoveFirst(rows[1..], k, name)
  {
    var t := rows[1..];
    var i := FirstKey(t, k, name);
    assert FirstKey(rows, k, name) == i + 1;
    if i < |t| {
      var a, b := t[..i], t[i + 1..];
      assert rows[..i + 1] == [rows[0]] + a;
      assert rows[i + 2..] == b;
      assert RemoveFirst(t, k, name) == a + b;
      assert ([rows[0]] + a) + b == [rows[0]] + (a + b);
    } else {
      assert [rows[0]] + t == rows;
    }
  }

  /** Delete-one mode drops exactly the first row keyed `name`. */
  lemma {:induction false} SurvivorsDeleteOne(rows: seq<Row>, k: nat, name: string)
    ensures Survivors(rows, k, name, false, false) == RemoveFirst(rows, k, name)
    decreases |rows|
  {
    if rows != [] {
      if KeyAt(rows[0], k, name) {
        SurvivorsAfterKill(rows[1..], k, name);
      } else {
        SurvivorsDeleteOne(rows[1..], k, name);
        RemoveFirstCons(rows, k, name);
      }
    }
  }

  /** Nothing keyed `name` survives delete-all. */
  lemma {:induction false} WithoutCountsZero(rows: seq<Row>, k: nat, name: string)
    ensures CountKey(Without(rows, k, name), k, name) == 0
    decreases |rows|
  {
    if rows != [] {
      WithoutCountsZero(rows[1..], k, name);
    }
  }

  /** Delete-all never drops a row with another key. */
  lemma {:induction false} WithoutKeepsOthers(rows: seq<Row>, k: nat, name: string, other: string)
    requires other != name
    ensures CountKey(Without(rows, k, name), k, other) == CountKey(rows, k, other)
    decreases |rows|
  {
    if rows != [] {
      WithoutKeepsOthers(rows[1..], k, name, other);
    }
  }

  /** With no row keyed `name`, delete-all changes nothing. */
  lemma {:induction false} WithoutNoMatch(rows: seq<Row>, k: nat, name: string)
    requires CountKey(rows, k, name) == 0
    ensures Without(rows, k, name) == rows
    decreases |rows|
  {
    if rows != [] {
      WithoutNoMatch(rows[1..], k, name);
    }
  }

  lemma {:induction false} CountKeyZeroFirstKey(rows: seq<Row>, k: nat, name: string)
    ensures CountKey(rows, k, name) == 0 <==> FirstKey(rows, k, name) == |rows|
    decreases |rows|
  {
    if rows != [] {
      CountKeyZeroFirstKey(rows[1..], k, name);
    }
  }

  /** Delete-one lowers the count of `name` by one while it is positive;
      with no match it changes nothing. */
  lemma RemoveFirstCounts(rows: seq<Row>, k: nat, name: string)
    ensures CountKey(rows, k, name) == 0 ==> RemoveFirst(rows, k, name) == rows
    ensures CountKey(rows, k, name) > 0 ==>
              CountKey(RemoveFirst(rows, k, name), k, name) == CountKey(rows, k, name) - 1
  {
    CountKeyZeroFirstKey(rows, k, name);
    var i := FirstKey(rows, k, name);
    if i < |rows| {
      RemoveFirstSplit(rows, k, name, name);
    }
  }

  /** Delete-one leaves the count of every other key alone. */
  lemma RemoveFirstKeepsOthers(rows: seq<Row>, k: nat, name: string, other: string)
    requires other != name
    ensures CountKey(RemoveFirst(rows, k, name), k, other) == CountKey(rows, k, other)
  {
    var i := FirstKey(rows, k, name);
    if i < |rows| {
      RemoveFirstSplit(rows, k, name, other);
    }
  }

  lemma RemoveFirstSplit(rows: seq<Row>, k: nat, name: string, key: string)
    requires FirstKey(rows, k, name) < |rows|
    ensures var i := FirstKey(rows, k, name);
      CountKey(rows, k, key) == CountKey(RemoveFirst(rows, k, name), k, key) + (if KeyAt(rows[i], k, key) then 1 else 0)
  {
    var i := FirstKey(rows, k, name);
    assert rows == rows[..i] + [rows[i]] + rows[i + 1..];
    CountKeyAppend(rows[..i] + [rows[i]], rows[i + 1..], k, key);
    CountKeyAppend(rows[..i], [rows[i]], k, key);
    CountKeyAppend(rows[..i], rows[i + 1..], k, key);
  }

  /** Reading a line of a file whose earlier lines all read: the rows so far
      grow by its fields. */
  lemma ReadableStep(s: seq<Line>, p: nat, width: nat)
    requires p < |s| && AllReadable(width, s[..p]) && Readable(width, s[p])
    ensures AllReadable(width, s[..p + 1])
  {
    assert s[..p + 1] == s[..p] + [s[p]];
  }

  lemma SurvivorsCons(row: Row, rest: seq<Row>, k: nat, name: string, deleteAll: bool, killed: bool)
    ensures Survivors([row] + rest, k, name, deleteAll, killed)
            == if !KeyAt(row, k, name) || (killed && !deleteAll) then [row] + Survivors(rest, k, name, deleteAll, killed)
               else Survivors(rest, k, name, deleteAll, true)
  {
    assert ([row] + rest)[0] == row;
    assert ([row] + rest)[1..] == rest;
  }

  lemma RecordsSnoc(rows: seq<Row>, row: Row)
    ensures Records(rows + [row]) == Records(rows) + [Record(row)]
  {
  }

  /** One turn of the copy loop: the rows still to come lose their first
      row, which is either written out or dropped. */
  lemma CopyStep(r: seq<Line>, width: nat, k: nat, name: string, deleteAll: bool, killed: bool, out: seq<Row>)
    requires r != [] && k < width && Readable(width, r[0])
    ensures var row := r[0].fields;
      var keep := row[k] != name || (killed && !deleteAll);
      out + Survivors(RowsOf(r), k, name, deleteAll, killed)
      == (if keep then out + [row] else out) + Survivors(RowsOf(r[1..]), k, name, deleteAll, killed || !keep)
  {
    var row := r[0].fields;
    var rest := RowsOf(r[1..]);
    assert RowsOf(r) == [row] + rest;
    SurvivorsCons(row, rest, k, name, deleteAll, killed);
    if row[k] != name || (killed && !deleteAll) {
      assert out + ([row] + Survivors(rest, k, name, deleteAll, killed))
          == (out + [row]) + Survivors(rest, k, name, deleteAll, killed);
    }
  }

  /** The copy loop of `delete_animal_for_path`: the records of `rdr` are
      appended to `tmp` unless they are to be dropped. */
  method CopySurvivors(rdr: Reader, tmp: CsvFile, k: nat, name: string, deleteAll: bool) returns (res: Result<()>)
    requires rdr.Valid() && !rdr.rewound && rdr.pos == 0 && k < |rdr.header|
    requires tmp.table == Table(rdr.header, [])
    modifies rdr, tmp
    ensures !AllReadable(|rdr.header|, rdr.body) ==> res == Err(ReadFailed)
    ensures AllReadable(|rdr.header|, rdr.body) ==>
              res == Ok(()) && tmp.table == Table(rdr.header, Records(Survivors(RowsOf(rdr.body), k, name, deleteAll, false)))
  {
    var animalKilled := false;
    ghost var out: seq<Row> := [];
    assert rdr.Remaining() == rdr.body;
    while true
      invariant rdr.Valid() && !rdr.rewound
      invariant AllReadable(|rdr.header|, rdr.body[..rdr.pos])
      invariant tmp.table == Table(rdr.header, Records(out))
      invariant Survivors(RowsOf(rdr.body), k, name, deleteAll, false)
                == out + Survivors(RowsOf(rdr.Remaining()), k, name, deleteAll, animalKilled)
      decreases |rdr.body| - rdr.pos
    {
      ghost var r := rdr.Remaining();
      ghost var p := rdr.pos;
      var next := rdr.Next();
      if next.None? {
        break;
      }
      assert rdr.body[p] == r[0];
      if next.value.Err? {
        return Err(next.value.error);
      }
      var row := next.value.value;
      ReadableStep(rdr.body, p, |rdr.header|);
      CopyStep(r, |rdr.header|, k, name, deleteAll, animalKilled, out);
      if row[k] != name || (animalKilled && !deleteAll) {
        tmp.Append(row);
        RecordsSnoc(out, row);
        out := out + [row];
      } else {
        animalKilled := true;
      }
    }
    assert rdr.body[..rdr.pos] == rdr.body;
    return Ok(());
  }

  /** `delete_animal_for_path`. `tempOk`: the temporary file and its writer
      could be created; `commitOk`: writing, flushing and renaming succeed.
      The header row is copied first; any failure returns before the rename
      and leaves the file as it was. */
  method DeleteAnimalForPath(file: CsvFile, name: string, deleteAll: bool, tempOk: bool, commitOk: bool)
    returns (res: Result<()>)
    requires "name" in file.table.header
    modifies file
    ensures var t := old(file.table);
      && (!tempOk ==> res == Err(WriteFailed))
      && (tempOk && !AllReadable(|t.header|, t.lines) ==> res == Err(ReadFailed))
      && (tempOk && AllReadable(|t.header|, t.lines) && !commitOk ==> res == Err(WriteFailed))
      && (res.Err? ==> file.table == t)
      && (tempOk && AllReadable(|t.header|, t.lines) && commitOk ==>
            res == Ok(()) &&
            file.table == Table(t.header, Records(Survivors(RowsOf(t.lines), NameColumn(t.header), name, deleteAll, false))))
    ensures AllReadable(|file.table.header|, file.table.lines) ==> AllReadable(|old(file.table).header|, old(file.table).lines)
    ensures res.Ok? ==> AllReadable(|file.table.header|, file.table.lines)
  {
    if !tempOk {
      return Err(WriteFailed);
    }
    var rdr := new Reader.Open(file.table);
    var tmp := new CsvFile(rdr.header);
    var k := NameColumn(rdr.header);
    res := CopySurvivors(rdr, tmp, k, name, deleteAll);
    if res.Err? || !commitOk {
      return if res.Err? then res else Err(WriteFailed);
    }
    RecordsOfRowsOf(rdr.body, |rdr.header|);
    SurvivorsReadable(RowsOf(rdr.body), |rdr.header|, k, name, deleteAll);
    file.table := tmp.table;
  }

  /** `delete_all_animals_for_path`: every record keyed `name` is dropped. */
  method DeleteAllAnimalsForPath(name: string, file: CsvFile, tempOk: bool, commitOk: bool) returns (res: Result<()>)
    requires "name" in file.table.header
    modifies file
    ensures var t := old(file.table);
      if tempOk && commitOk && AllReadable(|t.header|, t.lines) then
        res == Ok(()) && file.table == Table(t.header, Records(Without(RowsOf(t.lines), NameColumn(t.header), name)))
      else res.Err? && file.table == t
  {
    SurvivorsDeleteAll(RowsOf(file.table.lines), NameColumn(file.table.header), name, false);
    res := DeleteAnimalForPath(file, name, true, tempOk, commitOk);
  }

  /** `delete_one_animal_for_path`: the first record keyed `name` is dropped. */
  method DeleteOneAnimalForPath(name: string, file: CsvFile, tempOk: bool, commitOk: bool) returns (res: Result<()>)
    requires "name" in file.table.header
    modifies file
    ensures var t := old(file.table);
      if tempOk && commitOk && AllReadable(|t.header|, t.lines) then
        res == Ok(()) && file.table == Table(t.header, Records(RemoveFirst(RowsOf(t.lines), NameColumn(t.header), name)))
      else res.Err? && file.table == t
  {
    SurvivorsDeleteOne(RowsOf(file.table.lines), NameColumn(file.table.header), name);
    res := DeleteAnimalForPath(file, name, false, tempOk, commitOk);
  }

  /** The file of the delete tests: snake, chameleon, chameleon, snake. */
  function TestRows(): seq<Row>
  {
    [["snake", "female"], ["chameleon", "male"], ["chameleon", "male"], ["snake", "female"]]
  }

  method TestFile() returns (file: CsvFile)
    ensures fresh(file) && file.table == Table(["name", "sex"], Records(TestRows()))
  {
    file := new CsvFile(["name", "sex"]);
    file.Append(["snake", "female"]);
    file.Append(["chameleon", "male"]);
    file.Append(["chameleon", "male"]);
    file.Append(["snake", "female"]);
  }

  lemma TestCounts()
    ensures CountKey(TestRows(), 0, "snake") == 2 && CountKey(TestRows(), 0, "chameleon") == 2
    ensures Rectangular(2, TestRows())
  {
    var rows := TestRows();
    assert rows[1..][1..][1..] == [["snake", "female"]];
  }

  /** After deleting every snake, a fresh reader counts no snake and still
      two chameleons. */
  method DeleteAllTest() returns (snakes: Result<nat>, chameleons: Result<nat>)
    ensures snakes == Ok(0) && chameleons == Ok(2)
  {
    var file := TestFile();
    TestCounts();
    RowsOfRecords(TestRows(), 2);
    var deleted := DeleteAllAnimalsForPath("snake", file, true, true);
    var left := Without(TestRows(), 0, "snake");
    SurvivorsDeleteAll(TestRows(), 0, "snake", false);
    SurvivorsReadable(TestRows(), 2, 0, "snake", true);
    WithoutCountsZero(TestRows(), 0, "snake");
    WithoutKeepsOthers(TestRows(), 0, "snake", "chameleon");
    var inner := new Reader.Open(file.table);
    var reader := new CustomReaders.CustomReader(inner);
    snakes, chameleons := CustomReaders.CountTwice(reader, "snake", "chameleon");
  }

  /** Count `name` on a freshly opened reader of a readable two-column file. */
  method CountOnFreshReader(file: CsvFile, rows: seq<Row>, name: string) returns (count: Result<nat>)
    requires file.table == Table(["name", "sex"], Records(rows)) && Rectangular(2, rows)
    ensures count == Ok(CountKey(rows, 0, name))
  {
    RowsOfRecords(rows, 2);
    CountScanCounts(file.table.lines, 2, name);
    var reader := new Reader.Open(file.table);
    count := CustomReaders.CountAnimalOnce(reader, name);
  }

  /** Delete one record of `name` from a readable two-column file. */
  method DeleteOne(file: CsvFile, rows: seq<Row>, name: string)
    requires file.table == Table(["name", "sex"], Records(rows)) && Rectangular(2, rows)
    modifies file
    ensures file.table == Table(["name", "sex"], Records(RemoveFirst(rows, 0, name)))
    ensures Rectangular(2, RemoveFirst(rows, 0, name))
  {
    RowsOfRecords(rows, 2);
    var deleted := DeleteOneAnimalForPath(name, file, true, true);
    SurvivorsDeleteOne(rows, 0, name);
    SurvivorsReadable(rows, 2, 0, name, false);
    RecordsOfRowsOf(file.table.lines, 2);
  }

  /** Deleting one snake at a time: the count goes 2, 1, 0. */
  method DeleteOneTest() returns (before: Result<nat>, once: Result<nat>, twice: Result<nat>)
    ensures before == Ok(2) && once == Ok(1) && twice == Ok(0)
  {
    var file := TestFile();
    TestCounts();
    var rows1 := RemoveFirst(TestRows(), 0, "snake");
    var rows2 := RemoveFirst(rows1, 0, "snake");
    RemoveFirstCounts(TestRows(), 0, "snake");
    RemoveFirstCounts(rows1, 0, "snake");
    before := CountOnFreshReader(file, TestRows(), "snake");
    DeleteOne(file, TestRows(), "snake");
    once := CountOnFreshReader(file, rows1, "snake");
    DeleteOne(file, rows1, "snake");
    twice := CountOnFreshReader(file, rows2, "snake");
  }
}
