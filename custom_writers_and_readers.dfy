/**
 * The reader wrapper whose `count_animal` counts the records of a name and
 * then rewinds.
 */
module CustomReaders {
  import opened Csv

  class CustomReader {
    const inner: Reader

    constructor (inner: Reader)
      ensures this.inner == inner
    {
      this.inner := inner;
    }

    /** `seek_to_beginning`: the csv reader goes back to byte 0. */
    method SeekToBeginning()
      modifies inner
      ensures inner.rewound && inner.pos == 0 && inner.Valid()
    {
      inner.Seek();
    }

    /** `count_animal`: counts the records from the cursor on whose column 0 is
        `name`; a successful count rewinds, the first record that does not
        read ends the count with its error and leaves the cursor after it. */
    method CountAnimal(name: string) returns (res: Result<nat>)
      requires inner.Valid() && |inner.header| >= 1
      modifies inner
      ensures inner.Valid()
      ensures res == CountScan(old(inner.Remaining()), |inner.header|, name).result
      ensures res.Ok? ==> inner.rewound && inner.pos == 0
      ensures res.Err? ==> inner.rewound == old(inner.rewound)
                           && inner.pos == old(inner.pos) + CountScan(old(inner.Remaining()), |inner.header|, name).read
    {
      var rdr := inner;
      var count := 0;
      ghost var start := rdr.pos;
      ghost var total := CountScan(rdr.Remaining(), |rdr.header|, name);
      while true
        invariant rdr.Valid() && rdr.rewound == old(rdr.rewound) && rdr.Stream() == old(rdr.Stream())
        invariant start <= rdr.pos
        invariant total.result == CountFrom(rdr.Remaining(), |rdr.header|, name, count).result
        invariant total.read == rdr.pos - start + CountFrom(rdr.Remaining(), |rdr.header|, name, count).read
        decreases |rdr.Stream()| - rdr.pos
      {
        ghost var r := rdr.Remaining();
        var next := rdr.Next();
        if next.None? {
          break;
        }
        CountStep(r, |rdr.header|, name, count);
        if next.value.Err? {
          return Err(next.value.error);
        }
        var row := next.value.value;
        if row[0] == name {
          count := count + 1;
        }
      }
      SeekToBeginning();
      return Ok(count);
    }
  }

  /** Two counts in a row on one freshly opened reader: the first rewinds, so
      the second sees the whole file again, the header row included; for a
      key other than the header's first column that row adds nothing. */
  method CountTwice(r: CustomReader, a: string, b: string) returns (ca: Result<nat>, cb: Result<nat>)
    requires !r.inner.rewound && r.inner.pos == 0
    requires |r.inner.header| >= 1 && r.inner.header[0] != b
    requires AllReadable(|r.inner.header|, r.inner.body)
    modifies r.inner
    ensures ca == Ok(CountKey(RowsOf(r.inner.body), 0, a))
    ensures cb == Ok(CountKey(RowsOf(r.inner.body), 0, b))
  {
    CountScanCounts(r.inner.body, |r.inner.header|, a);
    ca := r.CountAnimal(a);
    CountPastHeader(r.inner.header, r.inner.body, b);
    CountScanCounts(r.inner.body, |r.inner.header|, b);
    cb := r.CountAnimal(b);
  }

  /** A count on a freshly opened reader. */
  method CountAnimalOnce(inner: Reader, name: string) returns (count: Result<nat>)
    requires !inner.rewound && inner.pos == 0 && |inner.header| >= 1
    modifies inner
    ensures count == CountScan(inner.body, |inner.header|, name).result
  {
    var r := new CustomReader(inner);
    count := r.CountAnimal(name);
  }

  /** The file of the delete tests: snake, chameleon, chameleon, snake. */
  function TestAlive(): Table
  {
    Table(["name", "sex"], [Record(["snake", "female"]), Record(["chameleon", "male"]),
                            Record(["chameleon", "male"]), Record(["snake", "female"])])
  }

  /** Snake counts 2, then chameleon counts 2 on the same reader. */
  method CountTestFile() returns (snakes: Result<nat>, chameleons: Result<nat>)
    ensures snakes == Ok(2) && chameleons == Ok(2)
  {
    var t := TestAlive();
    var inner := new Reader.Open(t);
    var r := new CustomReader(inner);
    var rows := [["snake", "female"], ["chameleon", "male"], ["chameleon", "male"], ["snake", "female"]];
    assert RowsOf(t.lines) == rows;
    assert rows[1..][1..][1..] == [["snake", "female"]];
    assert CountKey(rows, 0, "snake") == 2;
    assert CountKey(rows, 0, "chameleon") == 2;
    snakes, chameleons := CountTwice(r, "snake", "chameleon");
  }
}
