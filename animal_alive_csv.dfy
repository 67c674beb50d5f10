/**
 * The file of living individuals: one `name,sex` record per individual, and
 * the scans the commands run over it.
 */
module AliveCsv {
  import opened Csv
  import opened AnimalStructs

  /** `to_alive_csv`: the record an individual is written as. */
  function ToAliveCsv(a: AnimalAlive): (row: Row)
    ensures |row| == 2 && row[0] == a.name
    ensures DecodeSex(row[1]) == Ok(a.sex)
  {
    [a.name, a.SexStr()]
  }

  /** The sex column as the readers decode it: only the two tags are known. */
  function DecodeSex(tag: string): (r: Result<Sex>)
    ensures r.Ok? <==> tag == "male" || tag == "female"
    ensures r.Ok? ==> SexTag(r.value) == tag
    ensures r.Err? ==> r.error == InvalidField
  {
    if tag == "male" then Ok(Male)
    else if tag == "female" then Ok(Female)
    else Err(InvalidField)
  }

  /** The loop of `read_animal_alive` over the lines from the cursor on. */
  function Lookup(s: seq<Line>, width: nat, name: string): (sc: Scan<Option<AnimalAlive>>)
    requires width >= 2
    ensures sc.read <= |s|
  {
    if s == [] then Scan(Ok(None), 0)
    else match ReadRecord(width, s[0])
      case Err(e) => Scan(Err(e), 1)
      case Ok(row) =>
        if row[0] == name then
          match DecodeSex(row[1])
          case Ok(sex) => Scan(Ok(Some(AnimalAlive.Born(name, sex))), 1)
          case Err(e) => Scan(Err(e), 1)
        else Shift(Lookup(s[1..], width, name), 1)
  }

  /** The lookup ends at the first line that does not read or is keyed
      `name`: nothing there means None, a line that does not read is an
      error, and a matching record is decoded. Nothing after it is read. */
  lemma {:induction false} LookupFirstStop(s: seq<Line>, width: nat, name: string)
    requires width >= 2
    ensures var i := FirstStop(s, width, name);
      && (i == |s| ==> Lookup(s, width, name) == Scan(Ok(None), |s|))
      && (i < |s| && !Readable(width, s[i]) ==> Lookup(s, width, name) == Scan(Err(ReadFailed), i + 1))
      && (i < |s| && Readable(width, s[i]) ==>
            Lookup(s, width, name) ==
              Scan(match DecodeSex(s[i].fields[1])
                   case Ok(sex) => Ok(Some(AnimalAlive(name, sex)))
                   case Err(e) => Err(e), i + 1))
    decreases |s|
  {
    if s != [] && !Stops(width, s[0], name) {
      LookupFirstStop(s[1..], width, name);
    }
  }

  /** None exactly when every line reads and none is keyed `name`. */
  lemma LookupNone(s: seq<Line>, width: nat, name: string)
    requires width >= 2
    ensures Lookup(s, width, name).result == Ok(None) <==> forall j :: 0 <= j < |s| ==> !Stops(width, s[j], name)
  {
    LookupFirstStop(s, width, name);
  }

  /** A record written for `a` is found by its name once every line before
      it reads and has another name. */
  lemma {:induction false} LookupFindsWritten(pre: seq<Line>, a: AnimalAlive, post: seq<Line>)
    requires forall j :: 0 <= j < |pre| ==> !Stops(2, pre[j], a.name)
    ensures Lookup(pre + [Record(ToAliveCsv(a))] + post, 2, a.name).result == Ok(Some(a))
    decreases |pre|
  {
    var s := pre + [Record(ToAliveCsv(a))] + post;
    if pre == [] {
      assert s[0] == Record(ToAliveCsv(a));
    } else {
      assert s[0] == pre[0];
      assert s[1..] == pre[1..] + [Record(ToAliveCsv(a))] + post;
      LookupFindsWritten(pre[1..], a, post);
    }
  }

  /** The header row, seen as data after a rewind, is invisible to a lookup
      for any other key. */
  lemma LookupPastHeader(header: Row, s: seq<Line>, name: string)
    requires |header| >= 2 && header[0] != name
    ensures Lookup([Record(header)] + s, |header|, name).result == Lookup(s, |header|, name).result
  {
    assert ([Record(header)] + s)[1..] == s;
  }

  /** The lookup loop stopping at the first of the lines `s`. */
  lemma LookupStop(s: seq<Line>, width: nat, name: string)
    requires width >= 2 && s != []
    ensures !Readable(width, s[0]) ==> Lookup(s, width, name) == Scan(Err(ReadFailed), 1)
    ensures Readable(width, s[0]) && s[0].fields[0] == name && DecodeSex(s[0].fields[1]).Err? ==>
              Lookup(s, width, name) == Scan(Err(InvalidField), 1)
    ensures Readable(width, s[0]) && s[0].fields[0] == name && DecodeSex(s[0].fields[1]).Ok? ==>
              Lookup(s, width, name) == Scan(Ok(Some(AnimalAlive(name, DecodeSex(s[0].fields[1]).value))), 1)
  {
  }

  /** The lookup loop passing the first of the lines `s`. */
  lemma LookupPass(s: seq<Line>, width: nat, name: string)
    requires width >= 2 && s != [] && Readable(width, s[0]) && s[0].fields[0] != name
    ensures Lookup(s, width, name).result == Lookup(s[1..], width, name).result
    ensures Lookup(s, width, name).read == 1 + Lookup(s[1..], width, name).read
  {
  }

  /** The loop of `has_both_sexes`; `male` and `female` record what the
      matching records seen so far held. It stops as soon as both are seen. */
  function BothFrom(s: seq<Line>, width: nat, name: string, male: bool, female: bool): (sc: Scan<bool>)
    requires width >= 2 && !(male && female)
    ensures sc.read <= |s|
  {
    if s == [] then Scan(Ok(false), 0)
    else match ReadRecord(width, s[0])
      case Err(e) => Scan(Err(e), 1)
      case Ok(row) =>
        if row[0] == name then
          match DecodeSex(row[1])
          case Err(e) => Scan(Err(e), 1)
          case Ok(sex) =>
            var m := male || sex == Male;
            var f := female || sex == Female;
            if m && f then Scan(Ok(true), 1)
            else Shift(BothFrom(s[1..], width, name, m, f), 1)
        else Shift(BothFrom(s[1..], width, name, male, female), 1)
  }

  /** The `has_both_sexes` loop stopping at the first of the lines `s`. */
  lemma BothStop(s: seq<Line>, width: nat, name: string, male: bool, female: bool)
    requires width >= 2 && !(male && female) && s != []
    ensures !Readable(width, s[0]) ==> BothFrom(s, width, name, male, female) == Scan(Err(ReadFailed), 1)
    ensures Readable(width, s[0]) && s[0].fields[0] == name && DecodeSex(s[0].fields[1]).Err? ==>
              BothFrom(s, width, name, male, female) == Scan(Err(InvalidField), 1)
    ensures Readable(width, s[0]) && s[0].fields[0] == name && s[0].fields[1] == "male" && female ==>
              BothFrom(s, width, name, male, female) == Scan(Ok(true), 1)
    ensures Readable(width, s[0]) && s[0].fields[0] == name && s[0].fields[1] == "female" && male ==>
              BothFrom(s, width, name, male, female) == Scan(Ok(true), 1)
  {
  }

  /** The `has_both_sexes` loop passing the first of the lines `s`, with the
      flags becoming `m` and `f`. */
  lemma BothPass(s: seq<Line>, width: nat, name: string, male: bool, female: bool, m: bool, f: bool)
    requires width >= 2 && !(male && female) && s != [] && Readable(width, s[0])
    requires s[0].fields[0] == name ==> DecodeSex(s[0].fields[1]).Ok?
    requires m == (male || (s[0].fields[0] == name && s[0].fields[1] == "male"))
    requires f == (female || (s[0].fields[0] == name && s[0].fields[1] == "female"))
    requires !(m && f)
    ensures BothFrom(s, width, name, male, female).result == BothFrom(s[1..], width, name, m, f).result
    ensures BothFrom(s, width, name, male, female).read == 1 + BothFrom(s[1..], width, name, m, f).read
  {
  }

  function BothScan(s: seq<Line>, width: nat, name: string): Scan<bool>
    requires width >= 2
  {
    BothFrom(s, width, name, false, false)
  }

  /** Every line reads and every record keyed `name` holds a known sex tag. */
  predicate Clean(s: seq<Line>, width: nat, name: string)
  {
    forall j :: 0 <= j < |s| ==>
      Readable(width, s[j]) && (KeyAt(s[j].fields, 0, name) ==> 1 < |s[j].fields| && DecodeSex(s[j].fields[1]).Ok?)
  }

  /** Line `j` is a record of `name` with the tag of `sex`. */
  predicate IsOf(line: Line, name: string, sex: Sex)
  {
    line.Record? && KeyAt(line.fields, 0, name) && 1 < |line.fields| && line.fields[1] == SexTag(sex)
  }

  predicate HasSex(s: seq<Line>, name: string, sex: Sex)
  {
    exists j :: 0 <= j < |s| && IsOf(s[j], name, sex)
  }

  lemma HasSexCons(s: seq<Line>, name: string, sex: Sex)
    requires s != []
    ensures HasSex(s, name, sex) <==> IsOf(s[0], name, sex) || HasSex(s[1..], name, sex)
  {
    if HasSex(s, name, sex) && !IsOf(s[0], name, sex) {
      var j :| 0 <= j < |s| && IsOf(s[j], name, sex);
      assert s[1..][j - 1] == s[j];
    }
    if HasSex(s[1..], name, sex) {
      var j :| 0 <= j < |s[1..]| && IsOf(s[1..][j], name, sex);
      assert s[j + 1] == s[1..][j];
    }
  }

  /** Over a clean file the answer is whether the records of `name` include
      a male and a female. */
  lemma {:induction false} BothFromClean(s: seq<Line>, width: nat, name: string, male: bool, female: bool)
    requires width >= 2 && !(male && female) && Clean(s, width, name)
    ensures BothFrom(s, width, name, male, female).result
            == Ok((male || HasSex(s, name, Male)) && (female || HasSex(s, name, Female)))
    decreases |s|
  {
    if s != [] {
      HasSexCons(s, name, Male);
      HasSexCons(s, name, Female);
      assert Readable(width, s[0]);
      var row := s[0].fields;
      assert Clean(s[1..], width, name) by {
        forall j | 0 <= j < |s[1..]| ensures s[1..][j] == s[j + 1] { }
      }
      if row[0] == name {
        var sex := DecodeSex(row[1]).value;
        var m := male || sex == Male;
        var f := female || sex == Female;
        if !(m && f) {
          BothFromClean(s[1..], width, name, m, f);
        }
      } else {
        BothFromClean(s[1..], width, name, male, female);
      }
    }
  }

  lemma BothScanClean(s: seq<Line>, width: nat, name: string)
    requires width >= 2 && Clean(s, width, name)
    ensures BothScan(s, width, name).result == Ok(HasSex(s, name, Male) && HasSex(s, name, Female))
  {
    BothFromClean(s, width, name, false, false);
  }

  /** Early exit: once a clean prefix has shown both sexes, the answer is
      true and nothing after that prefix is read. */
  lemma {:induction false} BothFromStopsEarly(p: seq<Line>, q: seq<Line>, width: nat, name: string, male: bool, female: bool)
    requires width >= 2 && !(male && female) && Clean(p, width, name)
    requires (male || HasSex(p, name, Male)) && (female || HasSex(p, name, Female))
    ensures BothFrom(p + q, width, name, male, female).result == Ok(true)
    ensures BothFrom(p + q, width, name, male, female).read <= |p|
    decreases |p|
  {
    assert p != [];
    HasSexCons(p, name, Male);
    HasSexCons(p, name, Female);
    var s := p + q;
    assert s[0] == p[0];
    assert s[1..] == p[1..] + q;
    assert Readable(width, p[0]);
    assert Clean(p[1..], width, name) by {
      forall j | 0 <= j < |p[1..]| ensures p[1..][j] == p[j + 1] { }
    }
    var row := p[0].fields;
    if row[0] == name {
      var sex := DecodeSex(row[1]).value;
      var m := male || sex == Male;
      var f := female || sex == Female;
      if !(m && f) {
        BothFromStopsEarly(p[1..], q, width, name, m, f);
      }
    } else {
      BothFromStopsEarly(p[1..], q, width, name, male, female);
    }
  }

  lemma BothPastHeader(header: Row, s: seq<Line>, name: string)
    requires |header| >= 2 && header[0] != name
    ensures BothScan([Record(header)] + s, |header|, name).result == BothScan(s, |header|, name).result
  {
    assert ([Record(header)] + s)[1..] == s;
  }

  /** `write_animal_alive_file`: one record appended. */
  method WriteAnimalAliveFile(file: CsvFile, a: AnimalAlive)
    modifies file
    ensures file.table == Table(old(file.table.header), old(file.table.lines) + [Record(ToAliveCsv(a))])
  {
    file.Append(ToAliveCsv(a));
  }

  /** `read_animal_alive`: the first record of `name`, decoded; rewinds when
      it answers, and leaves the cursor after the failing line on an error. */
  method ReadAnimalAlive(rdr: Reader, name: string) returns (res: Result<Option<AnimalAlive>>)
    requires rdr.Valid() && |rdr.header| >= 2
    modifies rdr
    ensures rdr.Valid()
    ensures res == Lookup(old(rdr.Remaining()), |rdr.header|, name).result
    ensures res.Ok? ==> rdr.rewound && rdr.pos == 0
    ensures res.Err? ==> rdr.rewound == old(rdr.rewound)
                         && rdr.pos == old(rdr.pos) + Lookup(old(rdr.Remaining()), |rdr.header|, name).read
  {
    ghost var start := rdr.pos;
    ghost var total := Lookup(rdr.Remaining(), |rdr.header|, name);
    while true
      invariant rdr.Valid() && rdr.rewound == old(rdr.rewound) && rdr.Stream() == old(rdr.Stream())
      invariant start <= rdr.pos
      invariant total.result == Lookup(rdr.Remaining(), |rdr.header|, name).result
      invariant total.read == rdr.pos - start + Lookup(rdr.Remaining(), |rdr.header|, name).read
      decreases |rdr.Stream()| - rdr.pos
    {
      ghost var r := rdr.Remaining();
      var next := rdr.Next();
      if next.None? {
        break;
      }
      if next.value.Err? {
        LookupStop(r, |rdr.header|, name);
        return Err(next.value.error);
      }
      var row := next.value.value;
      if row[0] == name {
        LookupStop(r, |rdr.header|, name);
        var sex;
        if row[1] == "male" {
          sex := Male;
        } else if row[1] == "female" {
          sex := Female;
        } else {
          return Err(InvalidField);
        }
        var animal := AnimalAlive.Born(name, sex);
        rdr.Seek();
        return Ok(Some(animal));
      }
      LookupPass(r, |rdr.header|, name);
    }
    rdr.Seek();
    return Ok(None);
  }

  /** `has_both_sexes`: rewinds when it answers, true or false. */
  method HasBothSexes(rdr: Reader, name: string) returns (res: Result<bool>)
    requires rdr.Valid() && |rdr.header| >= 2
    modifies rdr
    ensures rdr.Valid()
    ensures res == BothScan(old(rdr.Remaining()), |rdr.header|, name).result
    ensures res.Ok? ==> rdr.rewound && rdr.pos == 0
    ensures res.Err? ==> rdr.rewound == old(rdr.rewound)
                         && rdr.pos == old(rdr.pos) + BothScan(old(rdr.Remaining()), |rdr.header|, name).read
  {
    var maleExists := false;
    var femaleExists := false;
    ghost var start := rdr.pos;
    ghost var total := BothScan(rdr.Remaining(), |rdr.header|, name);
    while true
      invariant rdr.Valid() && rdr.rewound == old(rdr.rewound) && rdr.Stream() == old(rdr.Stream())
      invariant start <= rdr.pos
      invariant !(maleExists && femaleExists)
      invariant total.result == BothFrom(rdr.Remaining(), |rdr.header|, name, maleExists, femaleExists).result
      invariant total.read == rdr.pos - start + BothFrom(rdr.Remaining(), |rdr.header|, name, maleExists, femaleExists).read
      decreases |rdr.Stream()| - rdr.pos
    {
      ghost var r := rdr.Remaining();
      var next := rdr.Next();
      if next.None? {
        break;
      }
      if next.value.Err? {
        BothStop(r, |rdr.header|, name, maleExists, femaleExists);
        return Err(next.value.error);
      }
      var row := next.value.value;
      ghost var male, female := maleExists, femaleExists;
      if row[0] == name {
        if row[1] == "male" {
          maleExists := true;
        } else if row[1] == "female" {
          femaleExists := true;
        } else {
          BothStop(r, |rdr.header|, name, male, female);
          return Err(InvalidField);
        }
      }
      if maleExists && femaleExists {
        BothStop(r, |rdr.header|, name, male, female);
        rdr.Seek();
        return Ok(true);
      }
      BothPass(r, |rdr.header|, name, male, female, maleExists, femaleExists);
    }
    rdr.Seek();
    return Ok(false);
  }

  /** `count_animal` of this reader: the same count, but no rewind; a
      successful count leaves the cursor at the end of the file. */
  method CountAnimal(rdr: Reader, name: string) returns (res: Result<nat>)
    requires rdr.Valid() && |rdr.header| >= 1
    modifies rdr
    ensures rdr.Valid() && rdr.rewound == old(rdr.rewound)
    ensures res == CountScan(old(rdr.Remaining()), |rdr.header|, name).result
    ensures rdr.pos == old(rdr.pos) + CountScan(old(rdr.Remaining()), |rdr.header|, name).read
    ensures res.Ok? ==> rdr.pos == |rdr.Stream()|
  {
    var count := 0;
    ghost var start := rdr.pos;
    ghost var total := CountScan(rdr.Remaining(), |rdr.header|, name);
    while true
      invariant rdr.Valid() && rdr.rewound == old(rdr.rewound) && rdr.Stream() == old(rdr.Stream())
      invariant start <= rdr.pos
      invariant total.result == CountFrom(rdr.Remaining(), |rdr.header|, name, count).result
      invariant total.read == rdr.pos - start + CountFrom(rdr.Remaining(), |rdr.header|, name, count).read
      decreases |rdr.Stream()| - rdr.pos
    {
      ghost var r := rdr.Remaining();
      var next := rdr.Next();
      if next.None? {
        break;
      }
      CountStep(r, |rdr.header|, name, count);
      if next.value.Err? {
        return Err(next.value.error);
      }
      var row := next.value.value;
      if row[0] == name {
        count := count + 1;
      }
    }
    return Ok(count);
  }

  /** `animal_alive_in_file`: whether the lookup found a record. */
  method AnimalAliveInFile(rdr: Reader, name: string) returns (res: Result<bool>)
    requires rdr.Valid() && |rdr.header| >= 2
    modifies rdr
    ensures rdr.Valid()
    ensures var r := Lookup(old(rdr.Remaining()), |rdr.header|, name).result;
      res == if r.Ok? then Ok(r.value.Some?) else Err(r.error)
    ensures res.Ok? ==> rdr.rewound && rdr.pos == 0
  {
    var found := ReadAnimalAlive(rdr, name);
    match found
    case Err(e) => return Err(e);
    case Ok(animal) => return Ok(animal.Some?);
  }

  /** Two lookups of a name other than the header's first column, from the
      start of the file: the first rewinds, so the second gives the same
      answer. */
  method LookupTwice(rdr: Reader, name: string) returns (first: Result<Option<AnimalAlive>>, second: Result<Option<AnimalAlive>>)
    requires rdr.Valid() && rdr.pos == 0 && |rdr.header| >= 2 && rdr.header[0] != name
    modifies rdr
    ensures first.Ok? ==> second == first
  {
    ghost var s := rdr.body;
    first := ReadAnimalAlive(rdr, name);
    if first.Ok? {
      LookupPastHeader(rdr.header, s, name);
    }
    second := ReadAnimalAlive(rdr, name);
  }

  /** The file of the sexes test: snake female and male, chameleon male twice. */
  function SexesTestFile(): Table
  {
    Table(["name", "sex"], [Record(["snake", "female"]), Record(["snake", "male"]),
                            Record(["chameleon", "male"]), Record(["chameleon", "male"])])
  }

  lemma SnakeHasBothSexes()
    ensures BothScan(SexesTestFile().lines, 2, "snake") == Scan(Ok(true), 2)
  {
    var s := SexesTestFile().lines;
    assert s[1..][0] == Record(["snake", "male"]);
  }

  lemma ChameleonLacksAFemale()
    ensures BothScan(SexesTestFile().lines, 2, "chameleon").result == Ok(false)
  {
    var s := SexesTestFile().lines;
    assert Clean(s, 2, "chameleon") by {
      forall j | 0 <= j < |s| ensures Readable(2, s[j]) { }
    }
    BothScanClean(s, 2, "chameleon");
    assert !HasSex(s, "chameleon", Female) by {
      forall j | 0 <= j < |s| ensures !IsOf(s[j], "chameleon", Female) { }
    }
  }

  /** `has_both_sexes` on that file: true for snake; the reader rewinds, and
      chameleon, with two males, gives false. */
  method BothSexesTest() returns (snake: Result<bool>, chameleon: Result<bool>)
    ensures snake == Ok(true) && chameleon == Ok(false)
  {
    var t := SexesTestFile();
    var rdr := new Reader.Open(t);
    SnakeHasBothSexes();
    ChameleonLacksAFemale();
    snake := HasBothSexes(rdr, "snake");
    BothPastHeader(t.header, t.lines, "chameleon");
    chameleon := HasBothSexes(rdr, "chameleon");
  }

  /** The file of the lookup test: snake and chameleon are alive, cow and
      rabbit are not; every query rewinds for the next. */
  method InFileTest() returns (snake: Result<bool>, cow: Result<bool>, rabbit: Result<bool>, chameleon: Result<bool>)
    ensures snake == Ok(true) && cow == Ok(false) && rabbit == Ok(false) && chameleon == Ok(true)
  {
    var t := Table(["name", "sex"], [Record(["snake", "female"]), Record(["chameleon", "male"])]);
    var rdr := new Reader.Open(t);
    snake := AnimalAliveInFile(rdr, "snake");
    cow := AnimalAliveInFile(rdr, "cow");
    rabbit := AnimalAliveInFile(rdr, "rabbit");
    chameleon := AnimalAliveInFile(rdr, "chameleon");
  }
}
