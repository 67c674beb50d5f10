/**
 * The file of species data: one `name,class,preys,predators` record per
 * species, lists joined with '-'.
 */
module DataCsv {
  import opened Csv
  import opened Hyphenated
  import opened AnimalStructs
  import opened CustomStringMethods

  /** `to_data_csv`: preys go in column 2 and predators in column 3, whatever
      the header row calls those columns. */
  function ToDataCsv(d: AnimalData): (row: Row)
    ensures |row| == 4 && row[0] == d.name
    ensures ToClass(row[1]) == Ok(d.animalClass)
    ensures row[2] == Join(d.preys) && row[3] == Join(d.predators)
  {
    ToClassOfTag(d.animalClass);
    [d.name, d.ClassStr(), d.PreysStr(), d.PredatorsStr()]
  }

  /** The decoding arm of `read_animal_data` for a record keyed `name`. */
  function DecodeData(name: string, row: Row): (r: Result<AnimalData>)
    requires |row| >= 4
    ensures r.Err? <==> ToClass(row[1]).Err?
    ensures r.Err? ==> r.error == InvalidField
    ensures r.Ok? ==> r.value.name == name && ClassTag(r.value.animalClass) == row[1]
    ensures r.Ok? ==> Join(r.value.preys) == row[2] && Join(r.value.predators) == row[3]
    ensures r.Ok? ==> |r.value.preys| >= 1 && |r.value.predators| >= 1
    ensures r.Ok? ==> NoHyphens(r.value.preys) && NoHyphens(r.value.predators)
  {
    JoinSplit(row[2]);
    JoinSplit(row[3]);
    match ToClass(row[1])
    case Err(e) => Err(e)
    case Ok(c) => Ok(AnimalData.New(name, c, Split(row[3]), Split(row[2])))
  }

  /** Decoding a written record gives the species back, provided both lists
      are non-empty and no element contains '-'. */
  lemma DecodeToDataCsv(d: AnimalData)
    requires |d.preys| >= 1 && NoHyphens(d.preys)
    requires |d.predators| >= 1 && NoHyphens(d.predators)
    ensures DecodeData(d.name, ToDataCsv(d)) == Ok(d)
  {
    SplitJoin(d.preys);
    SplitJoin(d.predators);
  }

  /** An empty list is written as "" and read back as one empty name. */
  lemma EmptyListReadsBackAsEmptyName(name: string, c: Class)
    ensures DecodeData(name, ToDataCsv(AnimalData(name, c, [], []))) == Ok(AnimalData(name, c, [""], [""]))
  {
  }

  /** The loop of `read_animal_data` over the lines from the cursor on. */
  function Lookup(s: seq<Line>, width: nat, name: string): (sc: Scan<Option<AnimalData>>)
    requires width >= 4
    ensures sc.read <= |s|
    ensures sc.result.Ok? && sc.result.value.Some? ==>
              var d := sc.result.value.value;
              d.name == name && |d.preys| >= 1 && |d.predators| >= 1
  {
    if s == [] then Scan(Ok(None), 0)
    else match ReadRecord(width, s[0])
      case Err(e) => Scan(Err(e), 1)
      case Ok(row) =>
        if row[0] == name then
          match DecodeData(name, row)
          case Ok(d) => Scan(Ok(Some(d)), 1)
          case Err(e) => Scan(Err(e), 1)
        else Shift(Lookup(s[1..], width, name), 1)
  }

  /** The lookup ends at the first line that does not read or is keyed
      `name`: nothing there means None, a line that does not read is an
      error, and a matching record is decoded, an unknown class being an
      error. Nothing after it is read. */
  lemma {:induction false} LookupFirstStop(s: seq<Line>, width: nat, name: string)
    requires width >= 4
    ensures var i := FirstStop(s, width, name);
      && (i == |s| ==> Lookup(s, width, name) == Scan(Ok(None), |s|))
      && (i < |s| && !Readable(width, s[i]) ==> Lookup(s, width, name) == Scan(Err(ReadFailed), i + 1))
      && (i < |s| && Readable(width, s[i]) ==>
            Lookup(s, width, name) ==
              Scan(match DecodeData(name, s[i].fields)
                   case Ok(d) => Ok(Some(d))
                   case Err(e) => Err(e), i + 1))
    decreases |s|
  {
    if s != [] && !Stops(width, s[0], name) {
      LookupFirstStop(s[1..], width, name);
    }
  }

  /** None exactly when every line reads and none is keyed `name`. */
  lemma LookupNone(s: seq<Line>, width: nat, name: string)
    requires width >= 4
    ensures Lookup(s, width, name).result == Ok(None) <==> forall j :: 0 <= j < |s| ==> !Stops(width, s[j], name)
  {
    LookupFirstStop(s, width, name);
  }

  /** A record written for `d` is found by its name once every line before
      it reads and has another name. */
  lemma {:induction false} LookupFindsWritten(pre: seq<Line>, d: AnimalData, post: seq<Line>)
    requires forall j :: 0 <= j < |pre| ==> !Stops(4, pre[j], d.name)
    ensures Lookup(pre + [Record(ToDataCsv(d))] + post, 4, d.name).result.Ok?
    ensures Lookup(pre + [Record(ToDataCsv(d))] + post, 4, d.name).result.value.Some?
    decreases |pre|
  {
    var s := pre + [Record(ToDataCsv(d))] + post;
    if pre == [] {
      assert s[0] == Record(ToDataCsv(d));
    } else {
      assert s[0] == pre[0];
      assert s[1..] == pre[1..] + [Record(ToDataCsv(d))] + post;
      LookupFindsWritten(pre[1..], d, post);
    }
  }

  lemma LookupPastHeader(header: Row, s: seq<Line>, name: string)
    requires |header| >= 4 && header[0] != name
    ensures Lookup([Record(header)] + s, |header|, name).result == Lookup(s, |header|, name).result
  {
    assert ([Record(header)] + s)[1..] == s;
  }

  /** The lookup loop stopping at the first of the lines `s`. */
  lemma LookupStop(s: seq<Line>, width: nat, name: string)
    requires width >= 4 && s != []
    ensures !Readable(width, s[0]) ==> Lookup(s, width, name) == Scan(Err(ReadFailed), 1)
    ensures Readable(width, s[0]) && s[0].fields[0] == name && DecodeData(name, s[0].fields).Err? ==>
              Lookup(s, width, name) == Scan(Err(InvalidField), 1)
    ensures Readable(width, s[0]) && s[0].fields[0] == name && DecodeData(name, s[0].fields).Ok? ==>
              Lookup(s, width, name) == Scan(Ok(Some(DecodeData(name, s[0].fields).value)), 1)
  {
  }

  /** The lookup loop passing the first of the lines `s`. */
  lemma LookupPass(s: seq<Line>, width: nat, name: string)
    requires width >= 4 && s != [] && Readable(width, s[0]) && s[0].fields[0] != name
    ensures Lookup(s, width, name).result == Lookup(s[1..], width, name).result
    ensures Lookup(s, width, name).read == 1 + Lookup(s[1..], width, name).read
  {
  }

  /** `write_animal_data_file`: one record appended. */
  method WriteAnimalDataFile(file: CsvFile, d: AnimalData)
    modifies file
    ensures file.table == Table(old(file.table.header), old(file.table.lines) + [Record(ToDataCsv(d))])
  {
    file.Append(ToDataCsv(d));
  }

  /** `read_animal_data`: the first record of `name`, decoded; rewinds when
      it answers, and leaves the cursor after the failing line on an error. */
  method ReadAnimalData(rdr: Reader, name: string) returns (res: Result<Option<AnimalData>>)
    requires rdr.Valid() && |rdr.header| >= 4
    modifies rdr
    ensures rdr.Valid()
    ensures res == Lookup(old(rdr.Remaining()), |rdr.header|, name).result
    ensures res.Ok? ==> rdr.rewound && rdr.pos == 0
    ensures res.Err? ==> rdr.rewound == old(rdr.rewound)
                         && rdr.pos == old(rdr.pos) + Lookup(old(rdr.Remaining()), |rdr.header|, name).read
  {
    ghost var start := rdr.pos;
    ghost var total := Lookup(rdr.Remaining(), |rdr.header|, name);
    while true
      invariant rdr.Valid() && rdr.rewound == old(rdr.rewound) && rdr.Stream() == old(rdr.Stream())
      invariant start <= rdr.pos
      invariant total.result == Lookup(rdr.Remaining(), |rdr.header|, name).result
      invariant total.read == rdr.pos - start + Lookup(rdr.Remaining(), |rdr.header|, name).read
      decreases |rdr.Stream()| - rdr.pos
    {
      ghost var r := rdr.Remaining();
      var next := rdr.Next();
      if next.None? {
        break;
      }
      if next.value.Err? {
        LookupStop(r, |rdr.header|, name);
        return Err(next.value.error);
      }
      var row := next.value.value;
      if row[0] == name {
        LookupStop(r, |rdr.header|, name);
        var c := ToClass(row[1]);
        if c.Err? {
          return Err(c.error);
        }
        var preys := Split(row[2]);
        var predators := Split(row[3]);
        var animal := AnimalData.New(name, c.value, predators, preys);
        rdr.Seek();
        return Ok(Some(animal));
      }
      LookupPass(r, |rdr.header|, name);
    }
    rdr.Seek();
    return Ok(None);
  }

  /** `animal_data_in_file`: whether the lookup found a record. */
  method AnimalDataInFile(rdr: Reader, name: string) returns (res: Result<bool>)
    requires rdr.Valid() && |rdr.header| >= 4
    modifies rdr
    ensures rdr.Valid()
    ensures var r := Lookup(old(rdr.Remaining()), |rdr.header|, name).result;
      res == if r.Ok? then Ok(r.value.Some?) else Err(r.error)
    ensures res.Ok? ==> rdr.rewound && rdr.pos == 0
  {
    var found := ReadAnimalData(rdr, name);
    match found
    case Err(e) => return Err(e);
    case Ok(animal) => return Ok(animal.Some?);
  }

  function SnakeData(): AnimalData
  {
    AnimalData("snake", Reptile, ["eagle", "mongoose"], ["rat", "squirrel"])
  }

  function ChameleonData(): AnimalData
  {
    AnimalData("chameleon", Reptile, ["bird", "snake"], ["mantids", "crickets"])
  }

  /** The file of the lookup test, written through `to_data_csv`. */
  function DataTestFile(): Table
  {
    Table(["name", "class", "predators", "preys"], [Record(ToDataCsv(SnakeData())), Record(ToDataCsv(ChameleonData()))])
  }

  lemma SnakeIsFound()
    ensures Lookup(DataTestFile().lines, 4, "snake").result == Ok(Some(SnakeData()))
  {
    DecodeToDataCsv(SnakeData());
    var s := DataTestFile().lines;
    assert s[0] == Record(ToDataCsv(SnakeData()));
  }

  lemma ChameleonIsFound()
    ensures Lookup(DataTestFile().lines, 4, "chameleon").result == Ok(Some(ChameleonData()))
  {
    DecodeToDataCsv(ChameleonData());
    var s := DataTestFile().lines;
    assert s[0] == Record(ToDataCsv(SnakeData()));
    assert !Stops(4, s[0], "chameleon");
    assert s[1..] == [Record(ToDataCsv(ChameleonData()))];
    assert Lookup(s, 4, "chameleon") == Shift(Lookup(s[1..], 4, "chameleon"), 1);
  }

  lemma OthersAreNotFound(name: string)
    requires name != "snake" && name != "chameleon"
    ensures Lookup(DataTestFile().lines, 4, name).result == Ok(None)
  {
    var s := DataTestFile().lines;
    LookupNone(s, 4, name);
  }

  /** snake and chameleon are registered, cow and rabbit are not; every
      query rewinds for the next. */
  method InFileTest() returns (snake: Result<bool>, cow: Result<bool>, rabbit: Result<bool>, chameleon: Result<bool>)
    ensures snake == Ok(true) && cow == Ok(false) && rabbit == Ok(false) && chameleon == Ok(true)
  {
    var t := DataTestFile();
    SnakeIsFound();
    ChameleonIsFound();
    OthersAreNotFound("cow");
    OthersAreNotFound("rabbit");
    var rdr := new Reader.Open(t);
    snake := AnimalDataInFile(rdr, "snake");
    LookupPastHeader(t.header, t.lines, "cow");
    cow := AnimalDataInFile(rdr, "cow");
    LookupPastHeader(t.header, t.lines, "rabbit");
    rabbit := AnimalDataInFile(rdr, "rabbit");
    LookupPastHeader(t.header, t.lines, "chameleon");
    chameleon := AnimalDataInFile(rdr, "chameleon");
  }
}
