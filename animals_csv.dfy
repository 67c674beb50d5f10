/**
 * The older revision's file: one `name,class,preys,predators,sex` record per
 * animal, and a lookup that does not rewind.
 */
module AnimalsCsv {
  import opened Csv
  import opened Hyphenated
  import opened AnimalStructs
  import opened Animals
  import opened CustomStringMethods
  import AliveCsv

  /** `to_csv`. */
  function ToCsv(a: Animal): (row: Row)
    ensures |row| == 5 && row[0] == a.name
    ensures ToClass(row[1]) == Ok(a.animalClass)
    ensures row[2] == Join(a.preys) && row[3] == Join(a.predators)
    ensures AliveCsv.DecodeSex(row[4]) == Ok(a.sex)
  {
    ToClassOfTag(a.animalClass);
    [a.name, a.ClassStr(), a.PreysStr(), a.PredatorsStr(), a.SexStr()]
  }

  /** A record whose class and sex columns hold known tags; any other
      record keyed by the name looked up panics the reader. */
  predicate Decodable(row: Row)
  {
    |row| >= 5 && ToClass(row[1]).Ok? && AliveCsv.DecodeSex(row[4]).Ok?
  }

  /** The decoding arm of `read_animal`. */
  function Decode(name: string, row: Row): (a: Animal)
    requires Decodable(row)
    ensures a.name == name && ClassTag(a.animalClass) == row[1] && SexTag(a.sex) == row[4]
    ensures Join(a.preys) == row[2] && Join(a.predators) == row[3]
    ensures |a.preys| >= 1 && |a.predators| >= 1
    ensures NoHyphens(a.preys) && NoHyphens(a.predators)
  {
    JoinSplit(row[2]);
    JoinSplit(row[3]);
    Animal.Born(name, ToClass(row[1]).value, Split(row[3]), Split(row[2]), AliveCsv.DecodeSex(row[4]).value)
  }

  /** Decoding a written record gives the animal back, provided both lists
      are non-empty and no element contains '-'. */
  lemma DecodeToCsv(a: Animal)
    requires |a.preys| >= 1 && NoHyphens(a.preys)
    requires |a.predators| >= 1 && NoHyphens(a.predators)
    ensures Decodable(ToCsv(a)) && Decode(a.name, ToCsv(a)) == a
  {
    SplitJoin(a.preys);
    SplitJoin(a.predators);
  }

  /** The lookup does not panic: the line it stops at, if it reads, holds
      known tags. */
  predicate NoPanic(s: seq<Line>, width: nat, name: string)
  {
    var i := FirstStop(s, width, name);
    i < |s| && Readable(width, s[i]) ==> Decodable(s[i].fields)
  }

  /** The loop of `read_animal` over the lines from the cursor on. */
  function Lookup(s: seq<Line>, width: nat, name: string): (sc: Scan<Option<Animal>>)
    requires width >= 5 && NoPanic(s, width, name)
    ensures sc.read <= |s|
  {
    if s == [] then Scan(Ok(None), 0)
    else match ReadRecord(width, s[0])
      case Err(e) => Scan(Err(e), 1)
      case Ok(row) =>
        if row[0] == name then Scan(Ok(Some(Decode(name, row))), 1)
        else Shift(Lookup(s[1..], width, name), 1)
  }

  /** The lookup ends at the first line that does not read or is keyed
      `name`, and reads nothing after it. */
  lemma {:induction false} LookupFirstStop(s: seq<Line>, width: nat, name: string)
    requires width >= 5 && NoPanic(s, width, name)
    ensures var i := FirstStop(s, width, name);
      && (i == |s| ==> Lookup(s, width, name) == Scan(Ok(None), |s|))
      && (i < |s| && !Readable(width, s[i]) ==> Lookup(s, width, name) == Scan(Err(ReadFailed), i + 1))
      && (i < |s| && Readable(width, s[i]) ==> Lookup(s, width, name) == Scan(Ok(Some(Decode(name, s[i].fields))), i + 1))
    decreases |s|
  {
    if s != [] && !Stops(width, s[0], name) {
      LookupFirstStop(s[1..], width, name);
    }
  }

  /** Passing a line the lookup does not stop at. */
  lemma LookupSkips(s: seq<Line>, width: nat, name: string)
    requires width >= 5 && NoPanic(s, width, name)
    requires s != [] && !Stops(width, s[0], name)
    ensures NoPanic(s[1..], width, name)
    ensures Lookup(s, width, name) == Shift(Lookup(s[1..], width, name), 1)
  {
    assert FirstStop(s, width, name) == 1 + FirstStop(s[1..], width, name);
  }

  /** The lookup loop stopping at the first of the lines `s`. */
  lemma LookupStop(s: seq<Line>, width: nat, name: string)
    requires width >= 5 && s != [] && NoPanic(s, width, name)
    ensures !Readable(width, s[0]) ==> Lookup(s, width, name) == Scan(Err(ReadFailed), 1)
    ensures Readable(width, s[0]) && s[0].fields[0] == name ==>
              Decodable(s[0].fields) && Lookup(s, width, name) == Scan(Ok(Some(Decode(name, s[0].fields))), 1)
  {
  }

  /** The lookup loop passing the first of the lines `s`. */
  lemma LookupPass(s: seq<Line>, width: nat, name: string)
    requires width >= 5 && s != [] && NoPanic(s, width, name) && Readable(width, s[0]) && s[0].fields[0] != name
    ensures NoPanic(s[1..], width, name)
    ensures Lookup(s, width, name).result == Lookup(s[1..], width, name).result
    ensures Lookup(s, width, name).read == 1 + Lookup(s[1..], width, name).read
  {
    LookupSkips(s, width, name);
  }

  /** `write_animal_csv`: one five-field record appended. */
  method WriteAnimalCsv(file: CsvFile, a: Animal)
    modifies file
    ensures file.table == Table(old(file.table.header), old(file.table.lines) + [Record(ToCsv(a))])
  {
    file.Append(ToCsv(a));
  }

  /** `read_animal`: the first record of `name`, decoded. There is no
      rewind: the cursor stays after the line the lookup stopped at. */
  method ReadAnimal(rdr: Reader, name: string) returns (res: Result<Option<Animal>>)
    requires rdr.Valid() && |rdr.header| >= 5 && NoPanic(rdr.Remaining(), |rdr.header|, name)
    modifies rdr
    ensures rdr.Valid() && rdr.rewound == old(rdr.rewound) && rdr.Stream() == old(rdr.Stream())
    ensures res == Lookup(old(rdr.Remaining()), |rdr.header|, name).result
    ensures rdr.pos == old(rdr.pos) + Lookup(old(rdr.Remaining()), |rdr.header|, name).read
  {
    ghost var start := rdr.pos;
    ghost var total := Lookup(rdr.Remaining(), |rdr.header|, name);
    while true
      invariant rdr.Valid() && rdr.rewound == old(rdr.rewound) && rdr.Stream() == old(rdr.Stream())
      invariant start <= rdr.pos
      invariant NoPanic(rdr.Remaining(), |rdr.header|, name)
      invariant total.result == Lookup(rdr.Remaining(), |rdr.header|, name).result
      invariant total.read == rdr.pos - start + Lookup(rdr.Remaining(), |rdr.header|, name).read
      decreases |rdr.Stream()| - rdr.pos
    {
      ghost var r := rdr.Remaining();
      var next := rdr.Next();
      if next.None? {
        break;
      }
      if next.value.Err? {
        LookupStop(r, |rdr.header|, name);
        return Err(next.value.error);
      }
      var row := next.value.value;
      if row[0] == name {
        LookupStop(r, |rdr.header|, name);
        return Ok(Some(Decode(name, row)));
      }
      LookupPass(r, |rdr.header|, name);
    }
    return Ok(None);
  }

  /** Every record of `s` decodes. */
  predicate AllDecodable(s: seq<Line>)
  {
    forall j :: 0 <= j < |s| ==> s[j].Record? ==> Decodable(s[j].fields)
  }

  lemma DecodableNoPanic(s: seq<Line>, width: nat, name: string)
    requires AllDecodable(s)
    ensures NoPanic(s, width, name)
  {
  }

  lemma DecodableSuffix(s: seq<Line>, k: nat)
    requires AllDecodable(s) && k <= |s|
    ensures AllDecodable(s[k..])
  {
    forall j | 0 <= j < |s[k..]| ensures s[k..][j] == s[k + j] { }
  }

  /** The two lookups of the program's entry point on one reader: the
      second starts where the first stopped. */
  method LookupTwice(rdr: Reader, first: string, second: string) returns (a: Result<Option<Animal>>, b: Result<Option<Animal>>)
    requires rdr.Valid() && |rdr.header| >= 5
    requires AllDecodable(rdr.Remaining())
    modifies rdr
    ensures var sc := Lookup(old(rdr.Remaining()), |rdr.header|, first);
      && a == sc.result
      && (a.Ok? ==> b == Lookup(old(rdr.Remaining())[sc.read..], |rdr.header|, second).result)
  {
    ghost var s := rdr.Remaining();
    DecodableNoPanic(s, |rdr.header|, first);
    a := ReadAnimal(rdr, first);
    if a.Err? {
      // the entry point stops with the error
      b := Err(a.error);
      return;
    }
    DecodableSuffix(s, Lookup(s, |rdr.header|, first).read);
    assert rdr.Remaining() == s[Lookup(s, |rdr.header|, first).read..];
    DecodableNoPanic(rdr.Remaining(), |rdr.header|, second);
    b := ReadAnimal(rdr, second);
  }

  /** Two written records: a lookup for the second one's name decodes it
      after reading both lines. */
  lemma FoundSecond(x: Animal, y: Animal)
    requires x.name != y.name
    requires |x.preys| >= 1 && NoHyphens(x.preys) && |x.predators| >= 1 && NoHyphens(x.predators)
    requires |y.preys| >= 1 && NoHyphens(y.preys) && |y.predators| >= 1 && NoHyphens(y.predators)
    ensures var s := [Record(ToCsv(x)), Record(ToCsv(y))];
      && NoPanic(s, 5, y.name)
      && (forall j :: 0 <= j < |s| ==> Decodable(s[j].fields))
      && Lookup(s, 5, y.name) == Scan(Ok(Some(y)), 2)
  {
    DecodeToCsv(x);
    DecodeToCsv(y);
    var s := [Record(ToCsv(x)), Record(ToCsv(y))];
    assert s[1..] == [Record(ToCsv(y))];
    assert FirstStop(s, 5, y.name) == 1;
    LookupFirstStop(s, 5, y.name);
  }

  /** Both models have non-empty lists of hyphen-free names. */
  lemma ModelsWellFormed()
    ensures CowModel().name != SnakeModel().name
    ensures |CowModel().preys| >= 1 && NoHyphens(CowModel().preys)
    ensures |CowModel().predators| >= 1 && NoHyphens(CowModel().predators)
    ensures |SnakeModel().preys| >= 1 && NoHyphens(SnakeModel().preys)
    ensures |SnakeModel().predators| >= 1 && NoHyphens(SnakeModel().predators)
  {
  }

  /** Once the snake has been found, a lookup for the cow on the same reader
      sees only the lines after the snake's record: the cow, written
      before it, is not found. */
  method SnakeThenCow() returns (snake: Result<Option<Animal>>, cow: Result<Option<Animal>>)
    ensures snake == Ok(Some(SnakeModel())) && cow == Ok(None)
  {
    ModelsWellFormed();
    var x, y := CowModel(), SnakeModel();
    FoundSecond(x, y);
    var t := Table(["name", "class", "preys", "predators", "sex"], [Record(ToCsv(x)), Record(ToCsv(y))]);
    var rdr := new Reader.Open(t);
    assert t.lines[2..] == [];
    snake, cow := LookupTwice(rdr, y.name, x.name);
  }
}
