/**
 * The commands of the record store, over its two files: species data and
 * living individuals. Every query opens a fresh reader; random choices are
 * free choices among the allowed values.
 */
module Commands {
  import opened Csv
  import opened AnimalStructs
  import AliveCsv
  import DataCsv
  import SharedCsv

  /** Which answer a command gave; the message text is not modelled. */
  datatype Reply =
    | AlreadyExists(name: string)
    | DataAdded(name: string)
    | Extinct(name: string)
    | Description(data: AnimalData)
    | AnimalNotFound
    | DoesNotExist(name: string)
    | Borned(name: string, sex: Sex)
    | NotAlive(name: string)
    | LacksBothSexes(name: string)
    | KilledBy(name: string, predator: string)
    | Delicious(prey: string)
    | Population(count: nat, name: string)

  const DataHeader: Row := ["name", "class", "predators", "preys"]
  const AliveHeader: Row := ["name", "sex"]

  /** Whether a species data file holds a record of `name`. */
  function RegisteredIn(t: Table, name: string): Result<bool>
    requires |t.header| >= 4
  {
    var r := DataCsv.Lookup(t.lines, |t.header|, name).result;
    if r.Ok? then Ok(r.value.Some?) else Err(r.error)
  }

  /** Whether a file of living individuals holds a record of `name`. */
  function AliveIn(t: Table, name: string): Result<bool>
    requires |t.header| >= 2
  {
    var r := AliveCsv.Lookup(t.lines, |t.header|, name).result;
    if r.Ok? then Ok(r.value.Some?) else Err(r.error)
  }

  /** The number of living individuals named `name`. */
  function Living(t: Table, name: string): nat
  {
    CountKey(RowsOf(t.lines), 0, name)
  }

  /** A species written after a lookup found none is found afterwards. */
  lemma RegisteredAfterAppend(t: Table, d: AnimalData)
    requires |t.header| == 4 && RegisteredIn(t, d.name) == Ok(false)
    ensures RegisteredIn(Table(t.header, t.lines + [Record(DataCsv.ToDataCsv(d))]), d.name) == Ok(true)
  {
    DataCsv.LookupNone(t.lines, 4, d.name);
    DataCsv.LookupFindsWritten(t.lines, d, []);
    assert t.lines + [Record(DataCsv.ToDataCsv(d))] + [] == t.lines + [Record(DataCsv.ToDataCsv(d))];
  }

  /** An individual written after a lookup found none is found afterwards. */
  lemma AliveAfterAppend(t: Table, a: AnimalAlive)
    requires |t.header| == 2 && AliveIn(t, a.name) == Ok(false)
    ensures AliveIn(Table(t.header, t.lines + [Record(AliveCsv.ToAliveCsv(a))]), a.name) == Ok(true)
  {
    AliveCsv.LookupNone(t.lines, 2, a.name);
    AliveCsv.LookupFindsWritten(t.lines, a, []);
    assert t.lines + [Record(AliveCsv.ToAliveCsv(a))] + [] == t.lines + [Record(AliveCsv.ToAliveCsv(a))];
  }

  lemma {:induction false} CountKeyPositive(rows: seq<Row>, j: nat, name: string)
    requires j < |rows| && KeyAt(rows[j], 0, name)
    ensures CountKey(rows, 0, name) > 0
    decreases j
  {
    if j > 0 {
      CountKeyPositive(rows[1..], j - 1, name);
    }
  }

  /** A name the lookup finds alive has at least one record. */
  lemma AliveHasPopulation(t: Table, name: string)
    requires |t.header| == 2 && AliveIn(t, name) == Ok(true)
    ensures Living(t, name) > 0
  {
    AliveCsv.LookupFirstStop(t.lines, 2, name);
    var i := FirstStop(t.lines, 2, name);
    CountKeyPositive(RowsOf(t.lines), i, name);
  }

  /** After every record of `name` is dropped, a lookup finds none. */
  lemma NotRegisteredAfterDelete(rows: seq<Row>, name: string)
    requires Rectangular(4, rows)
    ensures RegisteredIn(Table(DataHeader, Records(SharedCsv.Without(rows, 0, name))), name) == Ok(false)
  {
    var left := SharedCsv.Without(rows, 0, name);
    assert Rectangular(4, left) by {
      forall j | 0 <= j < |left| ensures |left[j]| == 4 {
        assert left[j] in rows;
      }
    }
    RowsOfRecords(left, 4);
    DataCsv.LookupNone(Records(left), 4, name);
    forall j | 0 <= j < |left| ensures !Stops(4, Records(left)[j], name) {
      assert left[j] in left;
    }
  }

  /** The two files the commands work on. */
  class Store {
    const data: CsvFile
    const alive: CsvFile

    ghost predicate Valid()
      reads this, data, alive
    {
      data != alive && data.table.header == DataHeader && alive.table.header == AliveHeader
    }

    constructor (data: CsvFile, alive: CsvFile)
      requires data != alive && data.table.header == DataHeader && alive.table.header == AliveHeader
      ensures this.data == data && this.alive == alive && Valid()
    {
      this.data := data;
      this.alive := alive;
    }

    /** `animal_data_registered`. */
    method AnimalDataRegistered(name: string) returns (res: Result<bool>)
      requires Valid()
      ensures res == RegisteredIn(data.table, name)
    {
      var reader := new Reader.Open(data.table);
      var found := DataCsv.ReadAnimalData(reader, name);
      res := if found.Ok? then Ok(found.value.Some?) else Err(found.error);
    }

    /** `animal_alive`. */
    method AnimalAlive(name: string) returns (res: Result<bool>)
      requires Valid()
      ensures res == AliveIn(alive.table, name)
    {
      var reader := new Reader.Open(alive.table);
      var found := AliveCsv.ReadAnimalAlive(reader, name);
      res := if found.Ok? then Ok(found.value.Some?) else Err(found.error);
    }

    /** `create_animal`: the species record is appended only when no record
        of that name is found. */
    method CreateAnimal(animal: AnimalData) returns (res: Result<Reply>)
      requires Valid()
      modifies data
      ensures Valid()
      ensures RegisteredIn(old(data.table), animal.name).Err? ==>
                res.Err? && data.table == old(data.table)
      ensures RegisteredIn(old(data.table), animal.name) == Ok(true) ==>
                res == Ok(AlreadyExists(animal.name)) && data.table == old(data.table)
      ensures RegisteredIn(old(data.table), animal.name) == Ok(false) ==>
                && res == Ok(DataAdded(animal.name))
                && data.table == Table(DataHeader, old(data.table.lines) + [Record(DataCsv.ToDataCsv(animal))])
                && RegisteredIn(data.table, animal.name) == Ok(true)
    {
      var registered := AnimalDataRegistered(animal.name);
      if registered.Err? {
        return Err(registered.error);
      }
      if registered.value {
        return Ok(AlreadyExists(animal.name));
      }
      RegisteredAfterAppend(data.table, animal);
      DataCsv.WriteAnimalDataFile(data, animal);
      return Ok(DataAdded(animal.name));
    }

    /** `delete_animal`: every species record of `name`, then every living
        record of `name`, each through the delete-all engine. The two files
        are changed one after the other: when the second delete fails the
        first has already been committed. */
    method DeleteAnimal(name: string, dataTempOk: bool, dataCommitOk: bool, aliveTempOk: bool, aliveCommitOk: bool)
      returns (res: Result<Reply>)
      requires Valid()
      modifies data, alive
      ensures Valid()
      ensures var dataOk := dataTempOk && dataCommitOk && AllReadable(4, old(data.table.lines));
        var aliveOk := aliveTempOk && aliveCommitOk && AllReadable(2, old(alive.table.lines));
        && (!dataOk ==> res.Err? && data.table == old(data.table) && alive.table == old(alive.table))
        && (dataOk ==> data.table == Table(DataHeader, Records(SharedCsv.Without(RowsOf(old(data.table.lines)), 0, name)))
                       && RegisteredIn(data.table, name) == Ok(false))
        && (dataOk && !aliveOk ==> res.Err? && alive.table == old(alive.table))
        && (dataOk && aliveOk ==>
              && res == Ok(Extinct(name))
              && alive.table == Table(AliveHeader, Records(SharedCsv.Without(RowsOf(old(alive.table.lines)), 0, name)))
              && Living(alive.table, name) == 0)
    {
      ghost var rows := RowsOf(data.table.lines);
      ghost var living := RowsOf(alive.table.lines);
      if AllReadable(4, data.table.lines) {
        RecordsOfRowsOf(data.table.lines, 4);
        NotRegisteredAfterDelete(rows, name);
      }
      var deleted := SharedCsv.DeleteAllAnimalsForPath(name, data, dataTempOk, dataCommitOk);
      if deleted.Err? {
        return Err(deleted.error);
      }
      if AllReadable(2, alive.table.lines) {
        RecordsOfRowsOf(alive.table.lines, 2);
        var left := SharedCsv.Without(living, 0, name);
        SharedCsv.SurvivorsDeleteAll(living, 0, name, false);
        SharedCsv.SurvivorsReadable(living, 2, 0, name, true);
        SharedCsv.WithoutCountsZero(living, 0, name);
      }
      var killed := SharedCsv.DeleteAllAnimalsForPath(name, alive, aliveTempOk, aliveCommitOk);
      if killed.Err? {
        return Err(killed.error);
      }
      return Ok(Extinct(name));
    }

    /** `read_animal`: the species record of `name`, or "not found". */
    method ReadAnimal(name: string) returns (res: Result<Reply>)
      requires Valid()
      ensures var r := DataCsv.Lookup(data.table.lines, 4, name).result;
        && (r.Err? ==> res == Err(r.error))
        && (r == Ok(None) ==> res == Ok(AnimalNotFound))
        && (r.Ok? && r.value.Some? ==> res == Ok(Description(r.value.value)))
    {
      var reader := new Reader.Open(data.table);
      var found := DataCsv.ReadAnimalData(reader, name);
      if found.Err? {
        return Err(found.error);
      }
      if found.value.None? {
        return Ok(AnimalNotFound);
      }
      return Ok(Description(found.value.value));
    }

    /** `spawn_animal`: an individual is appended only for a registered
        species. */
    method SpawnAnimal(name: string, sex: Sex) returns (res: Result<Reply>)
      requires Valid()
      modifies alive
      ensures Valid()
      ensures RegisteredIn(data.table, name).Err? ==> res.Err? && alive.table == old(alive.table)
      ensures RegisteredIn(data.table, name) == Ok(false) ==>
                res == Ok(DoesNotExist(name)) && alive.table == old(alive.table)
      ensures RegisteredIn(data.table, name) == Ok(true) ==>
                && res == Ok(Borned(name, sex))
                && alive.table == Table(AliveHeader, old(alive.table.lines) + [Record([name, SexTag(sex)])])
    {
      var registered := AnimalDataRegistered(name);
      if registered.Err? {
        return Err(registered.error);
      }
      if !registered.value {
        return Ok(DoesNotExist(name));
      }
      var animal := AnimalStructs.AnimalAlive.Born(name, sex);
      AliveCsv.WriteAnimalAliveFile(alive, animal);
      return Ok(Borned(name, sex));
    }

    /** `reproduce_animal`: a new individual of either sex is born when the
        name is alive, both sexes are present and the species is
        registered. */
    method ReproduceAnimal(name: string) returns (res: Result<Reply>)
      requires Valid()
      modifies alive
      ensures Valid()
      ensures AliveIn(old(alive.table), name).Err? ==> res.Err?
      ensures AliveIn(old(alive.table), name) == Ok(false) ==> res == Ok(NotAlive(name))
      ensures AliveIn(old(alive.table), name) == Ok(true) ==>
                var both := AliveCsv.BothScan(old(alive.table.lines), 2, name).result;
                && (both.Err? ==> res.Err?)
                && (both == Ok(false) ==> res == Ok(LacksBothSexes(name)))
                && (both == Ok(true) && RegisteredIn(data.table, name).Err? ==> res.Err?)
                && (both == Ok(true) && RegisteredIn(data.table, name) == Ok(false) ==> res == Ok(DoesNotExist(name)))
                && (both == Ok(true) && RegisteredIn(data.table, name) == Ok(true) ==>
                      res.Ok? && res.value.Borned? && res.value.name == name)
      ensures res.Ok? && res.value.Borned? ==>
                alive.table == Table(AliveHeader, old(alive.table.lines) + [Record([name, SexTag(res.value.sex)])])
      ensures !(res.Ok? && res.value.Borned?) ==> alive.table == old(alive.table)
    {
      var reader := new Reader.Open(alive.table);
      var isAlive := AnimalAlive(name);
      if isAlive.Err? {
        return Err(isAlive.error);
      }
      if !isAlive.value {
        return Ok(NotAlive(name));
      }
      var both := AliveCsv.HasBothSexes(reader, name);
      if both.Err? {
        return Err(both.error);
      }
      if !both.value {
        return Ok(LacksBothSexes(name));
      }
      var sex :| sex in [Male, Female];
      res := SpawnAnimal(name, sex);
    }

    /** `kill_animal`: a living individual of a registered species is killed
        by one of its predators; the first living record of the name is
        dropped through the delete-one engine. */
    method KillAnimal(name: string, tempOk: bool, commitOk: bool) returns (res: Result<Reply>)
      requires Valid()
      modifies alive
      ensures Valid()
      ensures AliveIn(old(alive.table), name).Err? ==> res.Err?
      ensures AliveIn(old(alive.table), name) == Ok(false) ==> res == Ok(NotAlive(name))
      ensures AliveIn(old(alive.table), name) == Ok(true) ==>
                var r := DataCsv.Lookup(data.table.lines, 4, name).result;
                && (r.Err? ==> res.Err?)
                && (r == Ok(None) ==> res == Ok(DoesNotExist(name)))
                && (r.Ok? && r.value.Some? && tempOk && commitOk && AllReadable(2, old(alive.table.lines)) ==>
                      && res.Ok? && res.value.KilledBy? && res.value.name == name
                      && res.value.predator in r.value.value.predators)
                && (r.Ok? && r.value.Some? && !(tempOk && commitOk && AllReadable(2, old(alive.table.lines))) ==>
                      res.Err?)
      ensures res.Ok? && res.value.KilledBy? ==>
                && alive.table == Table(AliveHeader, Records(SharedCsv.RemoveFirst(RowsOf(old(alive.table.lines)), 0, name)))
                && Living(alive.table, name) == Living(old(alive.table), name) - 1
      ensures !(res.Ok? && res.value.KilledBy?) ==> alive.table == old(alive.table)
    {
      var reader := new Reader.Open(data.table);
      var isAlive := AnimalAlive(name);
      if isAlive.Err? {
        return Err(isAlive.error);
      }
      if !isAlive.value {
        return Ok(NotAlive(name));
      }
      assert reader.Remaining() == data.table.lines;
      var found := DataCsv.ReadAnimalData(reader, name);
      if found.Err? {
        return Err(found.error);
      }
      if found.value.None? {
        return Ok(DoesNotExist(name));
      }
      var predators := found.value.value.predators;
      assert predators[0] in predators;
      var predator :| predator in predators;
      ghost var living := RowsOf(alive.table.lines);
      if AllReadable(2, alive.table.lines) {
        AliveHasPopulation(alive.table, name);
        RecordsOfRowsOf(alive.table.lines, 2);
        SharedCsv.SurvivorsDeleteOne(living, 0, name);
        SharedCsv.SurvivorsReadable(living, 2, 0, name, false);
        SharedCsv.RemoveFirstCounts(living, 0, name);
      }
      var killed := SharedCsv.DeleteOneAnimalForPath(name, alive, tempOk, commitOk);
      if killed.Err? {
        return Err(killed.error);
      }
      return Ok(KilledBy(name, predator));
    }

    /** `feed_animal`: a living individual of a registered species eats one
        of its preys; no file changes. */
    method FeedAnimal(name: string) returns (res: Result<Reply>)
      requires Valid()
      ensures AliveIn(alive.table, name).Err? ==> res.Err?
      ensures AliveIn(alive.table, name) == Ok(false) ==> res == Ok(NotAlive(name))
      ensures AliveIn(alive.table, name) == Ok(true) ==>
                var r := DataCsv.Lookup(data.table.lines, 4, name).result;
                && (r.Err? ==> res.Err?)
                && (r == Ok(None) ==> res == Ok(AnimalNotFound))
                && (r.Ok? && r.value.Some? ==> res.Ok? && res.value.Delicious? && res.value.prey in r.value.value.preys)
    {
      var reader := new Reader.Open(data.table);
      var isAlive := AnimalAlive(name);
      if isAlive.Err? {
        return Err(isAlive.error);
      }
      if !isAlive.value {
        return Ok(NotAlive(name));
      }
      assert reader.Remaining() == data.table.lines;
      var found := DataCsv.ReadAnimalData(reader, name);
      if found.Err? {
        return Err(found.error);
      }
      if found.value.None? {
        return Ok(AnimalNotFound);
      }
      var preys := found.value.value.preys;
      assert preys[0] in preys;
      var prey :| prey in preys;
      return Ok(Delicious(prey));
    }

    /** `count_animal`: how many living records carry the name. */
    method CountAnimal(name: string) returns (res: Result<Reply>)
      requires Valid()
      ensures AllReadable(2, alive.table.lines) ==> res == Ok(Population(Living(alive.table, name), name))
      ensures !AllReadable(2, alive.table.lines) ==> res == Err(ReadFailed)
    {
      var reader := new Reader.Open(alive.table);
      CountFromFails(alive.table.lines, 2, name, 0);
      if AllReadable(2, alive.table.lines) {
        CountScanCounts(alive.table.lines, 2, name);
      }
      var count := AliveCsv.CountAnimal(reader, name);
      if count.Err? {
        return Err(count.error);
      }
      return Ok(Population(count.value, name));
    }
  }
}
