/**
 * The entities of the record store: species data and living individuals,
 * with the tags their enums are written as.
 */
module AnimalStructs {
  import opened Hyphenated

  datatype Blood = Warm | Cold

  datatype Class = Reptile | Mammal | Fish | Bird | Arthropod | Amphibian

  datatype Sex = Male | Female

  predicate IsLowercase(s: string)
  {
    forall ch :: ch in s ==> 'a' <= ch <= 'z'
  }

  /** The lowercase name a class is written as. */
  function ClassTag(c: Class): (tag: string)
    ensures |tag| > 0 && IsLowercase(tag)
  {
    match c
    case Mammal => "mammal"
    case Bird => "bird"
    case Amphibian => "amphibian"
    case Arthropod => "arthropod"
    case Fish => "fish"
    case Reptile => "reptile"
  }

  /** Six classes, six different names. */
  lemma ClassTagInjective(c: Class, d: Class)
    ensures ClassTag(c) == ClassTag(d) <==> c == d
  {
    if c != d {
      assert ClassTag(c)[0] != ClassTag(d)[0] || |ClassTag(c)| != |ClassTag(d)|
          || ClassTag(c)[1] != ClassTag(d)[1];
    }
  }

  function SexTag(s: Sex): string
  {
    match s
    case Male => "male"
    case Female => "female"
  }

  /** Warm-blooded are the mammals and the birds. */
  function BloodOf(c: Class): (b: Blood)
    ensures b == Warm <==> c in {Mammal, Bird}
  {
    match c
    case Mammal | Bird => Warm
    case Amphibian | Arthropod | Fish | Reptile => Cold
  }

  /** What is known of a species. */
  datatype AnimalData = AnimalData(name: string, animalClass: Class, predators: seq<string>, preys: seq<string>)
  {
    /** `AnimalData::new`. */
    static function New(name: string, animalClass: Class, predators: seq<string>, preys: seq<string>): (d: AnimalData)
      ensures d.name == name && d.animalClass == animalClass
      ensures d.predators == predators && d.preys == preys
    {
      AnimalData(name, animalClass, predators, preys)
    }

    function ClassStr(): (r: string)
      ensures |r| > 0 && IsLowercase(r)
      ensures forall c :: ClassTag(c) == r <==> c == animalClass
    {
      forall c ensures ClassTag(c) == ClassTag(animalClass) <==> c == animalClass {
        ClassTagInjective(c, animalClass);
      }
      ClassTag(animalClass)
    }

    /** The predators joined with '-'; splitting gives them back when the
        list is not empty and no name contains '-'. */
    function PredatorsStr(): (r: string)
      ensures |predators| >= 1 && NoHyphens(predators) ==> Split(r) == predators
    {
      if |predators| >= 1 && NoHyphens(predators) then SplitJoin(predators); Join(predators)
      else Join(predators)
    }

    function PreysStr(): (r: string)
      ensures |preys| >= 1 && NoHyphens(preys) ==> Split(r) == preys
    {
      if |preys| >= 1 && NoHyphens(preys) then SplitJoin(preys); Join(preys)
      else Join(preys)
    }

    function BloodType(): (b: Blood)
      ensures b == Warm <==> animalClass == Mammal || animalClass == Bird
    {
      BloodOf(animalClass)
    }
  }

  /** One living individual. */
  datatype AnimalAlive = AnimalAlive(name: string, sex: Sex)
  {
    /** `AnimalAlive::born`. */
    static function Born(name: string, sex: Sex): (a: AnimalAlive)
      ensures a.name == name && a.sex == sex
    {
      AnimalAlive(name, sex)
    }

    function SexStr(): (r: string)
      ensures r == "male" <==> sex == Male
      ensures r == "female" <==> sex == Female
    {
      SexTag(sex)
    }
  }

  /** snake_data() and the structs' tests: a reptile, cold-blooded, whose
      predators are written "eagle-mongoose". */
  lemma SnakeDataExample()
    ensures var snake := AnimalData.New("snake", Reptile, ["eagle", "mongoose"], ["rat", "squirrel"]);
      snake.animalClass == Reptile && snake.BloodType() == Cold
      && snake.PredatorsStr() == "eagle-mongoose"
      && snake.preys == ["rat", "squirrel"]
  {
  }
}
