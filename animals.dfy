/**
 * The older single-entity revision: one `Animal` carries its species data
 * and its sex. Its enums are the ones of the record store.
 */
module Animals {
  import opened Hyphenated
  import opened AnimalStructs

  datatype Animal = Animal(name: string, animalClass: Class, predators: seq<string>, preys: seq<string>, sex: Sex)
  {
    /** `Animal::born`: all five fields are stored as given. */
    static function Born(name: string, animalClass: Class, predators: seq<string>, preys: seq<string>, sex: Sex): (a: Animal)
      ensures a.name == name && a.animalClass == animalClass
      ensures a.predators == predators && a.preys == preys && a.sex == sex
    {
      Animal(name, animalClass, predators, preys, sex)
    }

    function ClassStr(): (r: string)
      ensures |r| > 0 && IsLowercase(r)
      ensures forall c :: ClassTag(c) == r <==> c == animalClass
    {
      forall c ensures ClassTag(c) == ClassTag(animalClass) <==> c == animalClass {
        ClassTagInjective(c, animalClass);
      }
      ClassTag(animalClass)
    }

    function PredatorsStr(): (r: string)
      ensures |predators| >= 1 && NoHyphens(predators) ==> Split(r) == predators
    {
      if |predators| >= 1 && NoHyphens(predators) then SplitJoin(predators); Join(predators)
      else Join(predators)
    }

    function PreysStr(): (r: string)
      ensures |preys| >= 1 && NoHyphens(preys) ==> Split(r) == preys
    {
      if |preys| >= 1 && NoHyphens(preys) then SplitJoin(preys); Join(preys)
      else Join(preys)
    }

    function SexStr(): (r: string)
      ensures r == "male" <==> sex == Male
      ensures r == "female" <==> sex == Female
    {
      SexTag(sex)
    }

    function BloodType(): (b: Blood)
      ensures b == Warm <==> animalClass == Mammal || animalClass == Bird
    {
      BloodOf(animalClass)
    }
  }

  /** The message `eat` logs. */
  function EatMessage(name: string, prey: string): string
  {
    name + " found a " + prey + " and eated it!"
  }

  /** A logger that keeps what it is given, in order. */
  class Logger {
    var messages: seq<string>

    constructor ()
      ensures messages == []
    {
      messages := [];
    }

    method Log(value: string)
      modifies this
      ensures messages == old(messages) + [value]
    {
      messages := messages + [value];
    }
  }

  /** `eat`: one message naming a prey picked at random. An animal without
      preys makes the random range empty, which panics. */
  method Eat(a: Animal, logger: Logger)
    requires |a.preys| > 0
    modifies logger
    ensures exists i :: 0 <= i < |a.preys| && logger.messages == old(logger.messages) + [EatMessage(a.name, a.preys[i])]
  {
    var i :| 0 <= i < |a.preys|;
    logger.Log(EatMessage(a.name, a.preys[i]));
  }

  function CowModel(): Animal
  {
    Animal.Born("cow", Mammal, ["fox", "human"], ["grass", "straw"], Male)
  }

  function SnakeModel(): Animal
  {
    Animal.Born("snake", Reptile, ["eagle", "mongoose"], ["rat", "squirrel"], Female)
  }

  /** The accessor tests on the two models. */
  lemma ModelExamples()
    ensures CowModel().animalClass == Mammal && CowModel().PredatorsStr() == "fox-human"
    ensures CowModel().preys == ["grass", "straw"]
    ensures CowModel().sex == Male && SnakeModel().sex == Female
    ensures CowModel().BloodType() == Warm && SnakeModel().BloodType() == Cold
  {
  }

  /** The cow eats grass or straw. */
  method EatTest() returns (logged: seq<string>)
    ensures logged == [EatMessage("cow", "grass")] || logged == [EatMessage("cow", "straw")]
  {
    var logger := new Logger();
    Eat(CowModel(), logger);
    logged := logger.messages;
  }
}
