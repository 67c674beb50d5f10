/**
 * Reading a class back from the name it is written as.
 */
module CustomStringMethods {
  import opened Csv
  import opened AnimalStructs
  import InputValidators

  /** `to_class`: exactly the six lowercase class names convert; anything
      else, other casings included, is an error. */
  function ToClass(s: string): (r: Result<Class>)
    ensures r.Ok? ==> ClassTag(r.value) == s
    ensures r.Err? ==> r.error == InvalidField && forall c :: ClassTag(c) != s
  {
    match s
    case "reptile" => Ok(Reptile)
    case "mammal" => Ok(Mammal)
    case "fish" => Ok(Fish)
    case "bird" => Ok(Bird)
    case "arthropod" => Ok(Arthropod)
    case "amphibian" => Ok(Amphibian)
    case _ => Err(InvalidField)
  }

  /** Converting the name of a class gives the class back. */
  lemma ToClassOfTag(c: Class)
    ensures ToClass(ClassTag(c)) == Ok(c)
  {
    ClassTagInjective(ToClass(ClassTag(c)).value, c);
  }

  /** Every class the input validator lets through converts. */
  lemma ValidClassConverts(s: string)
    ensures InputValidators.ValidClass(s) <==> ToClass(s).Ok?
  {
  }

  lemma ToClassRejects()
    ensures ToClass("Reptile").Err? && ToClass("mammals").Err? && ToClass("").Err?
  {
  }
}
