/** The run-wide list of exported wrapper names. A name that is already
    taken receives exactly one trailing underscore; there is no second
    retry. */
module Registry {

  /** The exported name a method with base name `base` receives when the
      names in `names` have been handed out before it. */
  function AssignedName(names: seq<string>, base: string): (name: string)
    ensures name == base <==> base !in names
    ensures name == base || name == base + "_"
    ensures base + "_" !in names ==> name !in names
  {
    if base in names then base + "_" else base
  }

  /** Two methods with the same base name get different exported names, but
      a third gets the same name as the second: the collision the generator
      leaves unresolved. */
  lemma SecondAndThirdCollide(names: seq<string>, base: string)
    requires base !in names
    ensures var n1 := AssignedName(names, base);
            var n2 := AssignedName(names + [n1], base);
            var n3 := AssignedName(names + [n1, n2], base);
            n1 == base && n2 == base + "_" && n3 == n2
  {
    var n1 := AssignedName(names, base);
    assert n1 in names + [n1];
    var n2 := AssignedName(names + [n1], base);
    assert n1 in names + [n1, n2];
  }
}
