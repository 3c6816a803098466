/**
 * The list of processed file names the converter keeps for its whole run.
 * A CSV whose name (without directory and extension) is already on the list
 * is not converted again.
 */
module FileRegistry {

  /** The names after a detection of `filename`: unchanged when it is known, else extended by it. */
  function Registered(names: seq<string>, filename: string): (after: seq<string>)
    ensures filename in after
    ensures names <= after
    ensures |after| <= |names| + 1
  {
    if filename in names then names else names + [filename]
  }

  /** No name is on the list twice. */
  predicate Distinct(names: seq<string>) {
    forall i, j | 0 <= i < j < |names| :: names[i] != names[j]
  }

  /** Registering keeps the names distinct. */
  lemma RegisteredStaysDistinct(names: seq<string>, filename: string)
    requires Distinct(names)
    ensures Distinct(Registered(names, filename))
  {
    if filename !in names {
      var after := names + [filename];
      forall i, j | 0 <= i < j < |after| ensures after[i] != after[j] {
        if j == |names| {
          assert after[i] == names[i];
        }
      }
    }
  }

  /** Registering a name a second time changes nothing. */
  lemma RegisteredIdempotent(names: seq<string>, filename: string)
    ensures Registered(Registered(names, filename), filename) == Registered(names, filename)
  {
  }

  /** Registering one name leaves every other name's membership as it was. */
  lemma RegisteredKeepsOthers(names: seq<string>, filename: string, other: string)
    requires other != filename
    ensures other in Registered(names, filename) <==> other in names
  {
  }

  /** The processed-file list (`proccesedFiles`). */
  class ProcessedFiles {
    var names: seq<string>

    predicate Valid()
      reads this
    {
      Distinct(names)
    }

    constructor()
      ensures Valid() && names == []
    {
      names := [];
    }

    /**
     * `Contains` followed, for a new name, by `Add`: answers whether the file
     * is to be converted, and records its name.
     */
    method Admit(filename: string) returns (admitted: bool)
      requires Valid()
      modifies this
      ensures Valid()
      ensures admitted <==> filename !in old(names)
      ensures names == Registered(old(names), filename)
    {
      RegisteredStaysDistinct(names, filename);
      if filename in names {
        admitted := false;
      } else {
        names := names + [filename];
        admitted := true;
      }
    }
  }

  /** A second detection of the same name is turned away, and the list keeps one copy. */
  method AdmitTwice(registry: ProcessedFiles, filename: string) returns (first: bool, second: bool)
    requires registry.Valid()
    modifies registry
    ensures second == false
    ensures first <==> filename !in old(registry.names)
    ensures registry.names == Registered(old(registry.names), filename)
  {
    first := registry.Admit(filename);
    second := registry.Admit(filename);
  }
}
