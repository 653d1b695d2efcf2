/** Choosing the observed student by display name (GetObserveeByName). */
module Identity {
  import opened Outcomes
  import opened Linq
  import opened Entities

  /** The `Single` predicate: the user's name is exactly `name`. */
  function NamedAs(name: string): User -> bool
  {
    (u: User) => u.name == name
  }

  /**
   * GetObserveeByName on an already fetched observee list: the observee whose name is
   * exactly `name`, when it is the only one.
   */
  function GetObserveeByName(observees: seq<User>, name: string): (r: Result<User, SingleError>)
    ensures r.Success? ==> r.value in observees && r.value.name == name
  {
    Single(observees, NamedAs(name))
  }

  /** Observee `i` is the only one named `name`. */
  ghost predicate OnlyOneNamed(observees: seq<User>, name: string, i: int)
  {
    && 0 <= i < |observees|
    && observees[i].name == name
    && forall j :: 0 <= j < |observees| && j != i ==> observees[j].name != name
  }

  /**
   * The lookup succeeds exactly when one observee has the name, and then returns that
   * one; it fails with NoMatch when none has it and with MoreThanOneMatch when two do.
   */
  lemma ObserveeLookupCases(observees: seq<User>, name: string)
    ensures var r := GetObserveeByName(observees, name);
      && (r.Success? <==> exists i :: OnlyOneNamed(observees, name, i))
      && (r.Success? ==> exists i :: OnlyOneNamed(observees, name, i) && r.value == observees[i])
      && (r == Failure(NoMatch) <==> forall i :: 0 <= i < |observees| ==> observees[i].name != name)
      && (r == Failure(MoreThanOneMatch) <==>
            exists i, j :: 0 <= i < j < |observees| && observees[i].name == name && observees[j].name == name)
  {
    var p := NamedAs(name);
    assert forall i :: 0 <= i < |observees| ==> (p(observees[i]) <==> observees[i].name == name);
    assert forall i :: IsOnlyMatch(observees, p, i) <==> OnlyOneNamed(observees, name, i);
  }

  /** Looking up "B" among "A" and "B" finds it; looking up "C" does not. */
  lemma LookupExample()
    ensures GetObserveeByName([User(1, "A"), User(2, "B")], "B") == Success(User(2, "B"))
    ensures GetObserveeByName([User(1, "A"), User(2, "B")], "C") == Failure(NoMatch)
  {
    var observees := [User(1, "A"), User(2, "B")];
    ObserveeLookupCases(observees, "B");
    ObserveeLookupCases(observees, "C");
    assert OnlyOneNamed(observees, "B", 1);
  }
}
