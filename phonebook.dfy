/**
 * The phonebook front end: the name filter over the listed persons and the
 * guarded `addPerson` transition of the component's state.
 */
module Phonebook {
  import opened Wrappers
  import opened JsStrings
  import opened Seqs

  /** A phonebook entry as the server stores it. */
  datatype Person = Person(name: string, number: string, id: string)

  /** Why `addPerson` gave up; each one stands for the alert it shows. */
  datatype Rejection = BlankField | NameTaken | NumberTaken

  /** What one submission of the form led to. */
  datatype AddOutcome = Added(person: Person) | Rejected(reason: Rejection) | RequestFailed

  /** The `filteredPersons` test: the lowered name includes the lowered search text. */
  predicate Shown(p: Person, searching: string) {
    Contains(Lower(p.name), Lower(searching))
  }

  /** `filteredPersons`: the persons the filter text lets through, in list order. */
  function FilterPersons(persons: seq<Person>, searching: string): (r: seq<Person>)
    ensures IsSubsequence(r, persons)
    ensures forall p :: p in r <==> p in persons && Shown(p, searching)
    ensures forall p :: multiset(r)[p] == if Shown(p, searching) then multiset(persons)[p] else 0
  {
    var keep := (p: Person) => Shown(p, searching);
    FilterIsSubsequence(persons, keep);
    FilterMembership(persons, keep);
    FilterCounts(persons, keep);
    Filter(persons, keep)
  }

  /** An empty filter text shows every person. */
  lemma EmptySearchShowsAll(persons: seq<Person>)
    ensures FilterPersons(persons, "") == persons
  {
    assert Lower("") == "";
    forall i | 0 <= i < |persons| ensures Shown(persons[i], "") {
      ContainsEmpty(Lower(persons[i].name));
    }
    FilterKeepsAll(persons, (p: Person) => Shown(p, ""));
  }

  /** The persons whose name equals `name` ignoring case (`existingPersons`). */
  function SameName(persons: seq<Person>, name: string): (r: seq<Person>)
    ensures forall p :: p in r <==> p in persons && Lower(p.name) == Lower(name)
  {
    FilterMembership(persons, (p: Person) => Lower(p.name) == Lower(name));
    Filter(persons, (p: Person) => Lower(p.name) == Lower(name))
  }

  /** The persons whose number equals `number` exactly (`existingNumber`). */
  function SameNumber(persons: seq<Person>, number: string): (r: seq<Person>)
    ensures forall p :: p in r <==> p in persons && p.number == number
  {
    FilterMembership(persons, (p: Person) => p.number == number);
    Filter(persons, (p: Person) => p.number == number)
  }

  /**
   * The checks `addPerson` makes, in order: both fields non-blank after
   * trimming, then no existing name equal ignoring case, then no existing
   * number equal. The first failing check gives the rejection.
   */
  function Validate(persons: seq<Person>, name: string, number: string): (r: Option<Rejection>)
    ensures r == Some(BlankField) <==> AllWhitespace(name) || AllWhitespace(number)
    ensures r == Some(NameTaken) <==>
            && !AllWhitespace(name) && !AllWhitespace(number)
            && exists p :: p in persons && Lower(p.name) == Lower(name)
    ensures r == Some(NumberTaken) <==>
            && !AllWhitespace(name) && !AllWhitespace(number)
            && (forall p :: p in persons ==> Lower(p.name) != Lower(name))
            && exists p :: p in persons && p.number == number
    ensures r == None <==>
            && !AllWhitespace(name) && !AllWhitespace(number)
            && forall p :: p in persons ==> Lower(p.name) != Lower(name) && p.number != number
  {
    TrimEmptyIff(name);
    TrimEmptyIff(number);
    var names := SameName(persons, name);
    var numbers := SameNumber(persons, number);
    assert names != [] ==> names[0] in names;
    assert numbers != [] ==> numbers[0] in numbers;
    if Trim(name) == [] || Trim(number) == [] then Some(BlankField)
    else if |names| > 0 then Some(NameTaken)
    else if |numbers| > 0 then Some(NumberTaken)
    else None
  }

  /**
   * The state every successful add keeps: no blank name or number, no two
   * names equal ignoring case, no two numbers equal.
   */
  ghost predicate Consistent(persons: seq<Person>) {
    && (forall i :: 0 <= i < |persons| ==>
          !AllWhitespace(persons[i].name) && !AllWhitespace(persons[i].number))
    && (forall i, j :: 0 <= i < j < |persons| ==>
          Lower(persons[i].name) != Lower(persons[j].name) && persons[i].number != persons[j].number)
  }

  /** Appending a person that passed the checks keeps the phonebook consistent. */
  lemma AcceptKeepsConsistent(persons: seq<Person>, p: Person)
    requires Consistent(persons)
    requires Validate(persons, p.name, p.number) == None
    ensures Consistent(persons + [p])
  {
  }

  /** The state of the phonebook component. */
  class App {
    var persons: seq<Person>
    var newName: string
    var newNumber: string
    var searching: string

    /** Every piece of state starts empty. */
    constructor ()
      ensures persons == [] && newName == "" && newNumber == "" && searching == ""
    {
      persons, newName, newNumber, searching := [], "", "", "";
    }

    /** `filteredPersons`, derived from the state at every render. */
    function FilteredPersons(): (r: seq<Person>)
      reads this
      ensures IsSubsequence(r, persons)
      ensures forall p :: p in r <==> p in persons && Shown(p, searching)
      ensures forall p :: multiset(r)[p] == if Shown(p, searching) then multiset(persons)[p] else 0
    {
      FilterPersons(persons, searching)
    }

    /** The start-up effect stores the list the server returned. */
    method ReceivePersons(initial: seq<Person>)
      modifies this
      ensures persons == initial
      ensures newName == old(newName) && newNumber == old(newNumber) && searching == old(searching)
    {
      persons := initial;
    }

    /** Typing in the name field. */
    method HandleNameChange(value: string)
      modifies this
      ensures newName == value
      ensures persons == old(persons) && newNumber == old(newNumber) && searching == old(searching)
    {
      newName := value;
    }

    /** Typing in the number field. */
    method HandleNumberChange(value: string)
      modifies this
      ensures newNumber == value
      ensures persons == old(persons) && newName == old(newName) && searching == old(searching)
    {
      newNumber := value;
    }

    /** Typing in the filter field. */
    method HandleFilter(value: string)
      modifies this
      ensures searching == value
      ensures persons == old(persons) && newName == old(newName) && newNumber == old(newNumber)
    {
      searching := value;
    }

    /**
     * Submitting the form. `response` is the server's reply to the request
     * carrying `newName` and `newNumber`: the created record, or None when the
     * request failed. It is consulted only when every check passes, since
     * otherwise no request is sent.
     */
    method AddPerson(response: Option<Person>) returns (outcome: AddOutcome)
      modifies this
      ensures match Validate(old(persons), old(newName), old(newNumber))
              case Some(reason) => outcome == Rejected(reason)
              case None => outcome == if response.Some? then Added(response.value) else RequestFailed
      ensures outcome.Added? ==>
                persons == old(persons) + [outcome.person] && newName == "" && newNumber == ""
      ensures !outcome.Added? ==>
                persons == old(persons) && newName == old(newName) && newNumber == old(newNumber)
      ensures searching == old(searching)
      ensures && outcome.Added? && Consistent(old(persons))
              && outcome.person.name == old(newName) && outcome.person.number == old(newNumber)
              ==> Consistent(persons)
    {
      if Trim(newName) == [] || Trim(newNumber) == [] {
        return Rejected(BlankField);
      }
      var existingPersons := SameName(persons, newName);
      var existingNumber := SameNumber(persons, newNumber);
      if |existingPersons| > 0 {
        return Rejected(NameTaken);
      }
      if |existingNumber| > 0 {
        return Rejected(NumberTaken);
      }
      if response.None? {
        return RequestFailed;
      }
      var created := response.value;
      if Consistent(persons) && created.name == newName && created.number == newNumber {
        AcceptKeepsConsistent(persons, created);
      }
      persons := persons + [created];
      newName := "";
      newNumber := "";
      outcome := Added(created);
    }
  }
}
