/**
 * The employee record set and its four record operations (add, search, update, delete).
 * Each operation loads the whole set from the backing file, scans it from the front, and
 * writes the whole set back when it changed something.
 */
module EmployeeRecords {
  import opened Wrappers
  import opened ShiftTime

  datatype Employee = Employee(
    id: int,
    name: string,
    salary: real,
    bonus: real,
    inTime: string,  // "HH:MM"
    outTime: string) // "HH:MM"
  {
    /** totalSalary: salary plus bonus; never below either part when both are non-negative. */
    function TotalSalary(): (total: real)
      ensures salary >= 0.0 && bonus >= 0.0 ==> total >= salary && total >= bonus
    {
      salary + bonus
    }

    /**
     * What the input prompts guarantee of a record before it is added: a positive id, a
     * non-empty name, non-negative amounts and two times matching the time pattern.
     */
    predicate Valid(): (ok: bool)
      ensures ok ==> IsValidTime(inTime) && IsValidTime(outTime) && MinutesBetween(inTime, outTime) < MinutesPerDay
      ensures ok ==> TotalSalary() >= 0.0
    {
      && id >= 1
      && name != []
      && salary >= 0.0 && bonus >= 0.0
      && IsValidTime(inTime) && IsValidTime(outTime)
    }
  }

  datatype Status = Done | DuplicateId | NotFound

  /** The outcome of `stod` on a replacement line for a salary or a bonus. */
  datatype AmountInput = Blank | Unparseable | Parsed(value: real)

  /**
   * The replacement lines typed during an update, one per field. A blank name or time line
   * is the empty string.
   */
  datatype Edits = Edits(name: string, salary: AmountInput, bonus: AmountInput, inTime: string, outTime: string)

  predicate AllBlank(e: Edits) {
    e.name == [] && e.salary.Blank? && e.bonus.Blank? && e.inTime == [] && e.outTime == []
  }

  predicate HasId(s: seq<Employee>, id: int) {
    exists j :: 0 <= j < |s| && s[j].id == id
  }

  predicate UniqueIds(s: seq<Employee>) {
    forall i, j :: 0 <= i < j < |s| ==> s[i].id != s[j].id
  }

  predicate AllValid(s: seq<Employee>) {
    forall i :: 0 <= i < |s| ==> s[i].Valid()
  }

  /** The position of the first record carrying `id`, as the scans of search, update and delete find it. */
  function IndexOf(s: seq<Employee>, id: int): (r: Option<nat>)
    ensures r.Some? ==> r.value < |s| && s[r.value].id == id
    ensures r.Some? ==> forall j :: 0 <= j < r.value ==> s[j].id != id
    ensures r.None? <==> !HasId(s, id)
  {
    if s == [] then None
    else if s[0].id == id then Some(0)
    else
      match IndexOf(s[1..], id)
      case None => None
      case Some(k) => Some(k + 1)
  }

  /** The record a search reports: the first one with the id, or none exactly when no record has it. */
  function Lookup(s: seq<Employee>, id: int): (r: Option<Employee>)
    ensures r.None? <==> !HasId(s, id)
    ensures r.Some? ==> r.value.id == id && r.value in s
  {
    match IndexOf(s, id)
    case None => None
    case Some(i) => Some(s[i])
  }

  /** The set after an add: unchanged when the id is taken, otherwise the record appended at the end. */
  function Added(s: seq<Employee>, e: Employee): (r: seq<Employee>)
    ensures |r| == if HasId(s, e.id) then |s| else |s| + 1
    ensures r[..|s|] == s
    ensures HasId(r, e.id)
  {
    if HasId(s, e.id) then s
    else
      assert (s + [e])[|s|] == e;
      s + [e]
  }

  /** A salary or bonus line is taken only when it parsed to a non-negative number. */
  function NewAmount(current: real, input: AmountInput): (r: real)
    ensures !input.Parsed? ==> r == current
    ensures input.Parsed? && input.value < 0.0 ==> r == current
    ensures input.Parsed? && input.value >= 0.0 ==> r == input.value
  {
    match input
    case Parsed(v) => if v >= 0.0 then v else current
    case _ => current
  }

  /** A time line is taken only when it is not blank and matches the time pattern. */
  function NewTime(current: string, line: string): (r: string)
    ensures line == [] ==> r == current
    ensures !IsValidTime(line) ==> r == current
    ensures IsValidTime(line) ==> r == line
    ensures IsValidTime(current) ==> IsValidTime(r)
  {
    if line != [] && IsValidTime(line) then line else current
  }

  /** The record after one update: every field independently kept or replaced, the id never edited. */
  function ApplyEdits(e: Employee, edits: Edits): (r: Employee)
    ensures r.id == e.id
    ensures edits.name == [] ==> r.name == e.name
    ensures edits.name != [] ==> r.name == edits.name
    ensures r.salary == NewAmount(e.salary, edits.salary) && r.bonus == NewAmount(e.bonus, edits.bonus)
    ensures r.inTime == NewTime(e.inTime, edits.inTime) && r.outTime == NewTime(e.outTime, edits.outTime)
    ensures e.Valid() ==> r.Valid()
    ensures AllBlank(edits) ==> r == e
  {
    Employee(
      e.id,
      if edits.name == [] then e.name else edits.name,
      NewAmount(e.salary, edits.salary),
      NewAmount(e.bonus, edits.bonus),
      NewTime(e.inTime, edits.inTime),
      NewTime(e.outTime, edits.outTime))
  }

  /** The set after an update: the first record with the id edited in place, the set unchanged when there is none. */
  function Updated(s: seq<Employee>, id: int, edits: Edits): (r: seq<Employee>)
    ensures |r| == |s|
    ensures forall j :: 0 <= j < |s| ==> r[j].id == s[j].id
  {
    match IndexOf(s, id)
    case None => s
    case Some(i) => s[i := ApplyEdits(s[i], edits)]
  }

  /** The set after a delete: the first record with the id erased, the set unchanged when there is none. */
  function Removed(s: seq<Employee>, id: int): (r: seq<Employee>)
    ensures |r| == if HasId(s, id) then |s| - 1 else |s|
    ensures forall k :: 0 <= k < |r| ==> r[k] in s
  {
    match IndexOf(s, id)
    case None => s
    case Some(i) =>
      var r := s[..i] + s[i + 1..];
      assert forall k :: 0 <= k < |r| ==> r[k] == s[if k < i then k else k + 1];
      r
  }

  // ---------- Properties of the record operations ----------

  /** After a successful add, a search for the new id finds exactly the record added. */
  lemma AddThenSearch(s: seq<Employee>, e: Employee)
    requires !HasId(s, e.id)
    ensures Lookup(Added(s, e), e.id) == Some(e)
  {
    var t := Added(s, e);
    assert t[|s|].id == e.id;
  }

  /** Add with a taken id changes nothing; otherwise it appends: one longer, earlier records as they were. */
  lemma AddShape(s: seq<Employee>, e: Employee)
    ensures HasId(s, e.id) ==> Added(s, e) == s
    ensures !HasId(s, e.id) ==> |Added(s, e)| == |s| + 1 && Added(s, e)[..|s|] == s && Added(s, e)[|s|] == e
  {
  }

  /** Add keeps ids unique, and keeps every record valid when the new one is. */
  lemma AddKeepsInvariant(s: seq<Employee>, e: Employee)
    requires UniqueIds(s)
    ensures UniqueIds(Added(s, e))
    ensures AllValid(s) && e.Valid() ==> AllValid(Added(s, e))
  {
    if !HasId(s, e.id) {
      var t := Added(s, e);
      forall i, j | 0 <= i < j < |t| ensures t[i].id != t[j].id {
        if j == |s| {
          assert s[i].id != e.id;
        }
      }
    }
  }

  /** Search of an absent id reports not found; otherwise the first matching record. */
  lemma SearchFirstMatch(s: seq<Employee>, id: int, i: nat)
    requires i < |s| && s[i].id == id
    requires forall j :: 0 <= j < i ==> s[j].id != id
    ensures Lookup(s, id) == Some(s[i])
  {
  }

  /**
   * Update touches only the first record with the id and keeps its id: the length, every
   * other record and every id are as before.
   */
  lemma UpdateShape(s: seq<Employee>, id: int, edits: Edits)
    requires HasId(s, id)
    ensures |Updated(s, id, edits)| == |s|
    ensures forall j :: 0 <= j < |s| ==> Updated(s, id, edits)[j].id == s[j].id
    ensures forall j :: 0 <= j < |s| && j != IndexOf(s, id).value ==> Updated(s, id, edits)[j] == s[j]
    ensures Updated(s, id, edits)[IndexOf(s, id).value] == ApplyEdits(s[IndexOf(s, id).value], edits)
  {
  }

  /** Update of an absent id changes nothing. */
  lemma UpdateAbsent(s: seq<Employee>, id: int, edits: Edits)
    requires !HasId(s, id)
    ensures Updated(s, id, edits) == s
  {
  }

  /** An update whose every line was blank leaves the record, and so the whole set, identical. */
  lemma UpdateAllBlank(s: seq<Employee>, id: int, edits: Edits)
    requires AllBlank(edits)
    ensures Updated(s, id, edits) == s
  {
    match IndexOf(s, id)
    case None =>
    case Some(i) =>
      var e := s[i];
      assert ApplyEdits(e, edits) == e;
  }

  /** Update keeps ids unique and every record valid. */
  lemma UpdateKeepsInvariant(s: seq<Employee>, id: int, edits: Edits)
    requires UniqueIds(s)
    ensures UniqueIds(Updated(s, id, edits))
    ensures AllValid(s) ==> AllValid(Updated(s, id, edits))
  {
    if HasId(s, id) {
      UpdateShape(s, id, edits);
    }
  }

  /** A search after an update of a present id finds the edited version of the record found before. */
  lemma UpdateThenSearch(s: seq<Employee>, id: int, edits: Edits)
    requires HasId(s, id)
    ensures Lookup(Updated(s, id, edits), id) == Some(ApplyEdits(Lookup(s, id).value, edits))
  {
    var i := IndexOf(s, id).value;
    UpdateShape(s, id, edits);
    SearchFirstMatch(Updated(s, id, edits), id, i);
  }

  /**
   * Delete of a present id removes exactly its first record: the set is one shorter, the
   * records before and after it keep their order, and no record is altered.
   */
  lemma DeleteShape(s: seq<Employee>, id: int)
    requires HasId(s, id)
    ensures |Removed(s, id)| == |s| - 1
    ensures Removed(s, id) == s[..IndexOf(s, id).value] + s[IndexOf(s, id).value + 1..]
    ensures multiset(Removed(s, id)) + multiset{s[IndexOf(s, id).value]} == multiset(s)
  {
    EraseKeepsOthers(s, IndexOf(s, id).value);
  }

  /** Erasing position i loses exactly the record at i. */
  lemma EraseKeepsOthers(s: seq<Employee>, i: nat)
    requires i < |s|
    ensures multiset(s[..i] + s[i + 1..]) + multiset{s[i]} == multiset(s)
  {
    assert s == s[..i] + [s[i]] + s[i + 1..];
  }

  /** Delete of an absent id changes nothing. */
  lemma DeleteAbsent(s: seq<Employee>, id: int)
    requires !HasId(s, id)
    ensures Removed(s, id) == s
  {
  }

  /** Delete keeps ids unique and every record valid. */
  lemma DeleteKeepsInvariant(s: seq<Employee>, id: int)
    requires UniqueIds(s)
    ensures UniqueIds(Removed(s, id))
    ensures AllValid(s) ==> AllValid(Removed(s, id))
  {
    if HasId(s, id) {
      var i := IndexOf(s, id).value;
      var t := Removed(s, id);
      forall a, b | 0 <= a < b < |t| ensures t[a].id != t[b].id {
        var a', b' := if a < i then a else a + 1, if b < i then b else b + 1;
        assert t[a] == s[a'] && t[b] == s[b'];
      }
      if AllValid(s) {
        forall a | 0 <= a < |t| ensures t[a].Valid() {
          assert t[a] == s[if a < i then a else a + 1];
        }
      }
    }
  }

  /** With unique ids, a search after a delete reports not found. */
  lemma DeleteThenSearch(s: seq<Employee>, id: int)
    requires UniqueIds(s)
    ensures Lookup(Removed(s, id), id).None?
  {
    if HasId(s, id) {
      var i := IndexOf(s, id).value;
      var t := Removed(s, id);
      forall a | 0 <= a < |t| ensures t[a].id != id {
        var a' := if a < i then a else a + 1;
        assert t[a] == s[a'];
        assert a' != i;
      }
    }
  }

  // ---------- The store ----------

  /**
   * The employee file and the operations that read and rewrite it. `records` is the
   * sequence the file holds (empty when there is no file); `writes` counts how many
   * times an operation has rewritten it.
   */
  class EmployeeStore {
    var records: seq<Employee>
    var writes: nat

    /** Ids are unique and every record is valid. */
    ghost predicate Valid()
      reads this
    {
      UniqueIds(records) && AllValid(records)
    }

    constructor (initial: seq<Employee>)
      ensures records == initial && writes == 0
    {
      records := initial;
      writes := 0;
    }

    /** loadEmployees: the whole record set, in file order. */
    method Load() returns (employees: seq<Employee>)
      ensures employees == records
    {
      employees := records;
    }

    /** saveEmployees: the file is truncated and overwritten with the whole set. */
    method Save(employees: seq<Employee>)
      modifies this
      ensures records == employees && writes == old(writes) + 1
    {
      records := employees;
      writes := writes + 1;
    }

    /** addEmployee: rejects a taken id without saving; otherwise appends and saves. */
    method AddEmployee(emp: Employee) returns (status: Status)
      modifies this
      ensures status == if HasId(old(records), emp.id) then DuplicateId else Done
      ensures records == Added(old(records), emp)
      ensures writes == old(writes) + if status == Done then 1 else 0
      ensures old(Valid()) && emp.Valid() ==> Valid()
      ensures status == Done ==> Lookup(records, emp.id) == Some(emp)
    {
      var employees := Load();
      var i := 0;
      while i < |employees|
        invariant 0 <= i <= |employees|
        invariant forall j :: 0 <= j < i ==> employees[j].id != emp.id
      {
        if employees[i].id == emp.id {
          return DuplicateId;
        }
        i := i + 1;
      }
      if UniqueIds(employees) {
        AddKeepsInvariant(employees, emp);
      }
      AddThenSearch(employees, emp);
      employees := employees + [emp];
      Save(employees);
      status := Done;
    }

    /** searchEmployee: the first record with the id, scanning from the front. */
    method SearchEmployee(id: int) returns (found: Option<Employee>)
      ensures found.None? <==> !HasId(records, id)
      ensures found.Some? ==> exists i :: 0 <= i < |records| && records[i] == found.value && found.value.id == id &&
                                          forall j :: 0 <= j < i ==> records[j].id != id
      ensures found == Lookup(records, id)
    {
      var employees := Load();
      found := None;
      var i := 0;
      while i < |employees|
        invariant 0 <= i <= |employees|
        invariant found.None?
        invariant forall j :: 0 <= j < i ==> employees[j].id != id
      {
        if employees[i].id == id {
          found := Some(employees[i]);
          SearchFirstMatch(employees, id, i);
          break;
        }
        i := i + 1;
      }
    }

    /**
     * updateEmployee: edits the first record with the id field by field, then saves; a
     * blank or rejected line keeps the field's old value. No save when the id is absent.
     */
    method UpdateEmployee(id: int, edits: Edits) returns (status: Status)
      modifies this
      ensures status == if HasId(old(records), id) then Done else NotFound
      ensures records == Updated(old(records), id, edits)
      ensures writes == old(writes) + if status == Done then 1 else 0
      ensures old(Valid()) ==> Valid()
      ensures status == NotFound ==> records == old(records)
      ensures status == Done ==> Lookup(records, id) == Some(ApplyEdits(Lookup(old(records), id).value, edits))
    {
      var employees := Load();
      var i := 0;
      while i < |employees|
        invariant 0 <= i <= |employees|
        invariant forall j :: 0 <= j < i ==> employees[j].id != id
      {
        if employees[i].id == id {
          var emp := employees[i];
          if edits.name != [] {
            emp := emp.(name := edits.name);
          }
          if edits.salary.Parsed? && edits.salary.value >= 0.0 {
            emp := emp.(salary := edits.salary.value);
          }
          if edits.bonus.Parsed? && edits.bonus.value >= 0.0 {
            emp := emp.(bonus := edits.bonus.value);
          }
          if edits.inTime != [] && IsValidTime(edits.inTime) {
            emp := emp.(inTime := edits.inTime);
          }
          if edits.outTime != [] && IsValidTime(edits.outTime) {
            emp := emp.(outTime := edits.outTime);
          }
          assert emp == ApplyEdits(employees[i], edits);
          assert IndexOf(employees, id) == Some(i) by {
            SearchFirstMatch(employees, id, i);
          }
          if UniqueIds(employees) {
            UpdateKeepsInvariant(employees, id, edits);
          }
          UpdateThenSearch(employees, id, edits);
          employees := employees[i := emp];
          Save(employees);
          return Done;
        }
        i := i + 1;
      }
      status := NotFound;
    }

    /** deleteEmployee: erases the first record with the id and saves; no save when the id is absent. */
    method DeleteEmployee(id: int) returns (status: Status)
      modifies this
      ensures status == if HasId(old(records), id) then Done else NotFound
      ensures records == Removed(old(records), id)
      ensures writes == old(writes) + if status == Done then 1 else 0
      ensures old(Valid()) ==> Valid()
      ensures old(Valid()) ==> Lookup(records, id).None?
    {
      var employees := Load();
      var i := 0;
      while i < |employees|
        invariant 0 <= i <= |employees|
        invariant forall j :: 0 <= j < i ==> employees[j].id != id
      {
        if employees[i].id == id {
          assert IndexOf(employees, id) == Some(i) by {
            SearchFirstMatch(employees, id, i);
          }
          if UniqueIds(employees) {
            DeleteKeepsInvariant(employees, id);
            DeleteThenSearch(employees, id);
          }
          employees := employees[..i] + employees[i + 1..];
          Save(employees);
          return Done;
        }
        i := i + 1;
      }
      status := NotFound;
    }
  }
}
