/**
 * Departments, people and the transfer between departments (department.rs
 * and personnel.rs). The two Rust modules refer to each other: a department
 * lists its people, and a person points back at a department. Dafny modules
 * cannot import each other, so both classes live here.
 *
 * The `Rc<RefCell<..>>` handles of the Rust code are object references:
 * every roster entry, history entry and department pointer is a reference to
 * the one `Person` or `Department` object it names. Nothing in the core ever
 * changes a person's name or hire date, or a department's name or id, so
 * those are constants.
 */
module Personnel {
  import opened Wrappers
  import opened Ordering
  import opened Names
  import opened Dates

  datatype DeptErr = RemoveEmployee | AddEmployee

  datatype TransferErr = NotListedInDept | AlreadyInDept

  datatype PersonError = Transfer(TransferErr)

  /**
   * The end of a call that can hit one of the `expect`s in `transfer`:
   * either it returned `value`, or it panicked with the message built from
   * `cause`.
   */
  datatype Outcome<R> = Returned(value: R) | Panicked(cause: TransferErr)

  /** One line of a person's department history. */
  datatype DeptEntry = DeptEntry(department: Department, date: NaiveDate)

  /* ---------------------------------------------------------------------- */
  /* Rosters as values: what `add_employee` and `remove_employee` compute.   */
  /* ---------------------------------------------------------------------- */

  /** Strictly increasing in the (last, first) order of `Person::cmp`. */
  ghost predicate Sorted(roster: seq<Person>) {
    forall i, j {:trigger NameLess(roster[i].name, roster[j].name)} :: 0 <= i < j < |roster| ==> NameLess(roster[i].name, roster[j].name)
  }

  /** The first entry with the same last and first name as `key`, if any. */
  function KeyIndex(roster: seq<Person>, key: Name): (r: Option<nat>)
    ensures r.Some? ==> r.value < |roster| && SameKey(roster[r.value].name, key)
    ensures r.Some? ==> forall j :: 0 <= j < r.value ==> !SameKey(roster[j].name, key)
    ensures r.None? ==> forall j :: 0 <= j < |roster| ==> !SameKey(roster[j].name, key)
  {
    if roster == [] then None
    else if SameKey(roster[0].name, key) then Some(0)
    else
      match KeyIndex(roster[1..], key)
      case None => None
      case Some(j) => Some(j + 1)
  }

  /** The number of leading entries below `key`: where `key` goes in a sorted roster. */
  function Gap(roster: seq<Person>, key: Name): (k: nat)
    ensures k <= |roster|
    ensures forall j :: 0 <= j < k ==> NameLess(roster[j].name, key)
    ensures k < |roster| ==> !NameLess(roster[k].name, key)
  {
    if roster == [] || !NameLess(roster[0].name, key) then 0
    else 1 + Gap(roster[1..], key)
  }

  /**
   * `add_employee` as a value: refused when someone with the same last and
   * first name is listed, otherwise the employee goes into the gap.
   */
  function RosterAdd(roster: seq<Person>, employee: Person): Result<seq<Person>, DeptErr> {
    if KeyIndex(roster, employee.name).Some? then Err(AddEmployee)
    else
      var k := Gap(roster, employee.name);
      Ok(roster[..k] + [employee] + roster[k..])
  }

  /**
   * `remove_employee` as a value: the entry whose last and first name match
   * the argument's, and the roster without that slot.
   */
  function RosterRemove(roster: seq<Person>, employee: Person): Result<(Person, seq<Person>), DeptErr> {
    match KeyIndex(roster, employee.name)
    case None => Err(RemoveEmployee)
    case Some(k) => Ok((roster[k], roster[..k] + roster[k + 1..]))
  }

  /** Two positions of a sorted roster, in order, hold names in order. */
  lemma SortedPair(roster: seq<Person>, i: nat, j: nat)
    requires Sorted(roster) && i < |roster| && j < |roster|
    ensures i < j ==> NameLess(roster[i].name, roster[j].name)
  {
    if i < j {
      assert NameLess(roster[i].name, roster[j].name);
    }
  }

  /** A sorted roster never lists two entries with the same last and first name. */
  lemma SortedKeysDistinct(roster: seq<Person>, i: nat, j: nat)
    requires Sorted(roster) && i < |roster| && j < |roster| && i != j
    ensures !SameKey(roster[i].name, roster[j].name)
  {
    if i < j {
      assert NameLess(roster[i].name, roster[j].name);
    } else {
      assert NameLess(roster[j].name, roster[i].name);
    }
  }

  /** In a sorted roster, everything from the gap on is above `key` or has its key. */
  lemma GapSplits(roster: seq<Person>, key: Name)
    requires Sorted(roster)
    ensures forall j :: Gap(roster, key) <= j < |roster| ==> !NameLess(roster[j].name, key)
  {
    var k := Gap(roster, key);
    forall j | k <= j < |roster|
      ensures !NameLess(roster[j].name, key)
    {
      if j > k && NameLess(roster[j].name, key) {
        CmpNameTransitive(roster[k].name, roster[j].name, key);
      }
    }
  }

  /** In a sorted roster, an entry with `key` sits exactly at the gap. */
  lemma KeyAtGap(roster: seq<Person>, key: Name)
    requires Sorted(roster) && KeyIndex(roster, key).Some?
    ensures KeyIndex(roster, key).value == Gap(roster, key)
  {
    var i := KeyIndex(roster, key).value;
    var k := Gap(roster, key);
    GapSplits(roster, key);
    SortedPair(roster, k, i);
  }

  /** The entries of `rest` with `x` put back at position `k`. */
  function InsertAt(rest: seq<Person>, k: nat, x: Person): seq<Person>
    requires k <= |rest|
  {
    rest[..k] + [x] + rest[k..]
  }

  /** Putting `x` between the entries below it and the entries above it keeps a roster sorted. */
  lemma InsertSorted(roster: seq<Person>, k: nat, x: Person)
    requires Sorted(roster) && k <= |roster|
    requires forall j :: 0 <= j < k ==> NameLess(roster[j].name, x.name)
    requires forall j :: k <= j < |roster| ==> NameLess(x.name, roster[j].name)
    ensures Sorted(roster[..k] + [x] + roster[k..])
  {
    var r := roster[..k] + [x] + roster[k..];
    forall i, j | 0 <= i < j < |r|
      ensures NameLess(r[i].name, r[j].name)
    {
      if i == k {
        assert r[j] == roster[j - 1];
      } else if j == k {
        assert r[i] == roster[i];
      } else {
        var i' := if i < k then i else i - 1;
        var j' := if j < k then j else j - 1;
        assert r[i] == roster[i'] && r[j] == roster[j'];
      }
    }
  }

  /**
   * On success `add_employee` grows the roster by one, places the employee
   * at the gap, keeps the other entries in their order, and the roster stays
   * strictly sorted.
   */
  lemma RosterAddCorrect(roster: seq<Person>, employee: Person)
    requires Sorted(roster) && RosterAdd(roster, employee).Ok?
    ensures var r := RosterAdd(roster, employee).value; var k := Gap(roster, employee.name);
      && Sorted(r) && |r| == |roster| + 1 && r[k] == employee
      && r[..k] + r[k + 1..] == roster
  {
    var key := employee.name;
    var k := Gap(roster, key);
    var r := roster[..k] + [employee] + roster[k..];
    GapSplits(roster, key);
    forall j | k <= j < |roster|
      ensures NameLess(key, roster[j].name)
    {
      CmpNameTotal(key, roster[j].name);
    }
    InsertSorted(roster, k, employee);
    assert r[..k] + r[k + 1..] == roster[..k] + roster[k..];
    assert roster[..k] + roster[k..] == roster;
  }

  /** `add_employee` refuses exactly when someone with the same last and first name is listed. */
  lemma RosterAddRefusesSameKey(roster: seq<Person>, employee: Person)
    ensures RosterAdd(roster, employee) == Err(AddEmployee) <==>
      exists j :: 0 <= j < |roster| && SameKey(roster[j].name, employee.name)
  {
    if exists j :: 0 <= j < |roster| && SameKey(roster[j].name, employee.name) {
      assert KeyIndex(roster, employee.name).Some?;
    }
  }

  /**
   * On success `remove_employee` returns the entry with the argument's last
   * and first name and deletes exactly its slot; the rest keeps its order
   * and stays sorted.
   */
  lemma {:induction false} RosterRemoveCorrect(roster: seq<Person>, employee: Person)
    requires Sorted(roster) && RosterRemove(roster, employee).Ok?
    ensures var (q, rest) := RosterRemove(roster, employee).value; var k := Gap(roster, employee.name);
      && SameKey(q.name, employee.name) && k < |roster| && roster[k] == q
      && Sorted(rest) && |rest| == |roster| - 1 && roster == InsertAt(rest, k, q)
  {
    var key := employee.name;
    KeyAtGap(roster, key);
    var k := Gap(roster, key);
    var rest := roster[..k] + roster[k + 1..];
    forall i, j | 0 <= i < j < |rest|
      ensures NameLess(rest[i].name, rest[j].name)
    {
      var i' := if i < k then i else i + 1;
      var j' := if j < k then j else j + 1;
      assert rest[i] == roster[i'] && rest[j] == roster[j'];
    }
    assert rest[..k] == roster[..k];
    assert rest[k..] == roster[k + 1..];
    assert roster == roster[..k] + [roster[k]] + roster[k + 1..];
  }

  /** `remove_employee` fails exactly when nobody with the same last and first name is listed. */
  lemma RosterRemoveFailsIff(roster: seq<Person>, employee: Person)
    ensures RosterRemove(roster, employee) == Err(RemoveEmployee) <==>
      forall j :: 0 <= j < |roster| ==> !SameKey(roster[j].name, employee.name)
  {
  }

  /** Removing someone who is listed in a sorted roster returns that very person. */
  lemma RosterRemoveListed(roster: seq<Person>, employee: Person, i: nat)
    requires Sorted(roster) && i < |roster| && roster[i] == employee
    ensures RosterRemove(roster, employee) == Ok((employee, roster[..i] + roster[i + 1..]))
  {
    var k := KeyIndex(roster, employee.name).value;
    if k != i {
      SortedKeysDistinct(roster, k, i);
    }
  }

  /** Who is listed after a successful remove: everyone but the entry handed back. */
  lemma RosterRemoveMembers(roster: seq<Person>, employee: Person)
    requires Sorted(roster) && RosterRemove(roster, employee).Ok?
    ensures var (q, rest) := RosterRemove(roster, employee).value;
      forall x :: x in rest <==> x in roster && x != q
  {
    RosterRemoveCorrect(roster, employee);
    RemoveSlotMembers(roster, Gap(roster, employee.name));
  }

  /** Removing someone listed in a sorted roster hands back that very person. */
  lemma RemoveMember(roster: seq<Person>, employee: Person)
    requires Sorted(roster) && employee in roster
    ensures RosterRemove(roster, employee).Ok? && RosterRemove(roster, employee).value.0 == employee
  {
    var i :| 0 <= i < |roster| && roster[i] == employee;
    RosterRemoveListed(roster, employee, i);
  }

  /** A remove after a successful add gives back the employee and the original roster. */
  lemma AddThenRemove(roster: seq<Person>, employee: Person)
    requires Sorted(roster) && RosterAdd(roster, employee).Ok?
    ensures RosterRemove(RosterAdd(roster, employee).value, employee) == Ok((employee, roster))
  {
    var r := RosterAdd(roster, employee).value;
    var k := Gap(roster, employee.name);
    RosterAddCorrect(roster, employee);
    RosterRemoveListed(r, employee, k);
  }

  /** An add of what a successful remove returned rebuilds the original roster. */
  lemma RemoveThenAdd(roster: seq<Person>, employee: Person)
    requires Sorted(roster) && RosterRemove(roster, employee).Ok?
    ensures var (q, rest) := RosterRemove(roster, employee).value;
      RosterAdd(rest, q) == Ok(roster)
  {
    var (q, rest) := RosterRemove(roster, employee).value;
    var k := Gap(roster, employee.name);
    RosterRemoveCorrect(roster, employee);
    forall j | 0 <= j < |rest|
      ensures !SameKey(rest[j].name, q.name)
    {
      var j' := if j < k then j else j + 1;
      assert rest[j] == roster[j'];
      SortedKeysDistinct(roster, j', k);
    }
    assert KeyIndex(rest, q.name).None?;
    GapWithout(roster, k);
    assert roster[..k] + roster[k + 1..] == rest;
  }

  /** The gap is the one position with everything before it below `key` and the entry at it not. */
  lemma {:induction false} GapIs(roster: seq<Person>, key: Name, k: nat)
    requires k <= |roster|
    requires forall j :: 0 <= j < k ==> NameLess(roster[j].name, key)
    requires k < |roster| ==> !NameLess(roster[k].name, key)
    ensures Gap(roster, key) == k
  {
    if k > 0 {
      assert NameLess(roster[0].name, key);
      forall j | 0 <= j < k - 1
        ensures NameLess(roster[1..][j].name, key)
      {
        assert roster[1..][j] == roster[j + 1];
      }
      if k - 1 < |roster[1..]| {
        assert roster[1..][k - 1] == roster[k];
      }
      GapIs(roster[1..], key, k - 1);
    }
  }

  /** Taking the entry at `k` out of a sorted roster leaves its gap at `k`. */
  lemma GapWithout(roster: seq<Person>, k: nat)
    requires Sorted(roster) && k < |roster|
    ensures Gap(roster[..k] + roster[k + 1..], roster[k].name) == k
  {
    var rest := roster[..k] + roster[k + 1..];
    var x := roster[k].name;
    forall j | 0 <= j < k
      ensures NameLess(rest[j].name, x)
    {
      assert rest[j] == roster[j];
    }
    if k < |rest| {
      assert rest[k] == roster[k + 1];
      assert NameLess(x, rest[k].name);
      CmpNameAntisymmetric(x, rest[k].name);
    }
    GapIs(rest, x, k);
  }

  /** The roster that a sequence of `add_employee` calls builds from an empty one. */
  function AddAll(roster: seq<Person>, employees: seq<Person>): seq<Person>
    decreases |employees|
  {
    if employees == [] then roster
    else
      var next := match RosterAdd(roster, employees[0]) case Ok(r) => r case Err(_) => roster;
      AddAll(next, employees[1..])
  }

  /** Whatever is added, a roster built only by `add_employee` is strictly sorted. */
  lemma {:induction false} AddAllSorted(roster: seq<Person>, employees: seq<Person>)
    requires Sorted(roster)
    ensures Sorted(AddAll(roster, employees))
    decreases |employees|
  {
    if employees != [] {
      if RosterAdd(roster, employees[0]).Ok? {
        RosterAddCorrect(roster, employees[0]);
      }
      var next := match RosterAdd(roster, employees[0]) case Ok(r) => r case Err(_) => roster;
      AddAllSorted(next, employees[1..]);
    }
  }

  /** Who is listed after a successful add: everyone before, and the new employee. */
  lemma RosterAddMembers(roster: seq<Person>, employee: Person)
    requires RosterAdd(roster, employee).Ok?
    ensures forall x :: x in RosterAdd(roster, employee).value <==> x in roster || x == employee
  {
    var k := Gap(roster, employee.name);
    assert roster == roster[..k] + roster[k..];
  }

  /** Who is listed after removing slot `i` of a sorted roster: everyone else. */
  lemma RemoveSlotMembers(roster: seq<Person>, i: nat)
    requires Sorted(roster) && i < |roster|
    ensures forall x :: x in roster[..i] + roster[i + 1..] <==> x in roster && x != roster[i]
  {
    forall x | x in roster && x != roster[i]
      ensures x in roster[..i] + roster[i + 1..]
    {
      var j :| 0 <= j < |roster| && roster[j] == x;
      if j < i {
        assert (roster[..i] + roster[i + 1..])[j] == x;
      } else {
        assert (roster[..i] + roster[i + 1..])[j - 1] == x;
      }
    }
    forall x | x in roster[..i] + roster[i + 1..]
      ensures x in roster && x != roster[i]
    {
      var j :| 0 <= j < |roster[..i] + roster[i + 1..]| && (roster[..i] + roster[i + 1..])[j] == x;
      var j' := if j < i then j else j + 1;
      assert roster[j'] == x;
      SortedKeysDistinct(roster, i, j');
    }
  }

  /* ---------------------------------------------------------------------- */
  /* The binary search on a roster.                                          */
  /* ---------------------------------------------------------------------- */

  /** What the comparator `|p| p.cmp(employee)` answers for each roster entry. */
  function Probes(roster: seq<Person>, key: Name): (probes: seq<Ordering>)
    ensures |probes| == |roster|
    ensures forall i :: 0 <= i < |roster| ==> probes[i] == CmpName(roster[i].name, key)
  {
    seq(|roster|, i requires 0 <= i < |roster| => CmpName(roster[i].name, key))
  }

  lemma ProbesMonotone(roster: seq<Person>, key: Name)
    requires Sorted(roster)
    ensures Monotone(Probes(roster, key))
  {
    var probes := Probes(roster, key);
    forall i, j | 0 <= i < j < |probes|
      ensures probes[i].Rank() <= probes[j].Rank()
    {
      assert NameLess(roster[i].name, roster[j].name);
      CmpNameProbeOrder(roster[i].name, roster[j].name, key);
    }
  }

  /** The search's answers, read back in terms of the roster specification. */
  lemma SearchResult(roster: seq<Person>, key: Name, s: Search)
    requires Sorted(roster)
    requires s.Found? ==> s.index < |roster| && CmpName(roster[s.index].name, key) == Equal
    requires s.NotFound? ==> s.index <= |roster|
    requires s.NotFound? ==> forall j :: 0 <= j < s.index ==> CmpName(roster[j].name, key) == Less
    requires s.NotFound? ==> forall j :: s.index <= j < |roster| ==> CmpName(roster[j].name, key) == Greater
    ensures s.Found? ==> KeyIndex(roster, key) == Some(s.index)
    ensures s.NotFound? ==> KeyIndex(roster, key).None? && Gap(roster, key) == s.index
  {
    match s
    case Found(i) =>
      var k := KeyIndex(roster, key).value;
      if k != i {
        SortedKeysDistinct(roster, k, i);
      }
    case NotFound(i) =>
      GapIs(roster, key, i);
  }

  /* ---------------------------------------------------------------------- */
  /* Department (department.rs)                                              */
  /* ---------------------------------------------------------------------- */

  class Department {
    const name: string
    const id: nat
    var employees: seq<Person>

    /** `Department::new`: the given name and id, nobody listed. */
    constructor (name: string, id: nat)
      ensures this.name == name && this.id == id && employees == []
    {
      this.name := name;
      this.id := id;
      employees := [];
    }

    /**
     * `remove_employee`: binary-search the sorted roster for an entry with
     * the employee's last and first name and remove that slot.
     */
    method RemoveEmployee(employee: Person) returns (r: Result<Person, DeptErr>)
      requires Sorted(employees)
      modifies this
      ensures match RosterRemove(old(employees), employee)
        case Ok((e, rest)) => r == Ok(e) && employees == rest
        case Err(x) => r == Err(x) && employees == old(employees)
      ensures Sorted(employees)
    {
      ProbesMonotone(employees, employee.name);
      var s := BinarySearchBy(Probes(employees, employee.name));
      SearchResult(employees, employee.name, s);
      match s
      case Found(i) =>
        RosterRemoveCorrect(employees, employee);
        r := Ok(employees[i]);
        employees := employees[..i] + employees[i + 1..];
      case NotFound(_) =>
        r := Err(DeptErr.RemoveEmployee);
    }

    /**
     * `add_employee`: binary-search the sorted roster; refuse when an entry
     * with the same last and first name is found, else insert at the gap.
     */
    method AddEmployee(employee: Person) returns (r: Result<(), DeptErr>)
      requires Sorted(employees)
      modifies this
      ensures match RosterAdd(old(employees), employee)
        case Ok(roster) => r == Ok(()) && employees == roster
        case Err(x) => r == Err(x) && employees == old(employees)
      ensures Sorted(employees)
    {
      ProbesMonotone(employees, employee.name);
      var s := BinarySearchBy(Probes(employees, employee.name));
      SearchResult(employees, employee.name, s);
      match s
      case Found(_) =>
        r := Err(DeptErr.AddEmployee);
      case NotFound(i) =>
        RosterAddCorrect(employees, employee);
        employees := employees[..i] + [employee] + employees[i..];
        r := Ok(());
    }
  }

  /* ---------------------------------------------------------------------- */
  /* Person and transfer (personnel.rs)                                      */
  /* ---------------------------------------------------------------------- */

  /** `Person::cmp`: people are ordered by their names. */
  function ComparePeople(a: Person, b: Person): (r: Ordering)
    ensures r == Equal <==> SameKey(a.name, b.name)
    ensures r == Less <==> NameLess(a.name, b.name)
  {
    CmpName(a.name, b.name)
  }

  /**
   * What `transfer` returns, read off the state before the call: refused for
   * the same department (compared by id), a panic when the person's key is
   * not in the old roster, a panic when the removed entry's key is already in
   * the new roster, and success otherwise.
   */
  function TransferVerdict(p: Person, from: Department, target: Department): Outcome<Result<(), PersonError>>
    reads from, target
  {
    if from.id == target.id then Returned(Err(Transfer(AlreadyInDept)))
    else
      match RosterRemove(from.employees, p)
      case Err(_) => Panicked(NotListedInDept)
      case Ok((q, _)) =>
        if RosterAdd(target.employees, q).Err? then Panicked(AlreadyInDept)
        else Returned(Ok(()))
  }

  /** The person's department pointer and history are as they were. */
  twostate predicate PersonUnchanged(p: Person)
    reads p
  {
    p.department == old(p.department) && p.deptHistory == old(p.deptHistory)
  }

  /**
   * The state `transfer` leaves behind, step by step: nothing for the same
   * department; nothing when the removal fails; the old roster shortened
   * when the insertion fails; and on success both rosters updated, the
   * department pointer moved and one history entry appended.
   */
  twostate predicate TransferEffect(p: Person, from: Department, target: Department, date: NaiveDate)
    reads p, from, target
  {
    if from.id == target.id then
      PersonUnchanged(p) && from.employees == old(from.employees) && target.employees == old(target.employees)
    else
      match RosterRemove(old(from.employees), p)
      case Err(_) =>
        && PersonUnchanged(p)
        && from.employees == old(from.employees) && target.employees == old(target.employees)
      case Ok((q, rest)) =>
        && from.employees == rest
        && match RosterAdd(old(target.employees), q)
           case Err(_) => PersonUnchanged(p) && target.employees == old(target.employees)
           case Ok(roster) =>
             && target.employees == roster
             && p.department == target
             && p.deptHistory == old(p.deptHistory) + [DeptEntry(target, date)]
  }

  class Person {
    const name: Name
    const dateOfHire: NaiveDate
    var department: Department
    var deptHistory: seq<DeptEntry>

    /** The struct literal in `PersonBuilder::build`. */
    constructor (name: Name, dateOfHire: NaiveDate, department: Department, deptHistory: seq<DeptEntry>)
      ensures this.name == name && this.dateOfHire == dateOfHire
      ensures this.department == department && this.deptHistory == deptHistory
    {
      this.name := name;
      this.dateOfHire := dateOfHire;
      this.department := department;
      this.deptHistory := deptHistory;
    }

    /**
     * `Person::transfer`: refuse a move to the current department; take
     * self out of the old roster (panic if missing); put the removed entry
     * into the new roster (panic if its key is there); repoint; record.
     */
    method Transfer(target: Department, date: NaiveDate) returns (r: Outcome<Result<(), PersonError>>)
      requires Sorted(department.employees) && Sorted(target.employees)
      modifies this, department, target
      ensures r == old(TransferVerdict(this, department, target))
      ensures TransferEffect(this, old(department), target, date)
      ensures Sorted(old(department).employees) && Sorted(target.employees)
    {
      if department.id == target.id {
        return Returned(Err(PersonError.Transfer(AlreadyInDept)));
      }
      var removed := department.RemoveEmployee(this);
      if removed.Err? {
        return Panicked(NotListedInDept);
      }
      var selfRef := removed.value;
      var added := target.AddEmployee(selfRef);
      if added.Err? {
        return Panicked(AlreadyInDept);
      }
      department := target;
      deptHistory := deptHistory + [DeptEntry(target, date)];
      return Returned(Ok(()));
    }
  }

  /* ---------------------------------------------------------------------- */
  /* PersonBuilder (personnel.rs)                                            */
  /* ---------------------------------------------------------------------- */

  class PersonBuilder {
    var nameFirst: Option<string>
    var nameLast: Option<string>
    var nameMid: Option<string>
    var doh: Option<NaiveDate>
    var dept: Option<Department>

    /** `PersonBuilder::new` (reached through `Person::builder`): nothing set. */
    constructor ()
      ensures nameFirst == None && nameLast == None && nameMid == None && doh == None && dept == None
    {
      nameFirst, nameLast, nameMid, doh, dept := None, None, None, None, None;
    }

    method FirstName(firstName: string)
      modifies this
      ensures nameFirst == Some(firstName)
      ensures nameLast == old(nameLast) && nameMid == old(nameMid) && doh == old(doh) && dept == old(dept)
    {
      nameFirst := Some(firstName);
    }

    method MiddleName(middleName: string)
      modifies this
      ensures nameMid == Some(middleName)
      ensures nameFirst == old(nameFirst) && nameLast == old(nameLast) && doh == old(doh) && dept == old(dept)
    {
      nameMid := Some(middleName);
    }

    method LastName(lastName: string)
      modifies this
      ensures nameLast == Some(lastName)
      ensures nameFirst == old(nameFirst) && nameMid == old(nameMid) && doh == old(doh) && dept == old(dept)
    {
      nameLast := Some(lastName);
    }

    method DateOfHire(dateOfHire: NaiveDate)
      modifies this
      ensures doh == Some(dateOfHire)
      ensures nameFirst == old(nameFirst) && nameLast == old(nameLast) && nameMid == old(nameMid) && dept == old(dept)
    {
      doh := Some(dateOfHire);
    }

    method Department(department: Department)
      modifies this
      ensures dept == Some(department)
      ensures nameFirst == old(nameFirst) && nameLast == old(nameLast) && nameMid == old(nameMid) && doh == old(doh)
    {
      dept := Some(department);
    }

    /** Every field `build` insists on is set; the middle name is optional. */
    predicate Complete()
      reads this
    {
      nameFirst.Some? && nameLast.Some? && doh.Some? && dept.Some?
    }

    /**
     * `build`: all or nothing. With a field missing the builder itself comes
     * back; otherwise a new person whose history holds one entry, the
     * starting department on the hire date.
     */
    method Build() returns (r: Result<Person, PersonBuilder>)
      ensures !Complete() ==> r == Err(this)
      ensures Complete() ==> r.Ok? && fresh(r.value)
      ensures Complete() ==> r.Ok? && r.value.name == Name(nameLast.value, nameMid, nameFirst.value)
      ensures Complete() ==> r.Ok? && r.value.dateOfHire == doh.value && r.value.department == dept.value
      ensures Complete() ==> r.Ok? && r.value.deptHistory == [DeptEntry(dept.value, doh.value)]
    {
      if nameFirst.None? || nameLast.None? || doh.None? || dept.None? {
        return Err(this);
      }
      var name := Name(nameLast.value, nameMid, nameFirst.value);
      var departmentRef := dept.value;
      var hired := doh.value;
      var entry := DeptEntry(departmentRef, hired);
      var p := new Person(name, hired, departmentRef, [entry]);
      return Ok(p);
    }
  }
}
