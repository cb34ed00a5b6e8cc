/**
 * The program data store (data_handling.rs): every department and person,
 * the two alias lists, the two alias maps and the two counters. It is the
 * only way in for the shell: create a department, create a person, move a
 * person to another department, and read back the lists.
 */
module DataHandling {
  import opened Wrappers
  import opened Ordering
  import opened Names
  import opened Dates
  import opened Personnel

  import opened StoreIndex

  /** `DataError`; its `Person(e)` and `Department(e)` wrappers come from the two `From` impls. */
  datatype DataError =
    | AddDept
    | AddPerson
    | NoSuchDept
    | NoSuchPerson
    | FromPerson(PersonError)
    | FromDepartment(DeptErr)

  /** The `?` on `transfer`'s result inside `add_to_dept`: a person error becomes `DataError::Person`. */
  function Lift(t: Outcome<Result<(), PersonError>>): (r: Outcome<Result<(), DataError>>)
    ensures t.Panicked? <==> r.Panicked?
    ensures t.Panicked? ==> r.cause == t.cause
    ensures (t.Returned? && t.value.Ok?) <==> (r.Returned? && r.value.Ok?)
    ensures t.Returned? && t.value.Err? ==> r == Returned(Err(FromPerson(t.value.error)))
  {
    match t
    case Panicked(cause) => Panicked(cause)
    case Returned(Ok(_)) => Returned(Ok(()))
    case Returned(Err(e)) => Returned(Err(FromPerson(e)))
  }

  class ProgramData {
    var deptAliases: seq<DepartmentAlias>
    var personAliases: seq<PersonAlias>
    var departments: map<string, Department>
    var personnel: map<string, Person>
    var employeeCount: nat
    var departmentCount: nat
    /** The department and person objects the two maps hold: the footprint of the rosters. */
    ghost var departmentSet: set<Department>
    ghost var personSet: set<Person>

    /** The department alias list: sorted, and listing exactly the keys of `departments`. */
    ghost predicate DeptIndexValid()
      reads this
    {
      IndexMatches(deptAliases, departments)
    }

    /** Ids run from 1 to `department_count` and no two departments share one. */
    ghost predicate DeptIdsValid()
      reads this
    {
      IdsWithin(departments, departmentCount)
    }

    /** The person alias list: insertion order, one entry per key of `personnel`, one count per entry. */
    ghost predicate PersonIndexValid()
      reads this
    {
      PeopleMatch(personAliases, personnel, employeeCount)
    }

    /** Every roster is sorted and lists registered people; everybody points at a registered department. */
    ghost predicate RostersValid()
      reads this, departmentSet, personSet
    {
      && departmentSet == departments.Values && personSet == personnel.Values
      && RostersMatch(departmentSet, personSet)
    }

    /** What every operation keeps, whatever it returns. */
    ghost predicate Valid()
      reads this, departmentSet, personSet
    {
      DeptIndexValid() && DeptIdsValid() && PersonIndexValid() && RostersValid()
    }

    /**
     * The key invariant: every registered person is listed in the roster of
     * the department they point to, and in no other roster.
     */
    ghost predicate Consistent()
      requires RostersValid()
      reads this, departmentSet, personSet
    {
      RostersConsistent(departmentSet, personSet)
    }

    /** A consistent store lists a person in their own department's roster only. */
    lemma ListedOnlyAtHome(p: Person, d: Department)
      requires Valid() && Consistent()
      requires p in personSet && d in departmentSet
      ensures p in d.employees <==> d == p.department
    {
    }

    /** `ProgramData::init`: nothing stored, both counters at zero. */
    constructor Init()
      ensures deptAliases == [] && personAliases == []
      ensures departments == map[] && personnel == map[]
      ensures employeeCount == 0 && departmentCount == 0
      ensures Valid() && Consistent()
    {
      deptAliases, personAliases := [], [];
      departments, personnel := map[], map[];
      departmentSet, personSet := {}, {};
      employeeCount, departmentCount := 0, 0;
    }

    /** `dept_list`: the department aliases, sorted, one per key of the department map. */
    function DeptList(): (r: seq<DepartmentAlias>)
      reads this
      ensures DeptIndexValid() ==> AliasesSorted(r) && DeptAliasSet(r) == departments.Keys
      ensures DeptIndexValid() ==> forall i :: 0 <= i < |r| ==> departments[r[i].alias] == r[i].pointer
    {
      IndexKeys(deptAliases, departments);
      deptAliases
    }

    /** `employee_list`: the person aliases in the order they were added, one per key, as many as the count. */
    function EmployeeList(): (r: seq<PersonAlias>)
      reads this
      ensures PersonIndexValid() ==> |r| == employeeCount && PersonAliasSet(r) == personnel.Keys
      ensures PersonIndexValid() ==> forall i :: 0 <= i < |r| ==> personnel[r[i].alias] == r[i].pointer
      ensures PersonIndexValid() ==> forall i, j :: 0 <= i < j < |r| ==> r[i].alias != r[j].alias
    {
      PeopleKeys(personAliases, personnel, employeeCount);
      personAliases
    }

    /** `departments`: the alias map, keyed by exactly the listed aliases, ids within 1..count. */
    function Departments(): (r: map<string, Department>)
      reads this
      ensures DeptIndexValid() ==> r.Keys == DeptAliasSet(deptAliases)
      ensures DeptIdsValid() ==> forall a :: a in r ==> 1 <= r[a].id <= departmentCount
    {
      IndexKeys(deptAliases, departments);
      departments
    }

    /**
     * `add_dept`: refuse an alias already in `departments`; otherwise bump
     * the counter, build the department with the new count as its id, insert
     * the alias into the sorted alias list at the gap, and register it.
     */
    method AddDept(alias: string, deptName: string) returns (r: Result<Department, DataError>)
      requires Valid()
      modifies this
      ensures Valid()
      ensures alias in old(departments) ==> r == Err(DataError.AddDept) && unchanged(this)
      ensures alias !in old(departments) ==>
        && r.Ok? && fresh(r.value)
        && r.value.name == deptName && r.value.id == old(departmentCount) + 1 && r.value.employees == []
        && departmentCount == old(departmentCount) + 1
        && departments == old(departments)[alias := r.value]
        && AliasInserted(old(deptAliases), DepartmentAlias(alias, r.value), deptAliases)
        && personAliases == old(personAliases) && personnel == old(personnel)
        && employeeCount == old(employeeCount)
      ensures old(Consistent()) ==> Consistent()
    {
      if alias in departments {
        return Err(DataError.AddDept);
      }
      var gap := FindAliasGap(deptAliases, alias);
      if gap.None? {
        // The alias list holds exactly the keys of `departments`, so this
        // second guard of the source cannot fire.
        assert false;
      }
      var newDepartment := new Department(deptName, departmentCount + 1);
      RegisterKeepsRosters(departments, personSet, alias, newDepartment);
      InsertDept(alias, newDepartment, gap.value);
      r := Ok(newDepartment);
    }

    /**
     * The rest of `add_dept` once the gap is known and the department is
     * built: the insertion at the gap, the map entry and the counter (which
     * the source bumps before building the department; no step in between
     * reads it).
     */
    method InsertDept(alias: string, d: Department, i: nat)
      requires DeptIndexValid() && DeptIdsValid() && PersonIndexValid()
      requires departmentSet == departments.Values && personSet == personnel.Values
      requires RostersMatch(departments[alias := d].Values, personSet)
      requires alias !in departments && GapFor(deptAliases, alias, i) && d.id == departmentCount + 1
      modifies this
      ensures Valid()
      ensures departmentCount == old(departmentCount) + 1
      ensures departments == old(departments)[alias := d]
      ensures AliasInserted(old(deptAliases), DepartmentAlias(alias, d), deptAliases)
      ensures personAliases == old(personAliases) && personnel == old(personnel)
      ensures employeeCount == old(employeeCount)
      ensures old(RostersConsistent(departments[alias := d].Values, personSet)) ==> Consistent()
    {
      var deptAlias := DepartmentAlias(alias, d);
      DeptInsertionKeeps(deptAliases, departments, departmentCount, i, deptAlias);
      departmentCount, deptAliases, departments :=
        departmentCount + 1, deptAliases[..i] + [deptAlias] + deptAliases[i..], departments[alias := d];
      departmentSet := departments.Values;
    }

    /**
     * `add_person`: refuse an alias already in `personnel`; otherwise move
     * the person into a new shared handle, append the alias, add the map
     * entry, bump the counter and enrol the person in their department. A
     * failed enrolment is passed on as `Department(e)` with the registration
     * left in place.
     */
    method AddPerson(alias: string, person: Person) returns (r: Result<Person, DataError>)
      requires Valid() && person.department in departmentSet
      modifies this, person.department
      ensures Valid()
      ensures alias in old(personnel) ==>
        r == Err(DataError.AddPerson) && unchanged(this) && unchanged(person.department)
      ensures alias !in old(personnel) ==>
        && alias in personnel && fresh(personnel[alias])
        && personnel[alias].name == person.name && personnel[alias].dateOfHire == person.dateOfHire
        && personnel[alias].department == person.department && personnel[alias].deptHistory == person.deptHistory
        && personnel == old(personnel)[alias := personnel[alias]]
        && personAliases == old(personAliases) + [PersonAlias(alias, personnel[alias])]
        && employeeCount == old(employeeCount) + 1
        && deptAliases == old(deptAliases) && departments == old(departments)
        && departmentCount == old(departmentCount)
        && match RosterAdd(old(person.department.employees), personnel[alias])
           case Ok(roster) => r == Ok(personnel[alias]) && person.department.employees == roster
           case Err(e) => r == Err(DataError.FromDepartment(e)) && person.department.employees == old(person.department.employees)
      ensures r.Ok? && old(Consistent()) ==> Consistent()
      ensures r.Err? && alias !in old(personnel) ==> !Consistent()
    {
      if alias in personnel {
        return Err(DataError.AddPerson);
      }
      var p := new Person(person.name, person.dateOfHire, person.department, person.deptHistory);
      RegisterPersonKeepsRosters(departmentSet, personnel, alias, p);
      RegisterPerson(alias, p);
      var added := Enroll(p);
      if added.Err? {
        return Err(DataError.FromDepartment(added.error));
      }
      r := Ok(p);
    }

    /** The registration steps of `add_person`: alias pushed, map entry added, counter bumped. */
    method RegisterPerson(alias: string, p: Person)
      requires DeptIndexValid() && DeptIdsValid() && PersonIndexValid()
      requires departmentSet == departments.Values && personSet == personnel.Values
      requires RostersMatch(departmentSet, personnel[alias := p].Values) && alias !in personnel
      modifies this
      ensures Valid()
      ensures personAliases == old(personAliases) + [PersonAlias(alias, p)]
      ensures personnel == old(personnel)[alias := p]
      ensures employeeCount == old(employeeCount) + 1
      ensures deptAliases == old(deptAliases) && departments == old(departments)
      ensures departmentCount == old(departmentCount) && departmentSet == old(departmentSet)
      ensures old(ConsistentApart(departmentSet, personnel[alias := p].Values, p)) ==> ConsistentApart(departmentSet, personSet, p)
    {
      PersonAppendKeeps(personAliases, personnel, employeeCount, alias, p);
      personAliases, personnel, employeeCount := personAliases + [PersonAlias(alias, p)], personnel[alias := p], employeeCount + 1;
      personSet := personnel.Values;
    }

    /** The last step of `add_person`: `add_employee` on the person's own department. */
    method Enroll(p: Person) returns (added: Result<(), DeptErr>)
      requires Valid() && p in personSet && p !in p.department.employees
      modifies p.department
      ensures Valid()
      ensures match RosterAdd(old(p.department.employees), p)
        case Ok(roster) => added == Ok(()) && p.department.employees == roster
        case Err(e) => added == Err(e) && p.department.employees == old(p.department.employees)
      ensures added.Ok? && old(ConsistentApart(departmentSet, personSet, p)) ==> Consistent()
      ensures added.Err? ==> !Consistent()
    {
      added := p.department.AddEmployee(p);
      if added.Ok? {
        RosterAddMembers(old(p.department.employees), p);
      }
    }

    /**
     * `add_to_dept`: look the person up (`NoSuchPerson` first), then the
     * department (`NoSuchDept`), default the date to `today` (the clock's
     * `Local::today`) and delegate to `transfer`, wrapping its error as
     * `Person(e)`.
     */
    method AddToDept(personAlias: string, deptAlias: string, date: Option<NaiveDate>, today: NaiveDate)
      returns (r: Outcome<Result<(), DataError>>)
      requires Valid()
      modifies personSet, departmentSet
      ensures Valid()
      ensures personAlias !in personnel ==>
        r == Returned(Err(DataError.NoSuchPerson)) && unchanged(personSet, departmentSet)
      ensures personAlias in personnel && deptAlias !in departments ==>
        r == Returned(Err(DataError.NoSuchDept)) && unchanged(personSet, departmentSet)
      ensures personAlias in personnel && deptAlias in departments ==>
        var p, target := personnel[personAlias], departments[deptAlias];
        && r == Lift(old(TransferVerdict(p, p.department, target)))
        && TransferEffect(p, old(p.department), target, if date.Some? then date.value else today)
        && unchanged(personSet - {p}) && unchanged(departmentSet - {old(p.department), target})
      ensures old(Consistent()) ==> r != Panicked(NotListedInDept)
      ensures old(Consistent()) && r.Returned? ==> Consistent()
    {
      if personAlias !in personnel {
        return Returned(Err(DataError.NoSuchPerson));
      }
      var person := personnel[personAlias];
      if deptAlias !in departments {
        return Returned(Err(DataError.NoSuchDept));
      }
      var department := departments[deptAlias];
      var transferDate := if date.Some? then date.value else today;
      IdsDistinct(departments, departmentCount, person.department, department);
      var t := Move(person, department, transferDate);
      r := Lift(t);
    }

    /**
     * `transfer` of a registered person to a registered department, and what
     * it does to the store: the rosters stay valid; from a consistent store
     * the person is always found in their roster, and a move that returns
     * leaves the store consistent; the `AlreadyInDept` panic leaves the
     * person in no roster, so the store is inconsistent.
     */
    method Move(p: Person, target: Department, date: NaiveDate) returns (r: Outcome<Result<(), PersonError>>)
      requires RostersMatch(departmentSet, personSet) && p in personSet && target in departmentSet
      requires p.department.id == target.id ==> p.department == target
      modifies p, p.department, target
      ensures RostersMatch(departmentSet, personSet)
      ensures r == old(TransferVerdict(p, p.department, target))
      ensures TransferEffect(p, old(p.department), target, date)
      ensures old(RostersConsistent(departmentSet, personSet)) ==> r != Panicked(NotListedInDept)
      ensures old(RostersConsistent(departmentSet, personSet)) && r.Returned? ==> RostersConsistent(departmentSet, personSet)
      ensures r == Panicked(AlreadyInDept) ==> !RostersConsistent(departmentSet, personSet)
    {
      ghost var from := p.department;
      ghost var fromRoster, targetRoster := from.employees, target.employees;
      ghost var wasConsistent := RostersConsistent(departmentSet, personSet);
      TransferSplits(departmentSet, personSet, p, target);
      assert forall q :: q in fromRoster ==> q in personSet;
      assert forall q :: q in targetRoster ==> q in personSet;
      if wasConsistent {
        RemoveMember(fromRoster, p);
      }
      r := Step(p, target, date);
      if from == target {
        TransferRejoins(departmentSet, personSet, p, from, target);
        if wasConsistent {
          StillConsistent(departmentSet, personSet, p, from, target, fromRoster, targetRoster);
        }
      } else if RosterRemove(fromRoster, p).Err? {
        TransferRejoins(departmentSet, personSet, p, from, target);
      } else {
        var (q, rest) := RosterRemove(fromRoster, p).value;
        RosterRemoveMembers(fromRoster, p);
        if p in fromRoster {
          RemoveMember(fromRoster, p);
        }
        if RosterAdd(targetRoster, q).Err? {
          TransferRejoins(departmentSet, personSet, p, from, target);
          assert p !in from.employees;
        } else {
          RosterAddMembers(targetRoster, q);
          TransferRejoins(departmentSet, personSet, p, from, target);
          if wasConsistent {
            TransferKeepsConsistent(departmentSet, personSet, p, from, target, fromRoster, targetRoster);
          }
        }
      }
    }

    /** `transfer` itself, and the part of the store it leaves alone. */
    method Step(p: Person, target: Department, date: NaiveDate) returns (r: Outcome<Result<(), PersonError>>)
      requires Sorted(p.department.employees) && Sorted(target.employees)
      modifies p, p.department, target
      ensures r == old(TransferVerdict(p, p.department, target))
      ensures TransferEffect(p, old(p.department), target, date)
      ensures Sorted(old(p.department).employees) && Sorted(target.employees)
      ensures old(MatchAside(departmentSet, personSet, p, p.department, target)) ==>
        MatchAside(departmentSet, personSet, p, old(p.department), target)
      ensures old(ConsistentAside(departmentSet, personSet, p, p.department, target, p.department.employees, target.employees)) ==>
        ConsistentAside(departmentSet, personSet, p, old(p.department), target, old(p.department.employees), old(target.employees))
    {
      r := p.Transfer(target, date);
    }
  }
}
