/**
 * The indices of the program data store (data_handling.rs): the two alias
 * types, the sorted department alias list and what ties the alias lists, the
 * maps and the rosters together, stated on plain values so that the store's
 * methods only have to connect their fields to them.
 */
module StoreIndex {
  import opened Wrappers
  import opened Ordering
  import opened Personnel

  datatype DepartmentAlias = DepartmentAlias(alias: string, pointer: Department)

  datatype PersonAlias = PersonAlias(alias: string, pointer: Person)

  /** `Ord for DepartmentAlias`: the alias alone decides; the department it points to does not. */
  function CmpDepartmentAlias(a: DepartmentAlias, b: DepartmentAlias): (r: Ordering)
    ensures r == Equal <==> a.alias == b.alias
    ensures r == CmpStr(a.alias, b.alias)
  {
    CmpStr(a.alias, b.alias)
  }

  /** `dept_aliases` is strictly increasing in the alias order. */
  ghost predicate AliasesSorted(s: seq<DepartmentAlias>) {
    forall i, j {:trigger CmpDepartmentAlias(s[i], s[j])} :: 0 <= i < j < |s| ==> CmpDepartmentAlias(s[i], s[j]) == Less
  }

  ghost function DeptAliasSet(s: seq<DepartmentAlias>): set<string> {
    set i | 0 <= i < |s| :: s[i].alias
  }

  ghost function PersonAliasSet(s: seq<PersonAlias>): set<string> {
    set i | 0 <= i < |s| :: s[i].alias
  }

  /** What the comparator `|a| a.cmp(&dept_alias)` answers for each entry. */
  function AliasProbes(s: seq<DepartmentAlias>, alias: string): (probes: seq<Ordering>)
    ensures |probes| == |s|
    ensures forall i :: 0 <= i < |s| ==> probes[i] == CmpStr(s[i].alias, alias)
  {
    seq(|s|, i requires 0 <= i < |s| => CmpStr(s[i].alias, alias))
  }

  lemma AliasProbesMonotone(s: seq<DepartmentAlias>, alias: string)
    requires AliasesSorted(s)
    ensures Monotone(AliasProbes(s, alias))
  {
    var probes := AliasProbes(s, alias);
    forall i, j | 0 <= i < j < |probes|
      ensures probes[i].Rank() <= probes[j].Rank()
    {
      assert CmpDepartmentAlias(s[i], s[j]) == Less;
      CmpStrProbeOrder(s[i].alias, s[j].alias, alias);
    }
  }

  /**
   * Inserting at the gap the binary search reports keeps the alias list
   * strictly sorted, adds exactly the new alias to its alias set and the new
   * entry to its members.
   */
  lemma AliasInsertAtGap(s: seq<DepartmentAlias>, k: nat, entry: DepartmentAlias)
    requires AliasesSorted(s) && k <= |s|
    requires forall j :: 0 <= j < k ==> CmpStr(s[j].alias, entry.alias) == Less
    requires forall j :: k <= j < |s| ==> CmpStr(s[j].alias, entry.alias) == Greater
    ensures AliasesSorted(s[..k] + [entry] + s[k..])
    ensures forall x :: x in s[..k] + [entry] + s[k..] <==> x in s || x == entry
  {
    var r := s[..k] + [entry] + s[k..];
    forall i, j | 0 <= i < j < |r|
      ensures CmpDepartmentAlias(r[i], r[j]) == Less
    {
      if i == k {
        assert r[j] == s[j - 1];
        CmpStrAntisymmetric(s[j - 1].alias, entry.alias);
      } else if j == k {
      } else {
        var i' := if i < k then i else i - 1;
        var j' := if j < k then j else j - 1;
        assert r[i] == s[i'] && r[j] == s[j'];
        assert CmpDepartmentAlias(s[i'], s[j']) == Less;
      }
    }
    assert s == s[..k] + s[k..];
  }

  /** `after` is `before` with `entry` put in at one position. */
  ghost predicate AliasInserted(before: seq<DepartmentAlias>, entry: DepartmentAlias, after: seq<DepartmentAlias>) {
    exists k :: 0 <= k <= |before| && after == before[..k] + [entry] + before[k..]
  }

  /** Every alias before `k` is below `alias` and every alias from `k` on is above it. */
  ghost predicate GapFor(aliases: seq<DepartmentAlias>, alias: string, k: nat) {
    && k <= |aliases|
    && (forall j :: 0 <= j < k ==> CmpStr(aliases[j].alias, alias) == Less)
    && (forall j :: k <= j < |aliases| ==> CmpStr(aliases[j].alias, alias) == Greater)
  }

  /**
   * The `binary_search` of `add_dept`: `None` when the alias is already
   * listed (the source's second guard), otherwise the gap where it belongs.
   */
  method FindAliasGap(aliases: seq<DepartmentAlias>, alias: string) returns (r: Option<nat>)
    requires AliasesSorted(aliases)
    ensures r.None? <==> exists j :: 0 <= j < |aliases| && aliases[j].alias == alias
    ensures r.Some? ==> GapFor(aliases, alias, r.value)
  {
    AliasProbesMonotone(aliases, alias);
    var s := BinarySearchBy(AliasProbes(aliases, alias));
    match s
    case Found(i) =>
      assert aliases[i].alias == alias;
      r := None;
    case NotFound(i) =>
      r := Some(i);
      forall j | 0 <= j < |aliases|
        ensures aliases[j].alias != alias
      {
        assert CmpStr(aliases[j].alias, alias) != Equal;
      }
  }

  /** Registering a fresh key adds exactly its value to the values of a map. */
  lemma MapAddValues<K, V>(m: map<K, V>, k: K, v: V)
    requires k !in m
    ensures m[k := v].Values == m.Values + {v}
  {
    forall x | x in m.Values
      ensures x in m[k := v].Values
    {
      var key :| key in m && m[key] == x;
      assert m[k := v][key] == x;
    }
    forall x | x in m[k := v].Values
      ensures x in m.Values + {v}
    {
      var key :| key in m[k := v] && m[k := v][key] == x;
      if key != k { assert m[key] == x; }
    }
    assert m[k := v][k] == v;
  }

  /**
   * A department alias list that is sorted and pairs exactly the keys of
   * `departments` with their values.
   */
  ghost predicate IndexMatches(aliases: seq<DepartmentAlias>, departments: map<string, Department>) {
    && AliasesSorted(aliases)
    && (forall x :: x in aliases ==> x.alias in departments && departments[x.alias] == x.pointer)
    && (forall a :: a in departments ==> DepartmentAlias(a, departments[a]) in aliases)
  }

  /** Department ids lie in 1..count and are pairwise distinct. */
  ghost predicate IdsWithin(departments: map<string, Department>, count: nat) {
    && (forall a {:trigger departments[a].id} :: a in departments ==> 1 <= departments[a].id <= count)
    && (forall a, b {:trigger departments[a].id, departments[b].id} ::
          a in departments && b in departments && a != b ==> departments[a].id != departments[b].id)
  }

  /**
   * The `insert` of `add_dept`: putting the entry at its gap yields a list
   * that matches the map grown by the same entry.
   */
  lemma IndexInsert(aliases: seq<DepartmentAlias>, departments: map<string, Department>, k: nat, entry: DepartmentAlias)
    requires IndexMatches(aliases, departments) && entry.alias !in departments
    requires GapFor(aliases, entry.alias, k)
    ensures AliasInserted(aliases, entry, aliases[..k] + [entry] + aliases[k..])
    ensures IndexMatches(aliases[..k] + [entry] + aliases[k..], departments[entry.alias := entry.pointer])
  {
    AliasInsertAtGap(aliases, k, entry);
  }

  /** A new department whose id is the bumped count keeps the ids distinct and in range. */
  lemma IdsGrow(departments: map<string, Department>, count: nat, alias: string, d: Department)
    requires IdsWithin(departments, count) && alias !in departments && d.id == count + 1
    ensures IdsWithin(departments[alias := d], count + 1)
  {
  }

  /** Two different registered departments have different ids. */
  lemma IdsDistinct(departments: map<string, Department>, count: nat, d: Department, e: Department)
    requires IdsWithin(departments, count) && d in departments.Values && e in departments.Values
    ensures d.id == e.id <==> d == e
  {
    var a :| a in departments && departments[a] == d;
    var b :| b in departments && departments[b] == e;
    assert departments[a].id == d.id && departments[b].id == e.id;
  }

  /** Two person aliases with different names. */
  predicate Apart(x: PersonAlias, y: PersonAlias) {
    x.alias != y.alias
  }

  /**
   * The person alias list pairs exactly the keys of `personnel` with their
   * values, lists no alias twice, and has one entry per count.
   */
  ghost predicate PeopleMatch(aliases: seq<PersonAlias>, personnel: map<string, Person>, count: nat) {
    && (forall x :: x in aliases ==> x.alias in personnel && personnel[x.alias] == x.pointer)
    && (forall a :: a in personnel ==> PersonAlias(a, personnel[a]) in aliases)
    && (forall i, j {:trigger Apart(aliases[i], aliases[j])} :: 0 <= i < j < |aliases| ==> Apart(aliases[i], aliases[j]))
    && count == |aliases|
  }

  /** Rosters sorted, listing only people of `people`, and everybody in `people` pointing into `depts`. */
  ghost predicate RostersMatch(depts: set<Department>, people: set<Person>)
    reads depts, people
  {
    && (forall d :: d in depts ==> Sorted(d.employees))
    && (forall d, q :: d in depts && q in d.employees ==> q in people)
    && (forall p :: p in people ==> p.department in depts)
  }

  /** Everybody is in their own department's roster, and only their own department lists them. */
  ghost predicate RostersConsistent(depts: set<Department>, people: set<Person>)
    requires RostersMatch(depts, people)
    reads depts, people
  {
    && (forall p :: p in people ==> p in p.department.employees)
    && (forall d, q :: d in depts && q in d.employees ==> q.department == d)
  }

  /**
   * Consistent except that `p` may be missing from its own department's
   * roster: the state between registering a person and enrolling them.
   */
  ghost predicate ConsistentApart(depts: set<Department>, people: set<Person>, p: Person)
    requires RostersMatch(depts, people)
    reads depts, people
  {
    && (forall q :: q in people && q != p ==> q in q.department.employees)
    && (forall d, q :: d in depts && q in d.employees ==> q.department == d)
  }

  /**
   * Registering a department with an empty roster under a fresh alias keeps
   * the rosters valid over the enlarged map and the store consistent.
   */
  lemma RegisterKeepsRosters(departments: map<string, Department>, people: set<Person>, alias: string, d: Department)
    requires RostersMatch(departments.Values, people) && alias !in departments && d.employees == []
    ensures RostersMatch(departments[alias := d].Values, people)
    ensures RostersConsistent(departments.Values, people) ==> RostersConsistent(departments[alias := d].Values, people)
  {
    MapAddValues(departments, alias, d);
  }

  /**
   * What the department index keeps when `add_dept` registers `entry` at
   * gap `k`: the sorted alias list and the ids.
   */
  lemma DeptInsertionKeeps(aliases: seq<DepartmentAlias>, departments: map<string, Department>, count: nat,
                           k: nat, entry: DepartmentAlias)
    requires IndexMatches(aliases, departments) && IdsWithin(departments, count)
    requires entry.alias !in departments && GapFor(aliases, entry.alias, k) && entry.pointer.id == count + 1
    ensures AliasInserted(aliases, entry, aliases[..k] + [entry] + aliases[k..])
    ensures IndexMatches(aliases[..k] + [entry] + aliases[k..], departments[entry.alias := entry.pointer])
    ensures IdsWithin(departments[entry.alias := entry.pointer], count + 1)
  {
    IndexInsert(aliases, departments, k, entry);
    IdsGrow(departments, count, entry.alias, entry.pointer);
  }

  /**
   * What the person index keeps when `add_person` appends `(alias, p)`: the
   * alias list still pairs the map's entries, lists no alias twice and has
   * one entry per count.
   */
  lemma PersonAppendKeeps(aliases: seq<PersonAlias>, personnel: map<string, Person>, count: nat,
                          alias: string, p: Person)
    requires PeopleMatch(aliases, personnel, count) && alias !in personnel
    ensures PeopleMatch(aliases + [PersonAlias(alias, p)], personnel[alias := p], count + 1)
  {
    var after := aliases + [PersonAlias(alias, p)];
    forall i, j | 0 <= i < j < |after|
      ensures Apart(after[i], after[j])
    {
      if j == |aliases| {
        assert after[i] in aliases;
      }
    }
  }

  /**
   * Registering under a fresh alias a person who is on no roster yet keeps
   * the rosters valid over the enlarged map, and leaves a consistent store
   * consistent apart from that person.
   */
  lemma RegisterPersonKeepsRosters(depts: set<Department>, personnel: map<string, Person>, alias: string, p: Person)
    requires RostersMatch(depts, personnel.Values) && alias !in personnel
    requires p.department in depts && p !in personnel.Values
    ensures RostersMatch(depts, personnel[alias := p].Values)
    ensures p !in p.department.employees
    ensures RostersConsistent(depts, personnel.Values) ==> ConsistentApart(depts, personnel[alias := p].Values, p)
  {
    MapAddValues(personnel, alias, p);
  }

  /* ---------------------------------------------------------------------- */
  /* The store around a transfer of `p` from `from` to `target`: the part    */
  /* `transfer` does not touch, stated so that it reads only that part.      */
  /* ---------------------------------------------------------------------- */

  /** RostersMatch for the departments other than `from` and `target` and the people other than `p`. */
  ghost predicate MatchAside(depts: set<Department>, people: set<Person>, p: Person, from: Department, target: Department)
    reads depts - {from, target}, people - {p}
  {
    && (forall d :: d in depts && d != from && d != target ==> Sorted(d.employees))
    && (forall d, q :: d in depts && d != from && d != target && q in d.employees ==> q in people)
    && (forall q :: q in people && q != p ==> q.department in depts)
  }

  /**
   * RostersConsistent for everyone but `p`, with the rosters of `from` and
   * `target` given as the values `fromRoster` and `targetRoster` they had
   * before the transfer.
   */
  ghost predicate ConsistentAside(depts: set<Department>, people: set<Person>, p: Person,
                                  from: Department, target: Department,
                                  fromRoster: seq<Person>, targetRoster: seq<Person>)
    reads depts - {from, target}, people - {p}
  {
    && (forall q :: q in people && q != p ==>
          if q.department == from then q in fromRoster
          else if q.department == target then q in targetRoster
          else q.department in depts ==> q in q.department.employees)
    && (forall d, q :: d in depts && d != from && d != target && q in d.employees ==>
          q != p && q in people && q.department == d)
    && (forall q :: q in fromRoster && q != p ==> q in people && q.department == from)
    && (forall q :: q in targetRoster && q != p ==> q in people && q.department == target)
  }

  /** Before a transfer of `p` out of its department: the untouched part, and (if consistent) its consistency. */
  lemma TransferSplits(depts: set<Department>, people: set<Person>, p: Person, target: Department)
    requires RostersMatch(depts, people) && p in people && target in depts
    ensures MatchAside(depts, people, p, p.department, target)
    ensures RostersConsistent(depts, people) ==>
      && ConsistentAside(depts, people, p, p.department, target, p.department.employees, target.employees)
      && p in p.department.employees
      && (target != p.department ==> p !in target.employees)
  {
  }

  /** After a transfer: the two rosters it touched are sorted and list registered people, so the rosters match. */
  lemma TransferRejoins(depts: set<Department>, people: set<Person>, p: Person, from: Department, target: Department)
    requires MatchAside(depts, people, p, from, target)
    requires from in depts && target in depts && p in people && p.department in depts
    requires Sorted(from.employees) && Sorted(target.employees)
    requires forall q :: q in from.employees ==> q in people
    requires forall q :: q in target.employees ==> q in people
    ensures RostersMatch(depts, people)
  {
  }

  /** After a successful transfer: `p` moved from one roster to the other, so the store is consistent again. */
  lemma TransferKeepsConsistent(depts: set<Department>, people: set<Person>, p: Person,
                                from: Department, target: Department,
                                fromRoster: seq<Person>, targetRoster: seq<Person>)
    requires RostersMatch(depts, people) && ConsistentAside(depts, people, p, from, target, fromRoster, targetRoster)
    requires from in depts && target in depts && from != target && p in people && p.department == target
    requires forall x :: x in from.employees <==> x in fromRoster && x != p
    requires forall x :: x in target.employees <==> x in targetRoster || x == p
    ensures RostersConsistent(depts, people)
  {
  }

  /** After a transfer that changed nothing: a store that was consistent still is. */
  lemma StillConsistent(depts: set<Department>, people: set<Person>, p: Person,
                        from: Department, target: Department,
                        fromRoster: seq<Person>, targetRoster: seq<Person>)
    requires RostersMatch(depts, people) && ConsistentAside(depts, people, p, from, target, fromRoster, targetRoster)
    requires from in depts && target in depts && p in people && p.department == from
    requires from.employees == fromRoster && target.employees == targetRoster && p in fromRoster
    requires target != from ==> p !in targetRoster
    ensures RostersConsistent(depts, people)
  {
  }

  /** A matching department index lists exactly the map's keys. */
  lemma IndexKeys(aliases: seq<DepartmentAlias>, departments: map<string, Department>)
    ensures IndexMatches(aliases, departments) ==> DeptAliasSet(aliases) == departments.Keys
  {
    if IndexMatches(aliases, departments) {
      forall a | a in departments
        ensures a in DeptAliasSet(aliases)
      {
        var i :| 0 <= i < |aliases| && aliases[i] == DepartmentAlias(a, departments[a]);
      }
    }
  }

  /** A matching person index lists exactly the map's keys, each once. */
  lemma PeopleKeys(aliases: seq<PersonAlias>, personnel: map<string, Person>, count: nat)
    ensures PeopleMatch(aliases, personnel, count) ==>
      && PersonAliasSet(aliases) == personnel.Keys
      && forall i, j :: 0 <= i < j < |aliases| ==> aliases[i].alias != aliases[j].alias
  {
    if PeopleMatch(aliases, personnel, count) {
      forall a | a in personnel
        ensures a in PersonAliasSet(aliases)
      {
        var i :| 0 <= i < |aliases| && aliases[i] == PersonAlias(a, personnel[a]);
      }
      forall i, j | 0 <= i < j < |aliases|
        ensures aliases[i].alias != aliases[j].alias
      {
        assert Apart(aliases[i], aliases[j]);
      }
    }
  }
}
