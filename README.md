# depart_mental roster manager, modelled in Dafny

This project models the core of the `depart_mental` roster manager, an
in-memory program that keeps departments and people. Every department keeps
a roster of its people, sorted by name. Every person points at one department
and keeps a history of the departments they joined. The `ProgramData` store
holds both, under user-chosen aliases. The model covers:

- `Department` (department.rs): creation, `remove_employee` and `add_employee`.
  The two roster operations binary-search the sorted roster by last and first
  name.
- `Person`, `Name` and `PersonBuilder` (personnel.rs): the name order, which
  ignores the middle name, and the name's `Display` form. The builder's setters,
  and `build`, which gives all or nothing. And `transfer`, which takes a person
  out of one roster, puts them into another, and panics on corrupt rosters.
- `ProgramData` (data_handling.rs): `init`, `add_dept`, `add_person` and
  `add_to_dept`, the three read accessors, the `DepartmentAlias` order and the
  error type.
- Three functions of the text shell (textinterface.rs): `sort_employees`, which
  lists the employees by name, and `parse_date_us` / `format_date_us`, for the
  `MM/DD/YYYY` date text.

Modules:

| file | module | models |
|---|---|---|
| wrappers.dfy | Wrappers | `Option`, `Result` |
| ordering.dfy | Ordering | `std::cmp::Ordering`, `String::cmp`, `binary_search_by` |
| names.dfy | Names | `Name`, its `Ord` and `Display` |
| dates.dfy | Dates | chrono's `NaiveDate` and `from_ymd_opt` |
| personnel.dfy | Personnel | `Department`, `Person`, `PersonBuilder`, the roster operations as values |
| store_index.dfy | StoreIndex | alias lists, alias maps, and the store invariants |
| data_handling.dfy | DataHandling | `ProgramData` and `DataError` |
| textinterface.dfy | TextInterface | `sort_employees`, `parse_date_us`, `format_date_us` |

`Rc<RefCell<..>>` handles become Dafny object references. A `Department` and
a `Person` are classes, and the methods that change them have `modifies`
clauses. Each roster operation is specified by a pure function on sequences
(`RosterAdd`, `RosterRemove`). The method that changes a roster is proved to
agree with that function, and the properties are proved about the functions.
`transfer` has two `expect` calls. When one fails, the result is
`Outcome.Panicked(cause)`. The state at that point is described exactly: the
Rust code does not undo the steps already taken.

The store's invariant `ProgramData.Valid()` has four parts:

- the department alias list is strictly sorted and lists exactly the keys of
  the department map;
- department ids lie in 1..`department_count` and are pairwise distinct;
- the person alias list pairs each map entry once, in insertion order, with
  one list entry per count;
- every roster is sorted, and everybody points at a registered department.

`Consistent()` is the roster invariant: every registered person is listed in
the roster of their own department and in no other roster. Every store
operation is proved to keep `Valid()`. The successful operations are proved to
keep `Consistent()`.

Three places where the code can leave the store in a state the model records
exactly:

- `add_person` does not undo the registration when enrolment fails
  (data_handling.rs:92-112): the alias, the map entry and the counter stay
  updated as the error is returned. `AddPerson` states this, and proves that
  the store is then not `Consistent()`.
- `add_dept` bumps the counter (data_handling.rs:51) before its second guard,
  the binary search on the alias list (data_handling.rs:64-70), and nothing is
  undone when that guard fires. `AddDept` proves that the guard cannot fire
  in a valid store.
- `transfer` removes the person from the old roster before it adds them to the
  new one (personnel.rs:123-132). When the add fails, it panics with the
  person already removed; its own doc comment says this leads to corruption
  (personnel.rs:104-108). `Move` proves that this state is not `Consistent()`.

## Model

| member | source | states |
|---|---|---|
| Ordering.BinarySearchBy | src/department.rs:41-48 | on comparator answers that are monotone, returns a position holding `Equal`, or the gap with every entry before it `Less` and every entry from it `Greater` |
| Ordering.CmpStrLessIff | src/personnel.rs:220-224 | `String::cmp` answers `Less` exactly for the lexicographic order |
| Ordering.CmpStrAntisymmetric | src/personnel.rs:220-224 | swapping the arguments of `String::cmp` reverses the answer |
| Ordering.CmpStrTransitive | src/personnel.rs:220-224 | `String::cmp`'s `Less` is transitive |
| Ordering.CmpStr | src/personnel.rs:220-224 | `String::cmp`, the lexicographic order on characters; `Equal` exactly for equal strings |
| Ordering.CmpStrProbeOrder | src/data_handling.rs:65 | against a fixed string, a lower string never compares higher than a greater one |
| Names.CmpNameLessIff | src/personnel.rs:218-226 | `Name::cmp` is the lexicographic order on (last, first) |
| Names.CmpNameEqualIff | src/personnel.rs:218-226 | `Name::cmp` answers `Equal` exactly when the last names and the first names both match |
| Names.CmpNameIgnoresMiddle | src/personnel.rs:218-226 | changing either middle name never changes the comparison |
| Names.CmpNameAntisymmetric | src/personnel.rs:218-226 | swapping the arguments reverses the answer |
| Names.CmpNameTransitive | src/personnel.rs:218-226 | `Less` is transitive |
| Names.CmpNameSameKey | src/personnel.rs:218-226 | two names with the same last and first name compare alike against any third |
| Names.CmpNameTotal | src/personnel.rs:218-226 | any two names are ordered one way or the other, or share last and first name |
| Names.CmpName | src/personnel.rs:218-226 | `Name::cmp`: the last names decide unless they are equal, then the first names; its order is stated by the lemmas above |
| Names.CmpNameProbeOrder | src/department.rs:41-43 | against a fixed name, a lower name never compares higher than a greater one |
| Names.Display | src/personnel.rs:18-24 | the text is the last name, ", ", the first name, then " " and the middle name when there is one |
| Dates.DaysInMonth | src/textinterface.rs:525 | month lengths run from 28 to 31; February has 29 days exactly in leap years |
| Dates.YearLength | src/textinterface.rs:525 | the month lengths add up to 366 in a leap year and 365 otherwise |
| Dates.FromYmdOpt | src/textinterface.rs:525 | `from_ymd_opt` gives a date exactly when the year lies in chrono's range and the month and day name a real day |
| Dates.LeapDay | src/textinterface.rs:525 | February 29th exists exactly in leap years |
| Personnel.KeyIndex | src/department.rs:41-43 | the first roster position with the key, or none when no entry has it |
| Personnel.Gap | src/department.rs:59-61 | the count of leading entries below the key |
| Personnel.SortedKeysDistinct | src/department.rs:58-70 | a sorted roster never lists two entries with the same last and first name |
| Personnel.KeyAtGap | src/department.rs:40-49 | in a sorted roster an entry with the key sits exactly at the gap |
| Personnel.RosterAdd | src/department.rs:58-70 | `add_employee` on the roster as a value: refused when the key is listed, otherwise the employee goes into the gap; what it means is stated by the `RosterAdd…` lemmas |
| Personnel.RosterRemove | src/department.rs:40-49 | `remove_employee` on the roster as a value: refused when the key is not listed, otherwise the entry is handed back and its slot deleted; what it means is stated by the `RosterRemove…` lemmas |
| Personnel.InsertSorted | src/department.rs:65-67 | inserting between the lower and the higher entries keeps a roster sorted |
| Personnel.RosterAddCorrect | src/department.rs:58-70 | a successful add grows the roster by one, places the employee at the gap, keeps the others in order and keeps the roster sorted |
| Personnel.RosterAddRefusesSameKey | src/department.rs:63-64 | add fails exactly when an entry with the same last and first name is listed |
| Personnel.RosterAddMembers | src/department.rs:65-67 | after a successful add, the roster lists everyone before plus the new employee |
| Personnel.RosterRemoveCorrect | src/department.rs:40-49 | a successful remove returns the entry with the argument's key, deletes exactly its slot and keeps the rest sorted |
| Personnel.RosterRemoveFailsIff | src/department.rs:45-47 | remove fails exactly when nobody with the argument's key is listed |
| Personnel.RosterRemoveListed | src/department.rs:40-49 | removing a listed person from a sorted roster returns that very person and their slot's removal |
| Personnel.RosterRemoveMembers | src/department.rs:46 | after a successful remove, the roster lists everyone but the entry handed back |
| Personnel.RemoveMember | src/department.rs:40-49 | removing someone listed in a sorted roster succeeds and hands back that person |
| Personnel.AddThenRemove | src/department.rs:40-70 | a remove after a successful add gives back the employee and the original roster |
| Personnel.RemoveThenAdd | src/department.rs:40-70 | adding what a successful remove returned rebuilds the original roster |
| Personnel.GapIs | src/department.rs:65 | the gap is the one position with everything before it below the key and the entry at it not |
| Personnel.GapWithout | src/department.rs:46 | taking entry `k` out of a sorted roster leaves that entry's gap at `k` |
| Personnel.AddAllSorted | src/department.rs:51-53 | any sequence of adds to a sorted roster leaves it strictly sorted |
| Personnel.RemoveSlotMembers | src/department.rs:46 | removing one slot of a sorted roster leaves exactly the other entries |
| Personnel.ProbesMonotone | src/department.rs:41-43 | on a sorted roster the comparator's answers are monotone, as the binary search needs |
| Personnel.SearchResult | src/department.rs:41-48 | the search finds the first entry with the key, or reports the gap when there is none |
| Personnel.Department.constructor | src/department.rs:21-27 | a new department has the given name and id and an empty roster |
| Personnel.Department.RemoveEmployee | src/department.rs:40-49 | the returned entry and the new roster are exactly `RosterRemove`'s; on failure the roster is unchanged; the roster stays sorted |
| Personnel.Department.AddEmployee | src/department.rs:58-70 | success and the new roster are exactly `RosterAdd`'s; on failure the roster is unchanged; the roster stays sorted |
| Personnel.ComparePeople | src/personnel.rs:206-210 | people compare as their names: `Equal` for the same last and first name, `Less` exactly for the name order |
| Personnel.Person.constructor | src/personnel.rs:294-299 | a person holds exactly the given name, hire date, department and history |
| Personnel.TransferVerdict | src/personnel.rs:109-141 | the outcome of `transfer` from the state before it: refused for the current department, a panic when the old roster lacks the person or the new one has the key, otherwise success; `Person.Transfer` is proved to return it |
| Personnel.TransferEffect | src/personnel.rs:109-141 | the rosters, department and history `transfer` leaves, step by step up to the failure; `Person.Transfer` is proved to leave it |
| Personnel.Person.Transfer | src/personnel.rs:109-141 | the result is `TransferVerdict` on the old state: a move to the current department is refused, a missing old entry panics, and a new roster that already has the key panics. The new state is `TransferEffect`: each step up to the failure is done and nothing after it. On success both rosters are updated, the pointer moves, and one history entry is appended |
| Personnel.PersonBuilder.constructor | src/personnel.rs:238-246 | a new builder has no field set |
| Personnel.PersonBuilder.FirstName | src/personnel.rs:248-251 | sets the first name and nothing else |
| Personnel.PersonBuilder.MiddleName | src/personnel.rs:253-256 | sets the middle name and nothing else |
| Personnel.PersonBuilder.LastName | src/personnel.rs:258-261 | sets the last name and nothing else |
| Personnel.PersonBuilder.DateOfHire | src/personnel.rs:263-266 | sets the hire date and nothing else |
| Personnel.PersonBuilder.Department | src/personnel.rs:268-271 | sets the department and nothing else |
| Personnel.PersonBuilder.Build | src/personnel.rs:275-300 | with the first name, last name, hire date or department missing, the builder comes back. Otherwise a new person with those fields, the optional middle name, and a history of the one entry (department, hire date) |
| StoreIndex.CmpDepartmentAlias | src/data_handling.rs:218-222 | department aliases compare by alias text alone; `Equal` exactly for equal aliases |
| StoreIndex.AliasProbesMonotone | src/data_handling.rs:65 | on a sorted alias list the comparator's answers are monotone |
| StoreIndex.AliasInsertAtGap | src/data_handling.rs:65-67 | inserting at the gap keeps the alias list sorted and adds exactly the new entry |
| StoreIndex.FindAliasGap | src/data_handling.rs:65-71 | the search gives the insertion gap exactly when the alias is not listed |
| StoreIndex.IndexInsert | src/data_handling.rs:65-73 | the grown alias list matches the grown department map |
| StoreIndex.IdsGrow | src/data_handling.rs:52-58 | giving the new department the bumped count as its id keeps ids in 1..count and distinct |
| StoreIndex.IdsDistinct | src/data_handling.rs:52-58 | two registered departments share an id exactly when they are the same department |
| StoreIndex.DeptInsertionKeeps | src/data_handling.rs:52-73 | the department insertion keeps the alias index sorted and matching, and keeps the ids valid |
| StoreIndex.PersonAppendKeeps | src/data_handling.rs:92-106 | appending the alias keeps the person index paired with the map, free of repeats, and one entry per count |
| StoreIndex.RegisterKeepsRosters | src/data_handling.rs:73 | registering a department with an empty roster keeps the rosters valid and a consistent store consistent |
| StoreIndex.RegisterPersonKeepsRosters | src/data_handling.rs:100-103 | registering a person not yet on any roster keeps the rosters valid, and keeps consistency for everyone else |
| StoreIndex.IndexKeys | src/data_handling.rs:117-119 | a matching department index lists exactly the map's keys |
| StoreIndex.PeopleKeys | src/data_handling.rs:121-123 | a matching person index lists exactly the map's keys, each once |
| DataHandling.Lift | src/data_handling.rs:140-141 | `?` on `transfer` passes a panic through, keeps success, and wraps an error as `Person(e)` |
| DataHandling.ProgramData.ListedOnlyAtHome | src/data_handling.rs:128-144 | in a consistent store a person is on a roster exactly when it is their own department's |
| DataHandling.ProgramData.Init | src/data_handling.rs:34-43 | everything empty, both counters zero; the store is valid and consistent |
| DataHandling.ProgramData.DeptList | src/data_handling.rs:117-119 | in a valid store, the list is strictly sorted, lists exactly the department aliases, and points each at its map entry |
| DataHandling.ProgramData.EmployeeList | src/data_handling.rs:121-123 | in a valid store, the list has `employee_count` entries, lists each person alias once, and points each at its map entry |
| DataHandling.ProgramData.Departments | src/data_handling.rs:146-148 | in a valid store, the map's keys are exactly the listed aliases, and its ids lie in 1..`department_count` |
| DataHandling.ProgramData.AddDept | src/data_handling.rs:47-76 | a taken alias gives `AddDept` with nothing changed. Otherwise the count goes up by one, a fresh empty department gets it as its id, and the alias goes into the sorted list and the map. Validity and consistency are kept |
| DataHandling.ProgramData.InsertDept | src/data_handling.rs:52-73 | the insertion at the gap, the map entry and the count together keep the store valid |
| DataHandling.ProgramData.AddPerson | src/data_handling.rs:83-115 | a taken alias gives `AddPerson` with nothing changed. Otherwise a fresh person with the same fields is appended to the list and added to the map, and the count goes up. Enrolment is exactly `RosterAdd` on their department. A failed enrolment is returned as `Department(e)` with the registration kept, and the store is then inconsistent. Success keeps a consistent store consistent |
| DataHandling.ProgramData.RegisterPerson | src/data_handling.rs:91-106 | the alias push, the map entry and the count keep the store valid |
| DataHandling.ProgramData.Enroll | src/data_handling.rs:108-112 | the first roster add is exactly `RosterAdd`; success makes the store consistent again; failure leaves it inconsistent |
| DataHandling.ProgramData.AddToDept | src/data_handling.rs:128-144 | an unknown person gives `NoSuchPerson`, checked before the department; a known person with an unknown department gives `NoSuchDept`. Both change nothing. Otherwise the result and the state are those of `transfer`, dated `date` or else today, and nothing else changes. From a consistent store the person is always found in their old roster, and a call that returns leaves the store consistent |
| DataHandling.ProgramData.Move | src/data_handling.rs:140-141 | `transfer` on registered objects keeps the rosters valid. From a consistent store it cannot panic with `NotListedInDept`, and returning keeps the store consistent. The `AlreadyInDept` panic always leaves the store inconsistent |
| DataHandling.ProgramData.Step | src/personnel.rs:109-141 | `transfer` leaves the departments other than the two, and the people other than the one, as they were |
| TextInterface.NameProbesMonotone | src/textinterface.rs:192 | on a sorted list the comparator's answers are monotone |
| TextInterface.NameSearchResult | src/textinterface.rs:192-196 | the search answers `Ok` exactly when the name is listed, and otherwise gives the name's gap |
| TextInterface.NameGapIs | src/textinterface.rs:194-196 | the gap is the one split point with everything before it below the name |
| TextInterface.InsertName | src/textinterface.rs:192-196 | one round of the loop: a pair whose name is listed is dropped, any other goes into its gap; stated by `InsertNameSorted` and `InsertNameListed` |
| TextInterface.SortedNames | src/textinterface.rs:186-200 | the rounds of the loop over the entries in order; stated by the `SortedNames…` lemmas |
| TextInterface.InsertNameSorted | src/textinterface.rs:192-196 | one round keeps the list strictly sorted and adds the new pair exactly when its name was not listed |
| TextInterface.InsertNameListed | src/textinterface.rs:192-196 | after one round the list carries exactly the names it carried before plus the new one |
| TextInterface.FirstWithName | src/textinterface.rs:189-198 | the position of the first input entry with the name, or none when no entry has it |
| TextInterface.SortedNamesSorted | src/textinterface.rs:186-200 | the output is strictly sorted by name and no longer than the input |
| TextInterface.SortedNamesKeys | src/textinterface.rs:186-200 | a name is in the output exactly when some input entry has it |
| TextInterface.SortedNamesMember | src/textinterface.rs:186-200 | an (alias, name) pair is in the output exactly when it is the first input entry with that name; later duplicates are dropped |
| TextInterface.SortEmployees | src/textinterface.rs:186-200 | the loop's result is the specification `SortedNames` of the person alias list, and it is strictly sorted |
| TextInterface.Split | src/textinterface.rs:513 | `split('/')`, empty pieces kept: always at least one piece; stated by `SplitJoin`, `SplitPieces` and `JoinSplit` |
| TextInterface.SplitJoin | src/textinterface.rs:513 | splitting on '/' loses nothing: joining the pieces gives the text back |
| TextInterface.SplitPieces | src/textinterface.rs:513-519 | no piece holds a '/', and there is one more piece than there are '/' characters, empty pieces included |
| TextInterface.JoinSplit | src/textinterface.rs:513 | joining pieces without '/' and splitting again gives the pieces back |
| TextInterface.ParseU32 | src/textinterface.rs:521-522 | `u32::from_str`: a result lies in 0..2^32-1 and comes from text that is not empty, not a lone '+', and does not start with '-'; what follows an optional '+' is all digits and spells the result, so any other character is rejected |
| TextInterface.ParseI32 | src/textinterface.rs:523 | `i32::from_str`: a result lies in -2^31..2^31-1 and comes from text that is not empty and not a lone sign; what follows an optional '+' or '-' is all digits and spells the result, negated after '-', so any other character is rejected |
| TextInterface.ParseU32Digits | src/textinterface.rs:521-522 | digits read as their value, with or without '+', never after '-'; a value beyond 32 bits is an error |
| TextInterface.ParseI32Digits | src/textinterface.rs:523 | digits read as their value after '+' or nothing, and as its negation after '-'; values outside the `i32` range are errors |
| TextInterface.LeadingZeros | src/textinterface.rs:521-523 | leading zeros do not change the number read |
| TextInterface.DigitsValue | src/textinterface.rs:506 | the printed digits of a number read back as that number |
| TextInterface.DigitsLength | src/textinterface.rs:506 | months and days print with at most two digits, years up to 9999 with at most four |
| TextInterface.FormatYear | src/textinterface.rs:506 | `%Y` prints at least four characters, and years 0 to 9999 as exactly four |
| TextInterface.FormatYearDigits | src/textinterface.rs:506 | `%Y` prints a sign exactly for years outside 0..9999 ('-' below zero), followed by digits that spell the year's magnitude |
| TextInterface.FormatDateUs | src/textinterface.rs:505-508 | `%m/%d/%Y` is at least ten characters; its reading back is `FormatParseRoundTrip` |
| TextInterface.FormatDateUsShape | src/textinterface.rs:505-508 | years 0 to 9999 print as exactly ten characters `MM/DD/YYYY` |
| TextInterface.ParseDateUs | src/textinterface.rs:510-526 | a date comes back exactly when the text splits into three pieces, month and day read as `u32`, the year as `i32`, and the triple is a real day; the date is that triple; text without exactly two '/' fails; every failure is `InvalidDate` |
| TextInterface.FormatParseRoundTrip | src/textinterface.rs:505-526 | every date `format_date_us` prints reads back through `parse_date_us` as the same date, for every year chrono can hold |

## Left out

- The `RefCell` borrow panic: `add_to_dept` holds a mutable borrow of the person during `transfer`. `remove_employee`'s comparator borrows the roster entries the search probes, and `add_employee` borrows the employee it inserts (department.rs:60). So the real program panics when one of those borrows reaches the person being moved. The model has no borrow flags. It stands for the program with that borrow conflict absent.
- Person.Transfer: `Department`'s structural `eq` is modelled as equal ids. In a valid store, ids are distinct (`IdsDistinct`), and the derived `eq` (department.rs:7) compares the name, the id and the employee vectors entry by entry; each `Rc` entry first checks whether both point at the same person and otherwise compares the two people. Equal ids in a valid store mean the same department, and different ids make `eq` false, so the two tests agree there.
- The clock: `Local::today()` in `add_to_dept` is the parameter `today` of `AddToDept`.
- DataHandling.ProgramData.AddPerson: it requires that the person's department is registered in the store. The source accepts any department handle. The model needs the requirement to keep the rosters inside the store's footprint.
- The ghost fields `departmentSet` and `personSet` are the model's footprint of the two maps. They have no counterpart in the source.
- `u32` counters and ids: `employee_count` and `department_count` are unbounded here. The Rust `+= 1` would overflow only after 2^32 additions.
- `Display` of `Department`, `Person`, `DeptEntry`, `DeptErr`, `TransferErr`, `PersonError`, `DataError`, `DepartmentAlias`, `PersonAlias` and `TextInterfaceError`: only `Name`'s format is part of this model.
- `Person`'s structural `PartialEq`, its getters, `department_history_mut` and `DepartmentAlias`' getters: plain field access, which Dafny field reads stand for.
- `name_mut` (personnel.rs:68-70): `Person.name` is a `const` here, so a person cannot be renamed. No code in the program calls it, and renaming a listed person could leave a roster out of order.
- The rest of textinterface.rs (the command loop, prompts and I/O) is not part of this model. `TextInterfaceError.IOError` carries no `io::Error`.
- TextInterface.ParseU32 and TextInterface.ParseI32 read `char`s, not UTF-8 bytes. Any non-ASCII character is a bad digit either way, so the results agree.
- main.rs is not part of this model.
