/**
 * The three pieces of the text shell (textinterface.rs) that compute
 * something: the alphabetical employee listing, and the US date format the
 * shell reads and prints (month/day/year).
 */
module TextInterface {
  import opened Wrappers
  import opened Ordering
  import opened Names
  import opened Dates
  import opened Personnel
  import opened StoreIndex
  import opened DataHandling

  /** `TextInterfaceError`; the I/O error it wraps is not modelled. */
  datatype TextInterfaceError = InvalidDate | NoDepartment | IOError

  /* ---------------------------------------------------------------------- */
  /* sort_employees                                                          */
  /* ---------------------------------------------------------------------- */

  /** Strictly ascending by (last, first) name. */
  ghost predicate NamesSorted(list: seq<(string, Name)>) {
    forall i, j {:trigger NameLess(list[i].1, list[j].1)} :: 0 <= i < j < |list| ==> NameLess(list[i].1, list[j].1)
  }

  /** Some entry carries the same last and first name as `name`. */
  predicate Listed(list: seq<(string, Name)>, name: Name) {
    exists j :: 0 <= j < |list| && SameKey(list[j].1, name)
  }

  /** The number of leading entries below `name`: where `name` goes in a sorted list. */
  function NameGap(list: seq<(string, Name)>, name: Name): (k: nat)
    ensures k <= |list|
    ensures forall j :: 0 <= j < k ==> NameLess(list[j].1, name)
    ensures k < |list| ==> !NameLess(list[k].1, name)
  {
    if list == [] || !NameLess(list[0].1, name) then 0
    else 1 + NameGap(list[1..], name)
  }

  /** One round of the loop: an entry whose name is already listed is dropped, any other goes into its gap. */
  function InsertName(list: seq<(string, Name)>, e: (string, Name)): seq<(string, Name)> {
    if Listed(list, e.1) then list
    else
      var k := NameGap(list, e.1);
      list[..k] + [e] + list[k..]
  }

  /** What the loop builds from the entries in order. */
  function SortedNames(entries: seq<(string, Name)>): seq<(string, Name)> {
    if entries == [] then []
    else InsertName(SortedNames(entries[..|entries| - 1]), entries[|entries| - 1])
  }

  /** The (alias, name) pair of each person alias, in list order. */
  function Entries(employees: seq<PersonAlias>): (entries: seq<(string, Name)>)
    ensures |entries| == |employees|
    ensures forall i :: 0 <= i < |employees| ==> entries[i] == (employees[i].alias, employees[i].pointer.name)
  {
    seq(|employees|, i requires 0 <= i < |employees| => (employees[i].alias, employees[i].pointer.name))
  }

  /** What the comparator `|(_, entry)| entry.cmp(&name)` answers for each entry. */
  function NameProbes(list: seq<(string, Name)>, name: Name): (probes: seq<Ordering>)
    ensures |probes| == |list|
    ensures forall i :: 0 <= i < |list| ==> probes[i] == CmpName(list[i].1, name)
  {
    seq(|list|, i requires 0 <= i < |list| => CmpName(list[i].1, name))
  }

  lemma NameProbesMonotone(list: seq<(string, Name)>, name: Name)
    requires NamesSorted(list)
    ensures Monotone(NameProbes(list, name))
  {
    var probes := NameProbes(list, name);
    forall i, j | 0 <= i < j < |probes|
      ensures probes[i].Rank() <= probes[j].Rank()
    {
      assert NameLess(list[i].1, list[j].1);
      CmpNameProbeOrder(list[i].1, list[j].1, name);
    }
  }

  /** The search's answers, read back in terms of `Listed` and `NameGap`. */
  lemma NameSearchResult(list: seq<(string, Name)>, name: Name, s: Search)
    requires s.Found? ==> s.index < |list| && CmpName(list[s.index].1, name) == Equal
    requires s.NotFound? ==> s.index <= |list|
    requires s.NotFound? ==> forall j :: 0 <= j < s.index ==> CmpName(list[j].1, name) == Less
    requires s.NotFound? ==> forall j :: s.index <= j < |list| ==> CmpName(list[j].1, name) == Greater
    ensures s.Found? <==> Listed(list, name)
    ensures s.NotFound? ==> NameGap(list, name) == s.index
  {
    match s
    case Found(i) =>
      CmpNameEqualIff(list[i].1, name);
    case NotFound(i) =>
      forall j | 0 <= j < |list|
        ensures !SameKey(list[j].1, name)
      {
        CmpNameEqualIff(list[j].1, name);
      }
      NameGapIs(list, name, i);
  }

  /** The gap is the one split point with everything before it below `name`. */
  lemma {:induction false} NameGapIs(list: seq<(string, Name)>, name: Name, k: nat)
    requires k <= |list|
    requires forall j :: 0 <= j < k ==> NameLess(list[j].1, name)
    requires k < |list| ==> !NameLess(list[k].1, name)
    ensures NameGap(list, name) == k
  {
    if k > 0 {
      assert NameLess(list[0].1, name);
      forall j | 0 <= j < k - 1
        ensures NameLess(list[1..][j].1, name)
      {
        assert list[1..][j] == list[j + 1];
      }
      if k - 1 < |list[1..]| {
        assert list[1..][k - 1] == list[k];
      }
      NameGapIs(list[1..], name, k - 1);
    }
  }

  /** One round keeps the list strictly sorted and adds at most the new entry. */
  lemma InsertNameSorted(list: seq<(string, Name)>, e: (string, Name))
    requires NamesSorted(list)
    ensures NamesSorted(InsertName(list, e))
    ensures |InsertName(list, e)| <= |list| + 1
    ensures forall x :: x in InsertName(list, e) <==> x in list || (x == e && !Listed(list, e.1))
  {
    if !Listed(list, e.1) {
      var k := NameGap(list, e.1);
      var r := list[..k] + [e] + list[k..];
      forall j | k <= j < |list|
        ensures NameLess(e.1, list[j].1)
      {
        if j > k {
          assert NameLess(list[k].1, list[j].1);
          if NameLess(list[j].1, e.1) {
            CmpNameTransitive(list[k].1, list[j].1, e.1);
          }
        }
        CmpNameTotal(e.1, list[j].1);
      }
      forall i, j | 0 <= i < j < |r|
        ensures NameLess(r[i].1, r[j].1)
      {
        if i == k {
          assert r[j] == list[j - 1];
        } else if j == k {
          assert r[i] == list[i];
        } else {
          var i' := if i < k then i else i - 1;
          var j' := if j < k then j else j - 1;
          assert r[i] == list[i'] && r[j] == list[j'];
          assert NameLess(list[i'].1, list[j'].1);
        }
      }
      assert list == list[..k] + list[k..];
    }
  }

  /** After one round the list carries exactly the names it carried before plus the new one. */
  lemma InsertNameListed(list: seq<(string, Name)>, e: (string, Name), n: Name)
    ensures Listed(InsertName(list, e), n) <==> Listed(list, n) || SameKey(e.1, n)
  {
    if Listed(list, e.1) {
      if SameKey(e.1, n) {
        var j :| 0 <= j < |list| && SameKey(list[j].1, e.1);
        assert SameKey(list[j].1, n);
      }
    } else {
      var k := NameGap(list, e.1);
      var r := list[..k] + [e] + list[k..];
      if Listed(r, n) {
        var j :| 0 <= j < |r| && SameKey(r[j].1, n);
        if j < k {
          assert r[j] == list[j];
        } else if j > k {
          assert r[j] == list[j - 1];
        }
      }
      if SameKey(e.1, n) {
        assert r[k] == e;
      } else if Listed(list, n) {
        var j :| 0 <= j < |list| && SameKey(list[j].1, n);
        if j < k {
          assert r[j] == list[j];
        } else {
          assert r[j + 1] == list[j];
        }
      }
    }
  }

  /** The output of `sort_employees` is strictly sorted by name and no longer than its input. */
  lemma {:induction false} SortedNamesSorted(entries: seq<(string, Name)>)
    ensures NamesSorted(SortedNames(entries))
    ensures |SortedNames(entries)| <= |entries|
  {
    if entries != [] {
      var prefix := entries[..|entries| - 1];
      SortedNamesSorted(prefix);
      InsertNameSorted(SortedNames(prefix), entries[|entries| - 1]);
    }
  }

  /** A name is listed in the output exactly when some input entry carries it: no name is lost. */
  lemma {:induction false} SortedNamesKeys(entries: seq<(string, Name)>, n: Name)
    ensures Listed(SortedNames(entries), n) <==> exists i :: 0 <= i < |entries| && SameKey(entries[i].1, n)
  {
    if entries != [] {
      var prefix, e := entries[..|entries| - 1], entries[|entries| - 1];
      SortedNamesSorted(prefix);
      SortedNamesKeys(prefix, n);
      InsertNameListed(SortedNames(prefix), e, n);
      if exists i :: 0 <= i < |entries| && SameKey(entries[i].1, n) {
        var i :| 0 <= i < |entries| && SameKey(entries[i].1, n);
        if i < |prefix| {
          assert prefix[i] == entries[i];
        }
      }
      if exists i :: 0 <= i < |prefix| && SameKey(prefix[i].1, n) {
        var i :| 0 <= i < |prefix| && SameKey(prefix[i].1, n);
        assert entries[i] == prefix[i];
      }
    }
  }

  /** The position of the first entry carrying `name`'s last and first name, if any. */
  function FirstWithName(entries: seq<(string, Name)>, name: Name): (r: Option<nat>)
    ensures r.Some? ==> r.value < |entries| && SameKey(entries[r.value].1, name)
    ensures r.Some? ==> forall j :: 0 <= j < r.value ==> !SameKey(entries[j].1, name)
    ensures r.None? <==> forall j :: 0 <= j < |entries| ==> !SameKey(entries[j].1, name)
  {
    if entries == [] then None
    else
      var prefix := entries[..|entries| - 1];
      var first := FirstWithName(prefix, name);
      if first.Some? then first
      else if SameKey(entries[|entries| - 1].1, name) then Some(|entries| - 1)
      else None
  }

  /**
   * The output holds exactly the first entry met for each name: every
   * output entry comes from the input, and a later entry with a name
   * already seen is dropped.
   */
  lemma {:induction false} SortedNamesMember(entries: seq<(string, Name)>, x: (string, Name))
    ensures x in SortedNames(entries) <==>
      var first := FirstWithName(entries, x.1); first.Some? && entries[first.value] == x
  {
    if entries != [] {
      var prefix, e := entries[..|entries| - 1], entries[|entries| - 1];
      SortedNamesSorted(prefix);
      SortedNamesMember(prefix, x);
      SortedNamesKeys(prefix, e.1);
      InsertNameSorted(SortedNames(prefix), e);
      var before := FirstWithName(prefix, x.1);
      if before.Some? {
        assert entries[before.value] == prefix[before.value];
      }
      if x == e && before.None? {
        assert forall j :: 0 <= j < |prefix| ==> !SameKey(prefix[j].1, e.1);
      }
    }
  }

  /**
   * `sort_employees`: walk the person aliases in order, binary-search each
   * name in the list built so far, and insert the (alias, name) pair at the
   * gap unless the name is already there.
   */
  method SortEmployees(data: ProgramData) returns (list: seq<(string, Name)>)
    ensures list == SortedNames(Entries(data.personAliases))
    ensures NamesSorted(list)
  {
    var employees := data.EmployeeList();
    ghost var entries := Entries(employees);
    list := [];
    for i := 0 to |employees|
      invariant list == SortedNames(entries[..i])
      invariant NamesSorted(list)
    {
      var name := employees[i].pointer.name;
      NameProbesMonotone(list, name);
      var s := BinarySearchBy(NameProbes(list, name));
      NameSearchResult(list, name, s);
      InsertNameSorted(list, (employees[i].alias, name));
      if s.NotFound? {
        list := list[..s.index] + [(employees[i].alias, name)] + list[s.index..];
      }
      assert entries[..i + 1][..i] == entries[..i];
    }
    assert entries[..|employees|] == entries;
  }

  /* ---------------------------------------------------------------------- */
  /* Reading numbers: split('/') and from_str                                */
  /* ---------------------------------------------------------------------- */

  /** `str::split(sep)` collected: the pieces between separators, empty pieces kept. */
  function Split(s: string, sep: char): (parts: seq<string>)
    ensures |parts| >= 1
  {
    if s == [] then [[]]
    else
      var rest := Split(s[1..], sep);
      if s[0] == sep then [[]] + rest
      else [[s[0]] + rest[0]] + rest[1..]
  }

  /** The pieces glued back together with the separator between them. */
  function Join(parts: seq<string>, sep: char): string {
    if |parts| == 0 then []
    else if |parts| == 1 then parts[0]
    else parts[0] + [sep] + Join(parts[1..], sep)
  }

  /** Splitting loses nothing: joining the pieces gives the text back. */
  lemma {:induction false} SplitJoin(s: string, sep: char)
    ensures Join(Split(s, sep), sep) == s
  {
    if s != [] {
      var rest := Split(s[1..], sep);
      SplitJoin(s[1..], sep);
      assert s == [s[0]] + s[1..];
      if s[0] == sep {
        var parts := Split(s, sep);
        assert parts[1..] == rest;
      } else {
        var parts := Split(s, sep);
        if |rest| > 1 {
          assert parts[1..] == rest[1..];
        }
      }
    }
  }

  /** No piece holds the separator, and there is one more piece than separators. */
  lemma {:induction false} SplitPieces(s: string, sep: char)
    ensures forall p :: p in Split(s, sep) ==> sep !in p
    ensures |Split(s, sep)| == multiset(s)[sep] + 1
  {
    if s != [] {
      var rest := Split(s[1..], sep);
      SplitPieces(s[1..], sep);
      assert s == [s[0]] + s[1..];
      assert multiset(s) == multiset{s[0]} + multiset(s[1..]);
      if s[0] != sep {
        assert sep !in rest[0];
        assert forall p :: p in rest[1..] ==> p in rest;
      }
    }
  }

  /** Splitting a separator-free piece followed by more text: the piece opens the first part. */
  lemma {:induction false} SplitFreePrefix(p: string, t: string, sep: char)
    requires sep !in p
    ensures var rest := Split(t, sep); Split(p + t, sep) == [p + rest[0]] + rest[1..]
  {
    if p != [] {
      SplitFreePrefix(p[1..], t, sep);
      var rest := Split(t, sep);
      assert (p + t)[0] == p[0] && (p + t)[1..] == p[1..] + t;
      assert [p[0]] + (p[1..] + rest[0]) == p + rest[0];
    } else {
      var rest := Split(t, sep);
      assert p + t == t && p + rest[0] == rest[0];
      assert [rest[0]] + rest[1..] == rest;
    }
  }

  /** Joining separator-free pieces and splitting again gives the pieces back. */
  lemma {:induction false} JoinSplit(parts: seq<string>, sep: char)
    requires |parts| >= 1
    requires forall p :: p in parts ==> sep !in p
    ensures Split(Join(parts, sep), sep) == parts
  {
    if |parts| == 1 {
      SplitFreePrefix(parts[0], [], sep);
      assert parts[0] + [] == parts[0];
    } else {
      var tail := [sep] + Join(parts[1..], sep);
      JoinSplit(parts[1..], sep);
      SplitFreePrefix(parts[0], tail, sep);
      assert tail[1..] == Join(parts[1..], sep);
      assert Split(tail, sep) == [[]] + parts[1..];
      assert parts[0] + [sep] + Join(parts[1..], sep) == parts[0] + tail;
      assert parts[0] + [] == parts[0];
      assert [parts[0]] + parts[1..] == parts;
    }
  }

  predicate IsDigit(c: char) {
    '0' <= c <= '9'
  }

  predicate AllDigits(s: string) {
    forall i :: 0 <= i < |s| ==> IsDigit(s[i])
  }

  function DigitValue(c: char): (v: nat)
    requires IsDigit(c)
    ensures v <= 9
  {
    (c as int) - ('0' as int)
  }

  /** The number a string of decimal digits spells, most significant first. */
  function DecimalValue(s: string): nat
    requires AllDigits(s)
  {
    if s == [] then 0 else DecimalValue(s[..|s| - 1]) * 10 + DigitValue(s[|s| - 1])
  }

  const U32Max: int := 0xFFFF_FFFF
  const I32Min: int := -0x8000_0000
  const I32Max: int := 0x7FFF_FFFF

  /**
   * `u32::from_str`: an optional '+', then one or more decimal digits whose
   * value fits in 32 bits. A '-' is no sign here but a bad digit.
   */
  function ParseU32(s: string): (r: Option<int>)
    ensures r.Some? ==> 0 <= r.value <= U32Max
    ensures r.Some? ==> s != [] && s != "+" && s[0] != '-'
    ensures r.Some? ==> (s != [] &&
                         var digits := if s[0] == '+' then s[1..] else s;
                         digits != [] && AllDigits(digits) && r.value == DecimalValue(digits))
  {
    var digits := if |s| > 0 && s[0] == '+' then s[1..] else s;
    if digits == [] || !AllDigits(digits) then None
    else if DecimalValue(digits) <= U32Max then Some(DecimalValue(digits))
    else None
  }

  /**
   * `i32::from_str`: an optional '+' or '-', then one or more decimal digits
   * whose signed value fits in 32 bits.
   */
  function ParseI32(s: string): (r: Option<int>)
    ensures r.Some? ==> I32Min <= r.value <= I32Max
    ensures r.Some? ==> s != [] && s != "+" && s != "-"
    ensures r.Some? ==> (s != [] &&
                         var digits := if s[0] == '+' || s[0] == '-' then s[1..] else s;
                         var magnitude: int := if AllDigits(digits) then DecimalValue(digits) else 0;
                         digits != [] && AllDigits(digits) && r.value == (if s[0] == '-' then -magnitude else magnitude))
  {
    var negative := |s| > 0 && s[0] == '-';
    var digits := if |s| > 0 && (s[0] == '+' || s[0] == '-') then s[1..] else s;
    if digits == [] || !AllDigits(digits) then None
    else
      var magnitude: int := DecimalValue(digits);
      var v := if negative then -magnitude else magnitude;
      if I32Min <= v <= I32Max then Some(v) else None
  }

  /**
   * What `u32::from_str` accepts, from the side of the digits: a digit
   * string reads as its value with or without a '+' but never after a '-',
   * and a value beyond 32 bits is an error, not a wrap-around.
   */
  lemma ParseU32Digits(digits: string)
    requires digits != [] && AllDigits(digits)
    ensures var v: int := DecimalValue(digits);
      && ParseU32(digits) == ParseU32("+" + digits) == (if v <= U32Max then Some(v) else None)
      && ParseU32("-" + digits) == None
  {
    assert ("+" + digits)[1..] == digits && ("-" + digits)[1..] == digits;
    assert !IsDigit(("-" + digits)[0]);
  }

  /** The same for `i32::from_str`, where a '-' is a sign, and the range runs from -2^31 to 2^31 - 1. */
  lemma ParseI32Digits(digits: string)
    requires digits != [] && AllDigits(digits)
    ensures var v: int := DecimalValue(digits);
      && ParseI32(digits) == ParseI32("+" + digits) == (if v <= I32Max then Some(v) else None)
      && ParseI32("-" + digits) == (if v <= -I32Min then Some(-v) else None)
  {
    assert ("+" + digits)[1..] == digits && ("-" + digits)[1..] == digits;
  }

  /** Leading zeros do not change a decimal value. */
  lemma {:induction false} LeadingZeros(k: nat, s: string)
    requires AllDigits(s)
    ensures AllDigits(Zeros(k) + s)
    ensures DecimalValue(Zeros(k) + s) == DecimalValue(s)
  {
    var t := Zeros(k) + s;
    if s == [] {
      assert t == Zeros(k);
      ZerosValue(k);
    } else {
      var init := s[..|s| - 1];
      LeadingZeros(k, init);
      assert t[..|t| - 1] == Zeros(k) + init;
    }
  }

  lemma {:induction false} ZerosValue(k: nat)
    ensures AllDigits(Zeros(k)) && DecimalValue(Zeros(k)) == 0
  {
    if k > 0 {
      ZerosValue(k - 1);
      assert Zeros(k)[..k - 1] == Zeros(k - 1);
    }
  }

  /* ---------------------------------------------------------------------- */
  /* Writing numbers: chrono's %m, %d and %Y                                 */
  /* ---------------------------------------------------------------------- */

  function Zeros(k: nat): (z: string)
    ensures |z| == k
  {
    seq(k, _ => '0')
  }

  /** The decimal digits of `n`, no leading zeros ("0" for zero). */
  function Digits(n: nat): (s: string)
    ensures |s| >= 1
  {
    if n < 10 then [('0' as int + n) as char]
    else Digits(n / 10) + [('0' as int + n % 10) as char]
  }

  /** `Digits` spells `n`. */
  lemma {:induction false} DigitsValue(n: nat)
    ensures AllDigits(Digits(n)) && DecimalValue(Digits(n)) == n
  {
    if n >= 10 {
      DigitsValue(n / 10);
      var s := Digits(n);
      assert s[..|s| - 1] == Digits(n / 10);
    }
  }

  /** Zero-padded on the left to at least `width` characters. */
  function ZeroPad(s: string, width: nat): (r: string)
    ensures |r| == if |s| >= width then |s| else width
  {
    if |s| >= width then s else Zeros(width - |s|) + s
  }

  /** The digits of `n` padded to `width`: they spell `n` again. */
  lemma PaddedValue(n: nat, width: nat)
    ensures AllDigits(ZeroPad(Digits(n), width)) && DecimalValue(ZeroPad(Digits(n), width)) == n
  {
    DigitsValue(n);
    if |Digits(n)| < width {
      LeadingZeros(width - |Digits(n)|, Digits(n));
    }
  }

  /**
   * `%Y`: years 0 to 9999 as four zero-padded digits; any other year with
   * an explicit sign and at least four digits after it.
   */
  function FormatYear(y: int): (s: string)
    ensures |s| >= 4
    ensures 0 <= y <= 9999 ==> |s| == 4
  {
    DigitsLength(if y < 0 then -y else y);
    if 0 <= y <= 9999 then ZeroPad(Digits(y), 4)
    else (if y < 0 then "-" else "+") + ZeroPad(Digits(if y < 0 then -y else y), 4)
  }

  /** `format_date_us`: `%m/%d/%Y`, month and day as two zero-padded digits. */
  function FormatDateUs(date: NaiveDate): (s: string)
    ensures |s| >= 10
  {
    ZeroPad(Digits(date.month), 2) + "/" + ZeroPad(Digits(date.day), 2) + "/" + FormatYear(date.year)
  }

  /** Years 0 to 9999 print as exactly "MM/DD/YYYY". */
  lemma FormatDateUsShape(date: NaiveDate)
    requires 0 <= date.year <= 9999
    ensures var s := FormatDateUs(date); |s| == 10 && s[2] == '/' && s[5] == '/'
  {
    var m, d, y := ZeroPad(Digits(date.month), 2), ZeroPad(Digits(date.day), 2), FormatYear(date.year);
    DigitsLength(date.month);
    DigitsLength(date.day);
    assert |m| == 2 && |d| == 2 && |y| == 4;
    var s := m + "/" + d + "/" + y;
    assert s == m + ['/'] + d + ['/'] + y;
    assert s[2] == (m + ['/'])[2];
    assert s[5] == (m + ['/'] + d + ['/'])[5];
  }

  /** The three printed fields, none of which holds a '/'. */
  lemma FormatPieces(date: NaiveDate)
    ensures var m, d, y := ZeroPad(Digits(date.month), 2), ZeroPad(Digits(date.day), 2), FormatYear(date.year);
      && |m| == 2 && |d| == 2
      && '/' !in m && '/' !in d && '/' !in y
      && multiset(m + "/" + d + "/" + y)['/'] == 2
  {
    var m, d, y := ZeroPad(Digits(date.month), 2), ZeroPad(Digits(date.day), 2), FormatYear(date.year);
    PaddedValue(date.month, 2);
    PaddedValue(date.day, 2);
    FormatYearDigits(date.year);
    DigitsLength(date.month);
    DigitsLength(date.day);
    assert forall i :: 0 <= i < |m| ==> IsDigit(m[i]);
    assert forall i :: 0 <= i < |d| ==> IsDigit(d[i]);
    assert multiset(m)['/'] == 0 && multiset(d)['/'] == 0 && multiset(y)['/'] == 0;
    assert multiset(m + "/" + d + "/" + y) == multiset(m) + multiset("/") + multiset(d) + multiset("/") + multiset(y);
  }

  /** Months and days take at most two digits, years up to 9999 at most four. */
  lemma {:induction false} DigitsLength(n: nat)
    ensures n < 10 ==> |Digits(n)| == 1
    ensures n < 100 ==> |Digits(n)| <= 2
    ensures n < 1000 ==> |Digits(n)| <= 3
    ensures n < 10000 ==> |Digits(n)| <= 4
  {
    if n >= 10 {
      DigitsLength(n / 10);
    }
  }

  /** What follows the optional sign of `%Y` is a digit string spelling the year's magnitude. */
  lemma FormatYearDigits(y: int)
    ensures var s := FormatYear(y); var body := if 0 <= y <= 9999 then s else s[1..];
      && |s| >= 1 && '/' !in s
      && (0 <= y <= 9999 ==> IsDigit(s[0]))
      && (y < 0 ==> s[0] == '-') && (y > 9999 ==> s[0] == '+')
      && AllDigits(body) && body != [] && DecimalValue(body) == (if y < 0 then -y else y)
  {
    var n := if y < 0 then -y else y;
    PaddedValue(n, 4);
    var body := ZeroPad(Digits(n), 4);
    assert forall i :: 0 <= i < |body| ==> IsDigit(body[i]);
    if !(0 <= y <= 9999) {
      var s := FormatYear(y);
      assert s[1..] == body;
      assert forall i :: 1 <= i < |s| ==> s[i] == body[i - 1];
    }
  }

  /* ---------------------------------------------------------------------- */
  /* parse_date_us                                                           */
  /* ---------------------------------------------------------------------- */

  /**
   * `parse_date_us`: exactly three '/'-separated pieces, month and day as
   * `u32`, year as `i32`, and the triple a real calendar day. Every failure
   * is `InvalidDate`.
   */
  function ParseDateUs(s: string): (r: Result<NaiveDate, TextInterfaceError>)
    ensures r.Err? ==> r.error == InvalidDate
    ensures r.Ok? ==> multiset(s)['/'] == 2
    ensures r.Ok? <==> var values := Split(s, '/');
      && |values| == 3
      && ParseU32(values[0]).Some? && ParseU32(values[1]).Some? && ParseI32(values[2]).Some?
      && ValidYmd(ParseI32(values[2]).value, ParseU32(values[0]).value, ParseU32(values[1]).value)
    ensures r.Ok? ==> var values := Split(s, '/');
      && |values| == 3
      && ParseU32(values[0]) == Some(r.value.month)
      && ParseU32(values[1]) == Some(r.value.day)
      && ParseI32(values[2]) == Some(r.value.year)
  {
    SplitPieces(s, '/');
    var values := Split(s, '/');
    if |values| != 3 then Err(InvalidDate)
    else
      var month, day, year := ParseU32(values[0]), ParseU32(values[1]), ParseI32(values[2]);
      if month.None? || day.None? || year.None? then Err(InvalidDate)
      else
        var date := FromYmdOpt(year.value, month.value, day.value);
        if date.None? then Err(InvalidDate) else Ok(date.value)
  }

  /** A zero-padded number within 32 bits reads back through `u32::from_str`. */
  lemma ParsePadded(n: nat, width: nat)
    requires n <= U32Max
    ensures ParseU32(ZeroPad(Digits(n), width)) == Some(n)
  {
    var s := ZeroPad(Digits(n), width);
    PaddedValue(n, width);
    assert IsDigit(s[0]);
  }

  /** A year printed by `%Y` reads back through `i32::from_str`. */
  lemma ParseYear(y: int)
    requires MinYear <= y <= MaxYear
    ensures ParseI32(FormatYear(y)) == Some(y)
  {
    FormatYearDigits(y);
  }

  /** The three printed fields, joined by '/', split back into the same three. */
  lemma SplitFields(m: string, d: string, y: string)
    requires '/' !in m && '/' !in d && '/' !in y
    ensures Split(m + "/" + d + "/" + y, '/') == [m, d, y]
  {
    assert Join([m, d, y], '/') == m + "/" + d + "/" + y by {
      assert [m, d, y][1..] == [d, y] && [d, y][1..] == [y];
      assert Join([d, y], '/') == d + ['/'] + y;
      assert Join([m, d, y], '/') == m + ['/'] + (d + ['/'] + y);
    }
    JoinSplit([m, d, y], '/');
  }

  /** A date the shell prints reads back as the same date, for every year chrono can hold. */
  lemma FormatParseRoundTrip(date: NaiveDate)
    ensures ParseDateUs(FormatDateUs(date)) == Ok(date)
  {
    var m, d, y := ZeroPad(Digits(date.month), 2), ZeroPad(Digits(date.day), 2), FormatYear(date.year);
    FormatPieces(date);
    SplitFields(m, d, y);
    ParsePadded(date.month, 2);
    ParsePadded(date.day, 2);
    ParseYear(date.year);
    var r := ParseDateUs(m + "/" + d + "/" + y);
    assert r.Ok?;
    assert r.value.month == date.month && r.value.day == date.day && r.value.year == date.year;
  }
}
