/**
 * A person's name and its hand-written ordering (personnel.rs: `Name`, its
 * `Display` and its `Ord`). The order looks at the last name and then the
 * first name; the middle name never takes part.
 */
module Names {
  import opened Wrappers
  import opened Ordering

  datatype Name = Name(last: string, middle: Option<string>, first: string)

  /** `Name::cmp`: last names decide unless they are equal, then first names do. */
  function CmpName(a: Name, b: Name): Ordering {
    if a.last != b.last then CmpStr(a.last, b.last) else CmpStr(a.first, b.first)
  }

  /** Two names are the same person as far as a roster is concerned. */
  predicate SameKey(a: Name, b: Name) {
    a.last == b.last && a.first == b.first
  }

  /** Strictly below in the name order. */
  predicate NameLess(a: Name, b: Name) {
    CmpName(a, b) == Less
  }

  /** The order on names is the lexicographic order on (last, first) pairs. */
  lemma CmpNameLessIff(a: Name, b: Name)
    ensures NameLess(a, b) <==>
      LexLess(a.last, b.last) || (a.last == b.last && LexLess(a.first, b.first))
  {
    CmpStrLessIff(a.last, b.last);
    CmpStrLessIff(a.first, b.first);
  }

  /** `cmp` answers Equal exactly for names with the same last and first name. */
  lemma CmpNameEqualIff(a: Name, b: Name)
    ensures CmpName(a, b) == Equal <==> SameKey(a, b)
  {
  }

  /** The middle name never affects the comparison. */
  lemma CmpNameIgnoresMiddle(a: Name, b: Name, m: Option<string>, m': Option<string>)
    ensures CmpName(a.(middle := m), b.(middle := m')) == CmpName(a, b)
  {
  }

  lemma CmpNameAntisymmetric(a: Name, b: Name)
    ensures CmpName(b, a) == CmpName(a, b).Reverse()
  {
    CmpStrAntisymmetric(a.last, b.last);
    CmpStrAntisymmetric(a.first, b.first);
  }

  lemma CmpNameTransitive(a: Name, b: Name, c: Name)
    requires NameLess(a, b) && NameLess(b, c)
    ensures NameLess(a, c)
  {
    if a.last != b.last && b.last != c.last {
      CmpStrTransitive(a.last, b.last, c.last);
    } else if a.last == b.last && b.last == c.last {
      CmpStrTransitive(a.first, b.first, c.first);
    }
  }

  /** An entry with the same key as `b` sits where `b` does in the order. */
  lemma CmpNameSameKey(a: Name, b: Name, c: Name)
    requires SameKey(b, c)
    ensures CmpName(a, b) == CmpName(a, c) && CmpName(b, a) == CmpName(c, a)
  {
  }

  /** Any two names are ordered one way, the other, or have the same key. */
  lemma CmpNameTotal(a: Name, b: Name)
    ensures NameLess(a, b) || SameKey(a, b) || NameLess(b, a)
  {
    CmpNameAntisymmetric(a, b);
  }

  /**
   * Against a fixed name, a lower name never compares higher than a greater
   * one: the comparator answers of a sorted list are monotone.
   */
  lemma CmpNameProbeOrder(a: Name, b: Name, key: Name)
    requires NameLess(a, b)
    ensures CmpName(a, key).Rank() <= CmpName(b, key).Rank()
  {
    if CmpName(a, key) == Equal {
      CmpNameSameKey(b, a, key);
      CmpNameAntisymmetric(a, b);
    } else if CmpName(a, key) == Greater {
      CmpNameAntisymmetric(a, key);
      CmpNameTransitive(key, a, b);
      CmpNameAntisymmetric(key, b);
    }
  }

  /** `Display for Name`: "last, first middle", or "last, first" without a middle name. */
  function Display(n: Name): (r: string)
    ensures |r| >= |n.last| + 2 + |n.first|
    ensures r[..|n.last|] == n.last && r[|n.last|..|n.last| + 2] == ", "
    ensures r[|n.last| + 2..|n.last| + 2 + |n.first|] == n.first
    ensures n.middle.None? ==> |r| == |n.last| + 2 + |n.first|
    ensures n.middle.Some? ==> r[|n.last| + 2 + |n.first|..] == " " + n.middle.value
  {
    match n.middle
    case Some(mid) => n.last + ", " + n.first + " " + mid
    case None => n.last + ", " + n.first
  }
}
