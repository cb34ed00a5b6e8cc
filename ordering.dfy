/**
 * The comparison machinery the Rust source borrows from its standard library:
 * `std::cmp::Ordering`, the `Ord` of `String` and `slice::binary_search_by`.
 */
module Ordering {

  datatype Ordering = Less | Equal | Greater {

    /** `Ordering::reverse`: the answer of the comparison taken the other way round. */
    function Reverse(): Ordering {
      match this
      case Less => Greater
      case Equal => Equal
      case Greater => Less
    }

    /** Position in the order Less < Equal < Greater. */
    function Rank(): nat {
      match this
      case Less => 0
      case Equal => 1
      case Greater => 2
    }
  }

  /**
   * `Ord` for `String`: Rust compares the UTF-8 bytes, which orders strings
   * exactly as comparing their code points one by one does; a proper prefix
   * comes first. (Dafny's own `<` on sequences means "proper prefix", so the
   * order is spelled out here.)
   */
  function CmpStr(a: string, b: string): (r: Ordering)
    ensures r == Equal <==> a == b
  {
    if a == [] then (if b == [] then Equal else Less)
    else if b == [] then Greater
    else if a[0] < b[0] then Less
    else if a[0] > b[0] then Greater
    else
      var rest := CmpStr(a[1..], b[1..]);
      assert rest == Equal ==> a == [a[0]] + a[1..] == [b[0]] + b[1..] == b;
      rest
  }

  /**
   * The textbook definition of lexicographic order: `a` is below `b` when
   * they agree on the first `k` characters and then either `a` ends or its
   * next character is smaller.
   */
  ghost predicate LexLess(a: string, b: string) {
    exists k :: 0 <= k <= |a| && k < |b| && a[..k] == b[..k] && (k == |a| || a[k] < b[k])
  }

  /** Below a common first character, the lexicographic order looks at the rest. */
  lemma LexLessTail(a: string, b: string)
    requires a != [] && b != [] && a[0] == b[0]
    ensures LexLess(a, b) <==> LexLess(a[1..], b[1..])
  {
    if LexLess(a[1..], b[1..]) {
      var k :| 0 <= k <= |a[1..]| && k < |b[1..]| && a[1..][..k] == b[1..][..k] && (k == |a[1..]| || a[1..][k] < b[1..][k]);
      assert a[..k + 1] == [a[0]] + a[1..][..k];
      assert b[..k + 1] == [b[0]] + b[1..][..k];
      assert k + 1 < |a| ==> a[k + 1] == a[1..][k] && b[k + 1] == b[1..][k];
      assert a[..k + 1] == b[..k + 1] && (k + 1 == |a| || a[k + 1] < b[k + 1]);
    }
    if LexLess(a, b) {
      var k :| 0 <= k <= |a| && k < |b| && a[..k] == b[..k] && (k == |a| || a[k] < b[k]);
      assert k != 0;
      assert a[1..][..k - 1] == a[..k][1..] == b[..k][1..] == b[1..][..k - 1];
      assert k < |a| ==> a[1..][k - 1] == a[k] && b[1..][k - 1] == b[k];
      assert k - 1 == |a[1..]| || a[1..][k - 1] < b[1..][k - 1];
    }
  }

  /** CmpStr is that lexicographic order. */
  lemma {:induction false} CmpStrLessIff(a: string, b: string)
    ensures CmpStr(a, b) == Less <==> LexLess(a, b)
  {
    if a == [] {
      if b != [] { assert a[..0] == b[..0]; }
    } else if b == [] {
    } else if a[0] < b[0] {
      assert a[..0] == b[..0];
    } else if a[0] > b[0] {
    } else {
      CmpStrLessIff(a[1..], b[1..]);
      LexLessTail(a, b);
    }
  }

  /** Swapping the arguments reverses the answer. */
  lemma {:induction false} CmpStrAntisymmetric(a: string, b: string)
    ensures CmpStr(b, a) == CmpStr(a, b).Reverse()
  {
    if a != [] && b != [] && a[0] == b[0] {
      CmpStrAntisymmetric(a[1..], b[1..]);
    }
  }

  /** The order is transitive. */
  lemma {:induction false} CmpStrTransitive(a: string, b: string, c: string)
    requires CmpStr(a, b) == Less && CmpStr(b, c) == Less
    ensures CmpStr(a, c) == Less
  {
    if a != [] && b != [] && c != [] && a[0] == b[0] && b[0] == c[0] {
      CmpStrTransitive(a[1..], b[1..], c[1..]);
    }
  }

  /** Either a is below b, they are equal, or b is below a. */
  lemma CmpStrTotal(a: string, b: string)
    ensures CmpStr(a, b) == Less || a == b || CmpStr(b, a) == Less
  {
    CmpStrAntisymmetric(a, b);
  }

  /** Against a fixed string, a lower string never compares higher than a greater one. */
  lemma CmpStrProbeOrder(a: string, b: string, key: string)
    requires CmpStr(a, b) == Less
    ensures CmpStr(a, key).Rank() <= CmpStr(b, key).Rank()
  {
    if CmpStr(a, key) == Equal {
      CmpStrAntisymmetric(a, b);
    } else if CmpStr(a, key) == Greater {
      CmpStrAntisymmetric(a, key);
      CmpStrTransitive(key, a, b);
      CmpStrAntisymmetric(key, b);
    }
  }

  /**
   * The answers of a comparator against a sorted slice: some Less, then some
   * Equal, then some Greater. This is what `binary_search_by` relies on.
   */
  ghost predicate Monotone(probes: seq<Ordering>) {
    forall i, j :: 0 <= i < j < |probes| ==> probes[i].Rank() <= probes[j].Rank()
  }

  /** What `binary_search_by` returns: `Ok(i)` of a match, `Err(i)` of the gap where the key belongs. */
  datatype Search = Found(index: nat) | NotFound(index: nat)

  /**
   * `slice::binary_search_by`, given the answers its comparator gives for
   * each element (the comparators of this program are pure, so asking them
   * all is the same as asking the ones a binary search visits). Halving the
   * range, it either stops at an element that compares Equal, or returns the
   * gap with every element before it Less and every element from it on Greater.
   */
  method BinarySearchBy(probes: seq<Ordering>) returns (r: Search)
    requires Monotone(probes)
    ensures r.Found? ==> r.index < |probes| && probes[r.index] == Equal
    ensures r.NotFound? ==> r.index <= |probes|
    ensures r.NotFound? ==> forall j :: 0 <= j < r.index ==> probes[j] == Less
    ensures r.NotFound? ==> forall j :: r.index <= j < |probes| ==> probes[j] == Greater
  {
    var lo, hi := 0, |probes|;
    while lo < hi
      invariant 0 <= lo <= hi <= |probes|
      invariant forall j :: 0 <= j < lo ==> probes[j] == Less
      invariant forall j :: hi <= j < |probes| ==> probes[j] == Greater
    {
      var mid := lo + (hi - lo) / 2;
      match probes[mid]
      case Less => lo := mid + 1;
      case Greater => hi := mid;
      case Equal => return Found(mid);
    }
    return NotFound(lo);
  }
}
