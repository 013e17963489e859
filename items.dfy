/** Items of the tree and their three-way comparison.

    The tree is written against an `item` capability with a single `compare`
    method; the only instance in the repository is `numItem`, an integer.
    The model fixes items to `int` and gives `compare` its `numItem` meaning,
    so a comparison between items of different dynamic types cannot arise.
 */
module Items {

  /** The result of a three-way comparison `a.compare(b)`. */
  datatype Cmp = LessThan | Equal | GreaterThan

  /** The integer codes the source uses for the three results. */
  const GreaterThanCode: int := 1
  const EqualCode: int := 0
  const LessThanCode: int := -1

  function Code(c: Cmp): (v: int)
    ensures v == GreaterThanCode <==> c == GreaterThan
    ensures v == EqualCode <==> c == Equal
    ensures v == LessThanCode <==> c == LessThan
  {
    match c
    case GreaterThan => GreaterThanCode
    case Equal => EqualCode
    case LessThan => LessThanCode
  }

  /** The result of comparing the other way round. */
  function Flip(c: Cmp): Cmp {
    match c
    case LessThan => GreaterThan
    case Equal => Equal
    case GreaterThan => LessThan
  }

  /** `numItem.compare`: how `n` compares with `other`. */
  function Compare(n: int, other: int): (c: Cmp)
    ensures c == LessThan <==> n < other
    ensures c == Equal <==> n == other
    ensures c == GreaterThan <==> other < n
  {
    if n < other then LessThan
    else if n == other then Equal
    else GreaterThan
  }

  /** Swapping the operands flips the result: the order is antisymmetric. */
  lemma CompareAntisymmetric(a: int, b: int)
    ensures Compare(b, a) == Flip(Compare(a, b))
  {
  }

  /** The strict part of the order is transitive. */
  lemma CompareTransitive(a: int, b: int, c: int)
    requires Compare(a, b) == LessThan && Compare(b, c) == LessThan
    ensures Compare(a, c) == LessThan
  {
  }

  /** Ascending with no two items comparing equal. */
  ghost predicate StrictlyAscending(s: seq<int>) {
    forall i, j :: 0 <= i < j < |s| ==> s[i] < s[j]
  }

  /** A strictly ascending sequence splits into two strictly ascending halves,
      every item of the first below every item of the second. */
  lemma AscendingSplit(a: seq<int>, b: seq<int>)
    requires StrictlyAscending(a + b)
    ensures StrictlyAscending(a) && StrictlyAscending(b)
    ensures forall x, y :: x in a && y in b ==> x < y
  {
    forall x, y | x in a && y in b ensures x < y {
      var i :| 0 <= i < |a| && a[i] == x;
      var j :| 0 <= j < |b| && b[j] == y;
      assert (a + b)[i] == x && (a + b)[|a| + j] == y;
    }
    forall i, j | 0 <= i < j < |b| ensures b[i] < b[j] {
      assert (a + b)[|a| + i] == b[i] && (a + b)[|a| + j] == b[j];
    }
    forall i, j | 0 <= i < j < |a| ensures a[i] < a[j] {
      assert (a + b)[i] == a[i] && (a + b)[j] == a[j];
    }
  }

  /** In a strictly ascending sequence, nothing is below its first item. */
  lemma AscendingFirst(s: seq<int>, x: int)
    requires StrictlyAscending(s) && x in s
    ensures s[0] <= x
  {
  }

  /** In a strictly ascending sequence, nothing exceeds its last item. */
  lemma AscendingLast(s: seq<int>, x: int)
    requires StrictlyAscending(s) && x in s
    ensures x <= s[|s| - 1]
  {
  }
}
