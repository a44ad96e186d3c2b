/** Sets of code points as inversion lists. */
module InversionList {

  const HIGH := 0x110000

  /** Strictly ascending and terminated with `HIGH`. */
  ghost predicate ValidList(list: seq<int>) {
    && list != []
    && list[0] >= 0
    && list[|list| - 1] == HIGH
    && forall i, j :: 0 <= i < j < |list| ==> list[i] < list[j]
  }

  /** The smallest index from `i` on whose element is above `c`. */
  function RankFrom(list: seq<int>, c: int, i: nat): (r: nat)
    requires i <= |list|
    ensures i <= r <= |list|
    ensures forall j :: i <= j < r ==> list[j] <= c
    ensures r < |list| ==> c < list[r]
    decreases |list| - i
  {
    if i == |list| || c < list[i] then i else RankFrom(list, c, i + 1)
  }

  /** The smallest index whose element is above `c`. */
  function Rank(list: seq<int>, c: int): nat { RankFrom(list, c, 0) }

  /** Code points between an even and the next odd index are in the set. */
  predicate Member(list: seq<int>, c: int) { Rank(list, c) % 2 == 1 }

  /** Two neighbours in the list pin the rank down. */
  lemma RankIs(list: seq<int>, c: int, i: nat)
    requires ValidList(list) && i <= |list|
    requires i > 0 ==> list[i - 1] <= c
    requires i < |list| ==> c < list[i]
    ensures Rank(list, c) == i
  {
    assert forall j :: 0 <= j < i ==> list[j] <= c;
    assert forall j :: i <= j < |list| ==> c < list[j];
  }

  lemma RankMonotone(list: seq<int>, c: int, d: int)
    requires ValidList(list) && c <= d
    ensures Rank(list, c) <= Rank(list, d)
  {
    assert forall j :: 0 <= j < Rank(list, c) ==> list[j] <= d;
  }

  lemma RankOfCodePoint(list: seq<int>, c: int)
    requires ValidList(list) && c < HIGH
    ensures Rank(list, c) < |list|
  {}

  /** The limit of the range that starts at index `i`. */
  function LimitAfter(list: seq<int>, i: nat): int {
    if i + 1 < |list| then list[i + 1] else HIGH
  }

  /** The set is the union of its ranges. */
  lemma MemberOfRange(list: seq<int>, c: int)
    requires ValidList(list) && c < HIGH
    ensures Member(list, c) <==> exists k :: 0 <= k < |list| && k % 2 == 0 && list[k] <= c < LimitAfter(list, k)
  {
    var r := Rank(list, c);
    if r % 2 == 1 {
      assert list[r - 1] <= c < LimitAfter(list, r - 1);
    }
    forall k | 0 <= k < |list| && k % 2 == 0 && list[k] <= c < LimitAfter(list, k)
      ensures Member(list, c)
    {
      RankIs(list, c, k + 1);
    }
  }

  /** Inside a range, in the gap after it, and before the first one. */
  lemma MemberAround(list: seq<int>, i: nat, c: int)
    requires ValidList(list) && i < |list| && i % 2 == 0 && c < HIGH
    ensures list[i] <= c < LimitAfter(list, i) ==> Member(list, c)
    ensures LimitAfter(list, i) <= c && (i + 2 < |list| ==> c < list[i + 2]) ==> !Member(list, c)
    ensures i == 0 && c < list[0] ==> !Member(list, c)
  {
    if list[i] <= c < LimitAfter(list, i) {
      RankIs(list, c, i + 1);
    } else if LimitAfter(list, i) <= c && (i + 2 < |list| ==> c < list[i + 2]) {
      assert i + 1 < |list| ==> i + 2 < |list|;
      RankIs(list, c, i + 2);
    } else if i == 0 && c < list[0] {
      RankIs(list, c, 0);
    }
  }

  /** A range that ends below `HIGH` is followed by another pair of list entries. */
  lemma NextExists(list: seq<int>, i: nat)
    requires ValidList(list) && i < |list| && LimitAfter(list, i) < HIGH
    ensures i + 2 < |list| && LimitAfter(list, i) < list[i + 2] && list[i] < LimitAfter(list, i)
  {}
}
