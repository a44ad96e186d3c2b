/**
 The strings that are canonically equivalent to a string: rearrangements of its characters that respect
 characters of combining class 0, and all combinations of the equivalents of its pieces.
 */
module Permutations {

  /** The numbers below `n`, each once. */
  ghost predicate Permutation(p: seq<nat>, n: nat) {
    && |p| == n
    && (forall k :: 0 <= k < n ==> p[k] < n)
    && (forall j, k :: 0 <= j < k < n ==> p[j] != p[k])
    && (forall x: nat :: x < n ==> x in p)
  }

  /** Whatever comes before a character of class 0 still does. */
  ghost predicate KeepsZeros(cc: int -> int, s: seq<int>, p: seq<nat>) {
    forall a, b :: 0 <= a < b < |p| && p[b] < p[a] < |s| ==> cc(s[p[a]]) != 0
  }

  /** `r` is `s` rearranged: its character `k` is character `p[k]` of `s`. */
  ghost predicate Rearranged(cc: int -> int, skipZeros: bool, s: seq<int>, r: seq<int>, p: seq<nat>) {
    && Permutation(p, |s|) && |r| == |s|
    && (forall k :: 0 <= k < |r| ==> r[k] == s[p[k]])
    && (skipZeros ==> KeepsZeros(cc, s, p))
  }

  function Without(s: seq<int>, i: nat): (r: seq<int>)
    requires i < |s|
    ensures |r| == |s| - 1
    ensures forall k :: 0 <= k < |r| ==> r[k] == s[if k < i then k else k + 1]
  {
    s[..i] + s[i + 1..]
  }

  /** Index `x` of a string without character `i`, in the string with it. */
  ghost function Shift(i: nat, x: nat): nat { if x < i then x else x + 1 }

  ghost function Unshift(i: nat, x: nat): nat
    requires x != i
  {
    if x < i then x else x - 1
  }

  ghost function ShiftAll(i: nat, q: seq<nat>): (p: seq<nat>)
    ensures |p| == |q| + 1 && p[0] == i
    ensures forall k :: 1 <= k < |p| ==> p[k] == Shift(i, q[k - 1])
  {
    [i] + seq(|q|, k requires 0 <= k < |q| => Shift(i, q[k]))
  }

  ghost function UnshiftAll(i: nat, p: seq<nat>): (q: seq<nat>)
    requires |p| > 0 && forall k :: 1 <= k < |p| ==> p[k] != i
    ensures |q| == |p| - 1
    ensures forall k :: 0 <= k < |q| ==> q[k] == Unshift(i, p[k + 1])
  {
    seq(|p| - 1, k requires 0 <= k < |p| - 1 => Unshift(i, p[k + 1]))
  }

  lemma ShiftedPermutation(i: nat, q: seq<nat>, n: nat)
    requires Permutation(q, n) && i <= n
    ensures Permutation(ShiftAll(i, q), n + 1)
  {
    var p := ShiftAll(i, q);
    forall x: nat | x < n + 1 ensures x in p {
      if x == i {
        assert p[0] == x;
      } else {
        assert Unshift(i, x) in q;
        var k :| 0 <= k < |q| && q[k] == Unshift(i, x);
        assert p[k + 1] == x;
      }
    }
  }

  lemma UnshiftedPermutation(p: seq<nat>, n: nat)
    requires Permutation(p, n) && n > 0
    ensures Permutation(UnshiftAll(p[0], p), n - 1)
  {
    var i, q := p[0], UnshiftAll(p[0], p);
    forall x: nat | x < n - 1 ensures x in q {
      assert Shift(i, x) in p;
      var k :| 0 <= k < |p| && p[k] == Shift(i, x);
      assert q[k - 1] == x;
    }
  }

  /** A character may come first: the first one, or one that is not of class 0. */
  ghost predicate MayLead(cc: int -> int, skipZeros: bool, s: seq<int>, i: nat) {
    i < |s| && (skipZeros && i != 0 ==> cc(s[i]) != 0)
  }

  /** A rearrangement of the others, with such a character in front, is a rearrangement. */
  lemma LeadRearranged(cc: int -> int, skipZeros: bool, s: seq<int>, i: nat, r: seq<int>, q: seq<nat>)
    requires MayLead(cc, skipZeros, s, i) && Rearranged(cc, skipZeros, Without(s, i), r, q)
    ensures Rearranged(cc, skipZeros, s, [s[i]] + r, ShiftAll(i, q))
  {
    var p := ShiftAll(i, q);
    ShiftedPermutation(i, q, |s| - 1);
    if skipZeros {
      forall a, b | 0 <= a < b < |p| && p[b] < p[a] < |s| ensures cc(s[p[a]]) != 0 {
        if a > 0 {
          assert q[b - 1] < q[a - 1] && Without(s, i)[q[a - 1]] == s[p[a]];
        }
      }
    }
  }

  /** Every rearrangement starts with such a character, and goes on with a rearrangement of the others. */
  lemma RearrangedLeads(cc: int -> int, skipZeros: bool, s: seq<int>, r: seq<int>, p: seq<nat>)
    requires |s| > 0 && Rearranged(cc, skipZeros, s, r, p)
    ensures MayLead(cc, skipZeros, s, p[0]) && r[0] == s[p[0]]
    ensures Rearranged(cc, skipZeros, Without(s, p[0]), r[1..], UnshiftAll(p[0], p))
  {
    hide KeepsZeros;
    UnshiftedPermutation(p, |s|);
    if skipZeros {
      RestKeepsZeros(cc, s, p);
    }
  }

  lemma RestKeepsZeros(cc: int -> int, s: seq<int>, p: seq<nat>)
    requires |s| > 0 && Permutation(p, |s|) && KeepsZeros(cc, s, p)
    ensures p[0] != 0 ==> cc(s[p[0]]) != 0
    ensures KeepsZeros(cc, Without(s, p[0]), UnshiftAll(p[0], p))
  {
    var i, q := p[0], UnshiftAll(p[0], p);
    if i != 0 {
      assert 0 in p;
      var b :| 0 <= b < |p| && p[b] == 0;
    }
    forall a, b | 0 <= a < b < |q| && q[b] < q[a] < |s| - 1 ensures cc(Without(s, i)[q[a]]) != 0 {
      assert p[b + 1] < p[a + 1];
    }
  }

  lemma SingleRearranged(cc: int -> int, skipZeros: bool, s: seq<int>, r: seq<int>, p: seq<nat>)
    requires |s| <= 1 && Rearranged(cc, skipZeros, s, r, p)
    ensures r == s
  {
  }

  ghost function Identity(n: nat): (p: seq<nat>)
    ensures |p| == n && forall k :: 0 <= k < n ==> p[k] == k
  {
    seq(n, k => k)
  }

  /** The string itself is one of its rearrangements. */
  lemma SourceIncluded(cc: int -> int, skipZeros: bool, s: seq<int>)
    ensures Rearranged(cc, skipZeros, s, s, Identity(|s|))
  {
    var p := Identity(|s|);
    forall x: nat | x < |s| ensures x in p { assert p[x] == x; }
  }

  /** A rearrangement has the same characters, as often as the string. */
  lemma {:induction false} SameCharacters(cc: int -> int, skipZeros: bool, s: seq<int>, r: seq<int>, p: seq<nat>)
    requires Rearranged(cc, skipZeros, s, r, p)
    ensures multiset(r) == multiset(s)
    decreases |s|
  {
    hide UnshiftAll, Without, MayLead;
    if |s| > 0 {
      var i := p[0];
      RearrangedLeads(cc, skipZeros, s, r, p);
      SameCharacters(cc, skipZeros, Without(s, i), r[1..], UnshiftAll(i, p));
      assert r == [r[0]] + r[1..];
      CharactersWithout(s, i);
    }
  }

  lemma CharactersWithout(s: seq<int>, i: nat)
    requires i < |s|
    ensures multiset(s) == multiset{s[i]} + multiset(Without(s, i))
  {
    assert s == s[..i] + ([s[i]] + s[i + 1..]);
  }

  /** The strings that are added: all rearrangements of the source. */
  ghost predicate AddsRearrangements(cc: int -> int, skipZeros: bool, s: seq<int>, before: set<seq<int>>, after: set<seq<int>>) {
    forall r :: r in after <==> r in before || exists p :: Rearranged(cc, skipZeros, s, r, p)
  }

  /** All rearrangements with one of the first `i` characters in front have been added. */
  ghost predicate AddsLeads(cc: int -> int, skipZeros: bool, s: seq<int>, before: set<seq<int>>, after: set<seq<int>>, i: nat) {
    forall r :: r in after <==>
      r in before || exists p :: Rearranged(cc, skipZeros, s, r, p) && |p| > 0 && p[0] < i
  }

  lemma AllLeads(cc: int -> int, skipZeros: bool, s: seq<int>, before: set<seq<int>>, after: set<seq<int>>)
    requires |s| > 0 && AddsLeads(cc, skipZeros, s, before, after, |s|)
    ensures AddsRearrangements(cc, skipZeros, s, before, after)
  {
    forall r ensures r in after <==> r in before || exists p :: Rearranged(cc, skipZeros, s, r, p) {
      if p :| Rearranged(cc, skipZeros, s, r, p) {
        assert |p| > 0 && p[0] < |s|;
      }
    }
  }

  /** A character that may not lead adds nothing. */
  lemma SkipLead(cc: int -> int, skipZeros: bool, s: seq<int>, before: set<seq<int>>, after: set<seq<int>>, i: nat)
    requires i < |s| && AddsLeads(cc, skipZeros, s, before, after, i) && !MayLead(cc, skipZeros, s, i)
    ensures AddsLeads(cc, skipZeros, s, before, after, i + 1)
  {
    forall r, p | Rearranged(cc, skipZeros, s, r, p) && |p| > 0 ensures p[0] != i {
      RearrangedLeads(cc, skipZeros, s, r, p);
    }
  }

  /** A character that may lead adds what the rearrangements of the others give. */
  lemma AddLead(cc: int -> int, skipZeros: bool, s: seq<int>, before: set<seq<int>>, mid: set<seq<int>>, after: set<seq<int>>,
                sub: set<seq<int>>, i: nat)
    requires i < |s| && AddsLeads(cc, skipZeros, s, before, mid, i) && MayLead(cc, skipZeros, s, i)
    requires AddsRearrangements(cc, skipZeros, Without(s, i), {}, sub)
    requires forall r :: r in after <==> r in mid || (|r| > 0 && r[0] == s[i] && r[1..] in sub)
    ensures AddsLeads(cc, skipZeros, s, before, after, i + 1)
  {
    forall r | r in after
      ensures r in before || exists p :: Rearranged(cc, skipZeros, s, r, p) && |p| > 0 && p[0] < i + 1
    {
      if r !in mid {
        var q :| Rearranged(cc, skipZeros, Without(s, i), r[1..], q);
        LeadRearranged(cc, skipZeros, s, i, r[1..], q);
        assert [s[i]] + r[1..] == r;
        assert Rearranged(cc, skipZeros, s, r, ShiftAll(i, q)) && ShiftAll(i, q)[0] == i;
      }
    }
    forall r, p | Rearranged(cc, skipZeros, s, r, p) && |p| > 0 && p[0] < i + 1 ensures r in after {
      if p[0] == i {
        RearrangedLeads(cc, skipZeros, s, r, p);
        assert Rearranged(cc, skipZeros, Without(s, i), r[1..], UnshiftAll(i, p));
      }
    }
  }

  lemma NoLeads(cc: int -> int, skipZeros: bool, s: seq<int>, before: set<seq<int>>)
    ensures AddsLeads(cc, skipZeros, s, before, before, 0)
  {
  }

  lemma SingleAdded(cc: int -> int, skipZeros: bool, s: seq<int>, before: set<seq<int>>)
    requires |s| <= 1
    ensures AddsRearrangements(cc, skipZeros, s, before, before + {s})
  {
    SourceIncluded(cc, skipZeros, s);
    forall r, p | Rearranged(cc, skipZeros, s, r, p) ensures r == s {
      SingleRearranged(cc, skipZeros, s, r, p);
    }
  }

  /** A character is put in front of all strings of a set; the results are added to another set. */
  method PutAll(cp: int, subpermute: set<seq<int>>, before: set<seq<int>>) returns (result: set<seq<int>>)
    ensures forall r :: r in result <==> r in before || (|r| > 0 && r[0] == cp && r[1..] in subpermute)
  {
    result := before;
    var left := subpermute;
    // The order in which the hash table delivers its elements does not matter.
    while left != {}
      invariant left <= subpermute
      invariant forall r :: r in result <==> r in before || (|r| > 0 && r[0] == cp && r[1..] in subpermute - left)
      decreases |left|
    {
      var permRes :| permRes in left;
      left := left - {permRes};
      var chStr := [cp] + permRes;
      assert chStr[1..] == permRes;
      assert forall r :: |r| > 0 && r[0] == cp && r[1..] == permRes ==> r == chStr;
      result := result + {chStr};
    }
  }

  /**
   All rearrangements of the source are added to a set: those in which what comes before a character of
   class 0 still does, or all of them if `skipZeros` does not hold.
   */
  method Permute(cc: int -> int, source: seq<int>, skipZeros: bool, before: set<seq<int>>) returns (result: set<seq<int>>)
    ensures AddsRearrangements(cc, skipZeros, source, before, result)
    decreases |source|
  {
    hide Rearranged, AddsLeads, AddsRearrangements;
    if |source| <= 1 {
      result := before + {source};
      SingleAdded(cc, skipZeros, source, before);
      return;
    }
    NoLeads(cc, skipZeros, source, before);
    result := before;
    for i := 0 to |source|
      invariant AddsLeads(cc, skipZeros, source, before, result, i)
    {
      var cp := source[i];
      if skipZeros && i != 0 && cc(cp) == 0 {
        SkipLead(cc, skipZeros, source, before, result, i);
        continue;
      }
      var subpermute := Permute(cc, Without(source, i), skipZeros, {});
      ghost var mid := result;
      result := PutAll(cp, subpermute, result);
      AddLead(cc, skipZeros, source, before, mid, result, subpermute, i);
    }
    AllLeads(cc, skipZeros, source, before, result);
  }
}

module CanonicalIterator {

  /** A digit for each piece, below the number of its equivalents. */
  ghost predicate Digits(lengths: seq<nat>, d: seq<nat>) {
    |d| == |lengths| && forall k :: 0 <= k < |d| ==> d[k] < lengths[k]
  }

  /** The number of combinations of the pieces from `k` on. */
  ghost function Combinations(lengths: seq<nat>, k: nat): (n: nat)
    decreases |lengths| - k
  {
    if k >= |lengths| then 1 else lengths[k] * Combinations(lengths, k + 1)
  }

  /** The number that the digits from `k` on stand for, the last digit counting least. */
  ghost function Number(lengths: seq<nat>, d: seq<nat>, k: nat): nat
    requires |d| == |lengths|
    decreases |lengths| - k
  {
    if k >= |lengths| then 0 else d[k] * Combinations(lengths, k + 1) + Number(lengths, d, k + 1)
  }

  lemma {:induction false} Below(a: nat, b: nat, c: nat, r: nat)
    requires a < b && r < c
    ensures a * c + r < b * c
    decreases b
  {
    assert b * c == (b - 1) * c + c;
    if a + 1 < b { Below(a, b - 1, c, r); }
  }

  /** A number below the number of combinations. */
  lemma {:induction false} NumberBelow(lengths: seq<nat>, d: seq<nat>, k: nat)
    requires Digits(lengths, d)
    ensures Number(lengths, d, k) < Combinations(lengths, k)
    decreases |lengths| - k
  {
    if k < |lengths| {
      NumberBelow(lengths, d, k + 1);
      Below(d[k], lengths[k], Combinations(lengths, k + 1), Number(lengths, d, k + 1));
    }
  }

  lemma SameQuotient(a: nat, b: nat, c: nat, r: nat, s: nat)
    requires a * c + r == b * c + s && r < c && s < c
    ensures a == b && r == s
  {
    if a < b {
      Below(a, b, c, r);
    } else if b < a {
      Below(b, a, c, s);
    }
  }

  /** Different digits stand for different numbers. */
  lemma {:induction false} NumberInjective(lengths: seq<nat>, d: seq<nat>, e: seq<nat>, k: nat)
    requires Digits(lengths, d) && Digits(lengths, e) && Number(lengths, d, k) == Number(lengths, e, k)
    ensures forall j :: k <= j < |lengths| ==> d[j] == e[j]
    decreases |lengths| - k
  {
    if k < |lengths| {
      NumberBelow(lengths, d, k + 1);
      NumberBelow(lengths, e, k + 1);
      SameQuotient(d[k], e[k], Combinations(lengths, k + 1), Number(lengths, d, k + 1), Number(lengths, e, k + 1));
      NumberInjective(lengths, d, e, k + 1);
    }
  }

  /** Where two combinations first differ, `d` has the smaller digit. */
  ghost predicate Before(d: seq<nat>, e: seq<nat>, k: nat) {
    k < |d| == |e| && d[k] < e[k] && forall j :: 0 <= j < k ==> d[j] == e[j]
  }

  /** The numbers are in the order of the digits, the first one counting most. */
  lemma {:induction false} NumbersInOrder(lengths: seq<nat>, d: seq<nat>, e: seq<nat>, k: nat, j: nat)
    requires Digits(lengths, d) && Digits(lengths, e) && Before(d, e, k) && j <= k
    ensures Number(lengths, d, j) < Number(lengths, e, j)
    decreases k - j
  {
    if j == k {
      NumberBelow(lengths, d, k + 1);
      Below(d[k], e[k], Combinations(lengths, k + 1), Number(lengths, d, k + 1));
    } else {
      NumbersInOrder(lengths, d, e, k, j + 1);
    }
  }

  /** All digits from `k` on are as large as can be. */
  ghost predicate Full(lengths: seq<nat>, d: seq<nat>, k: nat) {
    |d| == |lengths| && forall j :: k <= j < |d| ==> d[j] + 1 == lengths[j]
  }

  lemma OneMore(a: int, c: int)
    ensures (a + 1) * c == a * c + c
  {
  }

  lemma {:induction false} FullNumber(lengths: seq<nat>, d: seq<nat>, k: nat)
    requires Full(lengths, d, k)
    ensures Number(lengths, d, k) + 1 == Combinations(lengths, k)
    decreases |lengths| - k
  {
    if k < |lengths| {
      FullNumber(lengths, d, k + 1);
      OneMore(d[k], Combinations(lengths, k + 1));
    }
  }

  lemma {:induction false} ZeroNumber(lengths: seq<nat>, d: seq<nat>, k: nat)
    requires |d| == |lengths| && forall j :: k <= j < |d| ==> d[j] == 0
    ensures Number(lengths, d, k) == 0
    decreases |lengths| - k
  {
    if k < |lengths| { ZeroNumber(lengths, d, k + 1); }
  }

  /** A digit goes up by one, and those after it, which were full, go to zero. */
  lemma {:induction false} Carry(lengths: seq<nat>, d: seq<nat>, e: seq<nat>, i: nat, k: nat)
    requires |d| == |e| == |lengths| && k <= i < |d| && Full(lengths, d, i + 1)
    requires e[i] == d[i] + 1 && forall j :: k <= j < i ==> e[j] == d[j]
    requires forall j :: i < j < |e| ==> e[j] == 0
    ensures Number(lengths, e, k) == Number(lengths, d, k) + 1
    decreases i - k
  {
    if k == i {
      FullNumber(lengths, d, i + 1);
      ZeroNumber(lengths, e, i + 1);
      OneMore(d[i], Combinations(lengths, i + 1));
    } else {
      Carry(lengths, d, e, i, k + 1);
    }
  }

  ghost function Lengths(pieces: seq<seq<string>>): (l: seq<nat>)
    ensures |l| == |pieces| && forall k :: 0 <= k < |l| ==> l[k] == |pieces[k]|
  {
    seq(|pieces|, k requires 0 <= k < |pieces| => |pieces[k]|)
  }

  /** The chosen equivalents of the first `k` pieces, one after the other. */
  ghost function Joined(pieces: seq<seq<string>>, d: seq<nat>, k: nat): string
    requires Digits(Lengths(pieces), d) && k <= |pieces|
  {
    if k == 0 then "" else Joined(pieces, d, k - 1) + pieces[k - 1][d[k - 1]]
  }

  /** The length of the chosen equivalents of the pieces before `k`. */
  ghost function Offset(pieces: seq<seq<string>>, d: seq<nat>, k: nat): nat
    requires Digits(Lengths(pieces), d) && k <= |pieces|
  {
    if k == 0 then 0 else Offset(pieces, d, k - 1) + |pieces[k - 1][d[k - 1]]|
  }

  lemma {:induction false} OffsetGrows(pieces: seq<seq<string>>, d: seq<nat>, j: nat, k: nat)
    requires Digits(Lengths(pieces), d) && j <= k <= |pieces|
    ensures Offset(pieces, d, j) <= Offset(pieces, d, k)
  {
    if j < k { OffsetGrows(pieces, d, j, k - 1); }
  }

  /** The chosen equivalent of piece `k` is where the ones before it end. */
  ghost predicate PieceAt(pieces: seq<seq<string>>, d: seq<nat>, s: string, k: nat)
    requires Digits(Lengths(pieces), d) && k < |pieces|
  {
    Offset(pieces, d, k + 1) <= |s| && s[Offset(pieces, d, k)..Offset(pieces, d, k + 1)] == pieces[k][d[k]]
  }

  /** The string consists of the chosen equivalents, in the order of the pieces. */
  ghost predicate Consists(pieces: seq<seq<string>>, d: seq<nat>, s: string)
    requires Digits(Lengths(pieces), d)
  {
    |s| == Offset(pieces, d, |pieces|) && forall k :: 0 <= k < |pieces| ==> PieceAt(pieces, d, s, k)
  }

  lemma {:induction false} JoinedAt(pieces: seq<seq<string>>, d: seq<nat>, m: nat)
    requires Digits(Lengths(pieces), d) && m <= |pieces|
    ensures |Joined(pieces, d, m)| == Offset(pieces, d, m)
    ensures forall k :: 0 <= k < m ==> PieceAt(pieces, d, Joined(pieces, d, m), k)
  {
    if m > 0 {
      JoinedAt(pieces, d, m - 1);
      var before, s := Joined(pieces, d, m - 1), Joined(pieces, d, m);
      forall k | 0 <= k < m ensures PieceAt(pieces, d, s, k) {
        OffsetGrows(pieces, d, k + 1, m);
        if k < m - 1 {
          assert PieceAt(pieces, d, before, k);
          OffsetGrows(pieces, d, k + 1, m - 1);
        }
      }
    }
  }

  lemma JoinedConsists(pieces: seq<seq<string>>, d: seq<nat>)
    requires Digits(Lengths(pieces), d)
    ensures Consists(pieces, d, Joined(pieces, d, |pieces|))
  {
    JoinedAt(pieces, d, |pieces|);
  }

  datatype Option<T> = None | Some(value: T)

  class Iterator {
    const pieces: seq<seq<string>>
    const current: array<nat>
    var done: bool

    ghost predicate Valid()
      reads this, current
    {
      Digits(Lengths(pieces), current[..])
    }

    /** How many strings have been delivered. */
    ghost function Delivered(): nat
      reads this, current
      requires Valid()
    {
      if done then Combinations(Lengths(pieces), 0) else Number(Lengths(pieces), current[..], 0)
    }

    constructor (pieces: seq<seq<string>>)
      requires forall k :: 0 <= k < |pieces| ==> |pieces[k]| > 0
      ensures Valid() && this.pieces == pieces && !done && fresh(current) && Delivered() == 0
    {
      this.pieces := pieces;
      current := new nat[|pieces|](_ => 0);
      done := false;
      new;
      ZeroNumber(Lengths(pieces), current[..], 0);
    }

    method Reset()
      requires Valid()
      modifies this, current
      ensures Valid() && !done && Delivered() == 0
    {
      done := false;
      forall i | 0 <= i < current.Length {
        current[i] := 0;
      }
      ZeroNumber(Lengths(pieces), current[..], 0);
    }

    /** The next combination; there is one for each number below the number of combinations, and then no more. */
    method Next() returns (buffer: Option<string>)
      requires Valid()
      modifies this, current
      ensures Valid()
      ensures buffer.None? <==> old(Delivered()) == Combinations(Lengths(pieces), 0)
      ensures buffer.None? ==> Delivered() == old(Delivered())
      ensures buffer.Some? ==>
        && Delivered() == old(Delivered()) + 1
        && Number(Lengths(pieces), old(current[..]), 0) == old(Delivered())
        && Consists(pieces, old(current[..]), buffer.value)
    {
      if done {
        return None;
      }
      JoinedConsists(pieces, current[..]);
      hide Lengths, Number, Combinations, Consists;
      var s := "";
      for i := 0 to |pieces|
        invariant s == Joined(pieces, current[..], i)
      {
        s := s + pieces[i][current[i]];
      }
      NumberBelow(Lengths(pieces), current[..], 0);
      Increment();
      buffer := Some(s);
    }

    /** On to the next combination, the last piece changing fastest. */
    method Increment()
      requires Valid() && !done
      modifies this, current
      ensures Valid() && Delivered() == old(Delivered()) + 1
    {
      hide Lengths, Number, Combinations;
      ghost var lengths, d := Lengths(pieces), current[..];
      var i := current.Length - 1;
      while true
        invariant -1 <= i < current.Length && Valid() && !done
        invariant forall j :: 0 <= j <= i ==> current[j] == d[j]
        invariant forall j :: i < j < current.Length ==> current[j] == 0
        invariant Full(lengths, d, i + 1)
        decreases i
      {
        if i < 0 {
          done := true;
          FullNumber(lengths, d, 0);
          return;
        }
        if current[i] + 1 < |pieces[i]| {
          current[i] := current[i] + 1;
          Carry(lengths, d, current[..], i, 0);
          return;
        }
        current[i] := 0;
        i := i - 1;
      }
    }
  }

  // `d` selects what is delivered as number n.
  ghost predicate IsNumbered(pieces: seq<seq<string>>, s: string, d: seq<nat>, n: nat) {
    Digits(Lengths(pieces), d) && Number(Lengths(pieces), d, 0) == n && Consists(pieces, d, s)
  }

  ghost predicate IsSelected(pieces: seq<seq<string>>, s: string, n: nat) {
    exists d :: IsNumbered(pieces, s, d, n)
  }

  // `all` holds the combination that d selects, at the place of its number.
  ghost predicate IsDelivered(pieces: seq<seq<string>>, all: seq<string>, d: seq<nat>) {
    && Digits(Lengths(pieces), d) && Number(Lengths(pieces), d, 0) < |all|
    && IsNumbered(pieces, all[Number(Lengths(pieces), d, 0)], d, Number(Lengths(pieces), d, 0))
  }

  /**
   A new iterator delivers every combination of equivalents exactly once, in the order of their numbers, and then none.
   */
  method Enumerate(pieces: seq<seq<string>>) returns (all: seq<string>)
    requires forall k :: 0 <= k < |pieces| ==> |pieces[k]| > 0
    ensures |all| == Combinations(Lengths(pieces), 0)
    ensures forall d :: Digits(Lengths(pieces), d) ==> IsDelivered(pieces, all, d)
    ensures forall n :: 0 <= n < |all| ==> IsSelected(pieces, all[n], n)
  {
    hide Consists, Combinations;
    var it := new Iterator(pieces);
    all := [];
    ghost var digits: seq<seq<nat>> := [];
    while true
      invariant fresh(it) && fresh(it.current) && it.Valid() && it.pieces == pieces
      invariant |all| == |digits| == it.Delivered() <= Combinations(Lengths(pieces), 0)
      invariant forall n :: 0 <= n < |all| ==> IsNumbered(pieces, all[n], digits[n], n)
      decreases Combinations(Lengths(pieces), 0) - |all|
    {
      ghost var d := it.current[..];
      var buffer := it.Next();
      if buffer.None? {
        break;
      }
      all, digits := all + [buffer.value], digits + [d];
      NumberBelow(Lengths(pieces), d, 0);
    }
    AllDelivered(pieces, all, digits);
  }

  lemma AllDelivered(pieces: seq<seq<string>>, all: seq<string>, digits: seq<seq<nat>>)
    requires |all| == |digits| == Combinations(Lengths(pieces), 0)
    requires forall n :: 0 <= n < |all| ==> IsNumbered(pieces, all[n], digits[n], n)
    ensures forall d :: Digits(Lengths(pieces), d) ==> IsDelivered(pieces, all, d)
    ensures forall n :: 0 <= n < |all| ==> IsSelected(pieces, all[n], n)
  {
    forall n | 0 <= n < |all|
      ensures IsSelected(pieces, all[n], n)
    {
      assert IsNumbered(pieces, all[n], digits[n], n);
    }
    forall d | Digits(Lengths(pieces), d)
      ensures IsDelivered(pieces, all, d)
    {
      hide Consists, Combinations, Number;
      var n := Number(Lengths(pieces), d, 0);
      NumberBelow(Lengths(pieces), d, 0);
      assert IsNumbered(pieces, all[n], digits[n], n);
      NumberInjective(Lengths(pieces), d, digits[n], 0);
      assert d == digits[n];
    }
  }
}
