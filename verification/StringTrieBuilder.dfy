/**
 Building a trie from sorted strings: a range of strings with a common prefix becomes a node, which is written
 after the nodes that follow it.
 */
module StringTrieElements {
  import opened BytesTrieFormat

  /** The strings are bytes, in strictly ascending order, and short enough to be stored, the values have 32 bits. */
  ghost predicate Elements(es: seq<Entry>) {
    && Ascending(es)
    && forall k :: 0 <= k < |es| ==>
         Bytes(es[k].str) && |es[k].str| <= 0xffff && -0x8000_0000 <= es[k].value < 0x8000_0000
  }

  /** The strings from `start` up to `limit` have their first `u` bytes in common. */
  ghost predicate Range(es: seq<Entry>, start: nat, limit: nat, u: nat) {
    && start < limit <= |es| && |es[start].str| >= u
    && forall k :: start <= k < limit ==> |es[k].str| >= u && es[k].str[..u] == es[start].str[..u]
  }

  /** The strings from `start` up to `limit` have more than `u` bytes, and byte `u` does not descend. */
  ghost predicate Fan(es: seq<Entry>, start: nat, limit: nat, u: nat) {
    && Range(es, start, limit, u)
    && Tall(es, start, limit, u)
    && (forall j, k :: start <= j <= k < limit ==> es[j].str[u] <= es[k].str[u])
  }

  /** The strings from `start` up to `limit` have more than `u` bytes. */
  ghost predicate Tall(es: seq<Entry>, start: nat, limit: nat, u: nat) {
    limit <= |es| && forall k :: start <= k < limit ==> |es[k].str| > u
  }

  lemma SubTall(es: seq<Entry>, start: nat, limit: nat, u: nat, i: nat, j: nat)
    requires Tall(es, start, limit, u) && start <= i && j <= limit
    ensures Tall(es, i, j, u)
    ensures i < j ==> j <= |es| && |es[i].str| > u && |es[j - 1].str| > u
  {
  }

  /** How many different bytes there are at `u`. */
  ghost function Groups(es: seq<Entry>, start: nat, limit: nat, u: nat): (n: nat)
    requires Tall(es, start, limit, u)
    ensures start < limit ==> n > 0
    decreases limit - start
  {
    if start >= limit then 0
    else if start + 1 == limit then 1
    else Groups(es, start + 1, limit, u) + if es[start].str[u] != es[start + 1].str[u] then 1 else 0
  }

  /** If `i` starts a new byte, the groups on both sides add up. */
  lemma {:induction false} GroupsSplit(es: seq<Entry>, start: nat, i: nat, limit: nat, u: nat)
    requires Tall(es, start, limit, u) && start < i < limit
    requires es[i - 1].str[u] != es[i].str[u]
    ensures Groups(es, start, limit, u) == Groups(es, start, i, u) + Groups(es, i, limit, u)
    decreases i - start
  {
    if start + 1 < i { GroupsSplit(es, start + 1, i, limit, u); }
  }

  lemma {:induction false} OneGroup(es: seq<Entry>, start: nat, limit: nat, u: nat)
    requires start < limit && Tall(es, start, limit, u)
    requires forall k :: start <= k < limit ==> es[k].str[u] == es[start].str[u]
    ensures Groups(es, start, limit, u) == 1
    decreases limit - start
  {
    if start + 1 < limit { OneGroup(es, start + 1, limit, u); }
  }

  lemma {:induction false} GroupsBound(es: seq<Entry>, start: nat, limit: nat, u: nat)
    requires Fan(es, start, limit, u)
    ensures Groups(es, start, limit, u) <= es[limit - 1].str[u] - es[start].str[u] + 1
    ensures Groups(es, start, limit, u) > 1 <==> es[start].str[u] < es[limit - 1].str[u]
    decreases limit - start
  {
    if start + 1 < limit { GroupsBound(es, start + 1, limit, u); }
  }

  /** Among strings with a common prefix, all but the first are longer than it. */
  lemma Longer(a: seq<int>, b: seq<int>, u: nat)
    requires Less(a, b) && u <= |a| && u <= |b| && a[..u] == b[..u]
    ensures |b| > u
    ensures |a| > u ==> a[u] <= b[u]
  {
    var p :| LessAt(a, b, p);
    forall q | 0 <= q < u ensures a[q] == b[q] {
      assert a[q] == a[..u][q] && b[q] == b[..u][q];
    }
    if p > u {
      assert a[u] == a[..p][u] && b[u] == b[..p][u];
    }
  }

  lemma RangeFans(es: seq<Entry>, start: nat, limit: nat, u: nat)
    requires Elements(es) && Range(es, start, limit, u)
    ensures |es[start].str| > u ==> Fan(es, start, limit, u)
    ensures start + 1 < limit ==> Range(es, start + 1, limit, u) && Fan(es, start + 1, limit, u)
  {
    hide Less;
    forall k | start < k < limit ensures |es[k].str| > u {
      assert Less(es[start].str, es[k].str);
      Longer(es[start].str, es[k].str, u);
    }
    forall j, k | start <= j < k < limit && |es[j].str| > u ensures es[j].str[u] <= es[k].str[u] {
      assert Less(es[j].str, es[k].str);
      Longer(es[j].str, es[k].str, u);
    }
  }

  /** Where the byte is the same at both ends, it is the same in between, and belongs to the common prefix. */
  lemma SameByte(es: seq<Entry>, start: nat, limit: nat, u: nat)
    requires Fan(es, start, limit, u) && es[start].str[u] == es[limit - 1].str[u]
    ensures Range(es, start, limit, u + 1)
  {
    forall k | start <= k < limit ensures es[k].str[..u + 1] == es[start].str[..u + 1] {
      assert es[k].str[u] == es[start].str[u];
      assert es[k].str[..u + 1] == es[k].str[..u] + [es[k].str[u]];
      assert es[start].str[..u + 1] == es[start].str[..u] + [es[start].str[u]];
    }
  }

  lemma SubRange(es: seq<Entry>, start: nat, limit: nat, u: nat, i: nat, j: nat)
    requires Range(es, start, limit, u) && start <= i < j <= limit
    ensures Range(es, i, j, u) && es[i].str[..u] == es[start].str[..u]
    ensures Fan(es, start, limit, u) ==> Fan(es, i, j, u)
  {
  }

  /** The common prefix of the first and the last string is common to all. */
  lemma {:induction false} CommonPrefix(es: seq<Entry>, start: nat, limit: nat, u: nat, l: nat)
    requires Elements(es) && Range(es, start, limit, u) && u <= l <= |es[start].str| && l <= |es[limit - 1].str|
    requires es[start].str[..l] == es[limit - 1].str[..l]
    ensures Range(es, start, limit, l)
    decreases l
  {
    if u < l {
      assert es[start].str[..l - 1] == es[start].str[..l][..l - 1];
      assert es[limit - 1].str[..l - 1] == es[limit - 1].str[..l][..l - 1];
      CommonPrefix(es, start, limit, u, l - 1);
      RangeFans(es, start, limit, l - 1);
      assert es[start].str[l - 1] == es[start].str[..l][l - 1] && es[limit - 1].str[l - 1] == es[limit - 1].str[..l][l - 1];
      SameByte(es, start, limit, l - 1);
    }
  }

  // ---------------------------------------------------------------------------------------------
  // Splitting a branch.

  const MAX_SPLIT_BRANCH_LEVELS := 14

  /** How often a branch is split on its way along the greater-or-equal edges, until it is short enough for a list. */
  function SplitLevels(length: nat): nat {
    if length <= MAX_BRANCH_LINEAR_SUB_NODE_LENGTH then 0 else 1 + SplitLevels(length - length / 2)
  }

  function Doubled(n: nat, k: nat): nat { if k == 0 then n else 2 * Doubled(n, k - 1) }

  lemma {:induction false} LevelsFit(length: nat, k: nat)
    requires length <= Doubled(MAX_BRANCH_LINEAR_SUB_NODE_LENGTH, k)
    ensures SplitLevels(length) <= k
  {
    if length > MAX_BRANCH_LINEAR_SUB_NODE_LENGTH {
      LevelsFit(length - length / 2, k - 1);
    }
  }

  /** The tables for the levels are long enough, for branches on bytes and on 16-bit units. */
  lemma SplitLevelsFit(length: nat)
    requires length <= 0x1_0000
    ensures SplitLevels(length) <= MAX_SPLIT_BRANCH_LEVELS
  {
    assert Doubled(MAX_BRANCH_LINEAR_SUB_NODE_LENGTH, 14) == 4 * Doubled(MAX_BRANCH_LINEAR_SUB_NODE_LENGTH, 12);
    assert Doubled(MAX_BRANCH_LINEAR_SUB_NODE_LENGTH, 12) == 16 * Doubled(MAX_BRANCH_LINEAR_SUB_NODE_LENGTH, 8);
    assert Doubled(MAX_BRANCH_LINEAR_SUB_NODE_LENGTH, 8) == 16 * Doubled(MAX_BRANCH_LINEAR_SUB_NODE_LENGTH, 4);
    assert Doubled(MAX_BRANCH_LINEAR_SUB_NODE_LENGTH, 4) == 80;
    LevelsFit(length, MAX_SPLIT_BRANCH_LEVELS);
  }

  // ---------------------------------------------------------------------------------------------
  // Looking through the elements.

  /** The index up to which the first and the last string of a range agree, or where the first one ends. */
  method GetLimitOfLinearMatch(es: seq<Entry>, start: nat, limit: nat, u: nat) returns (l: nat)
    requires Elements(es) && Fan(es, start, limit, u) && es[start].str[u] == es[limit - 1].str[u]
    ensures u < l <= |es[start].str| && Range(es, start, limit, l)
    ensures l < |es[start].str| ==> l < |es[limit - 1].str| && es[start].str[l] != es[limit - 1].str[l]
  {
    hide Elements, Range, Fan;
    SameByte(es, start, limit, u);
    InRange(es, start, limit, u + 1);
    var first, last := es[start].str, es[limit - 1].str;
    l := u + 1;
    while l < |first| && first[l] == last[l]
      invariant u < l <= |first| && Range(es, start, limit, l)
      invariant l < |first| ==> l < |last|
    {
      RangeFans(es, start, limit, l);
      SameByte(es, start, limit, l);
      l := l + 1;
      InRange(es, start, limit, l);
    }
  }

  lemma InRange(es: seq<Entry>, start: nat, limit: nat, u: nat)
    requires Elements(es) && Range(es, start, limit, u)
    ensures start < limit <= |es| && u <= |es[start].str|
    ensures u < |es[start].str| ==> u < |es[limit - 1].str|
  {
    hide Elements;
    RangeFans(es, start, limit, u);
  }

  /** The number of different bytes at `u`. */
  method CountElementUnits(es: seq<Entry>, start: nat, limit: nat, u: nat) returns (length: nat)
    requires start < limit && Tall(es, start, limit, u)
    ensures length == Groups(es, start, limit, u)
  {
    length := 0;
    var i := start;
    while i < limit
      invariant start <= i <= limit
      invariant Groups(es, start, limit, u) == length + Groups(es, i, limit, u)
    {
      var byte := es[i].str[u];
      ghost var from := i;
      i := i + 1;
      while i < limit && byte == es[i].str[u]
        invariant from < i <= limit && forall k :: from <= k < i ==> es[k].str[u] == byte
      {
        i := i + 1;
      }
      OneGroup(es, from, i, u);
      if i < limit { GroupsSplit(es, from, i, limit, u); }
      length := length + 1;
    }
  }

  /** The element after `count` different bytes. There are more than that. */
  method SkipElementsBySomeUnits(es: seq<Entry>, start: nat, ghost limit: nat, u: nat, count: nat) returns (i: nat)
    requires start < limit && Tall(es, start, limit, u)
    requires 0 < count < Groups(es, start, limit, u)
    ensures start < i < limit && es[i - 1].str[u] != es[i].str[u]
    ensures Groups(es, start, i, u) == count
    ensures Groups(es, i, limit, u) == Groups(es, start, limit, u) - count
  {
    i := start;
    var left := count;
    while left > 0
      invariant start <= i < limit && 0 <= left <= count
      invariant i == start || es[i - 1].str[u] != es[i].str[u]
      invariant (i == start) == (left == count)
      invariant Groups(es, i, limit, u) == Groups(es, start, limit, u) - (count - left)
      decreases left
    {
      ghost var from := i;
      i := IndexOfElementWithNextUnit(es, i + 1, limit, u, es[i].str[u]);
      left := left - 1;
    }
    GroupsSplit(es, start, i, limit, u);
  }

  /** The next element with a different byte. There is one. */
  method IndexOfElementWithNextUnit(es: seq<Entry>, from: nat, ghost limit: nat, u: nat, byte: int) returns (i: nat)
    requires 0 < from <= limit && Tall(es, from - 1, limit, u)
    requires es[from - 1].str[u] == byte && Groups(es, from - 1, limit, u) > 1
    ensures from <= i < limit && es[i].str[u] != byte
    ensures forall k :: from - 1 <= k < i ==> es[k].str[u] == byte
    ensures Groups(es, from - 1, i, u) == 1 && Groups(es, i, limit, u) == Groups(es, from - 1, limit, u) - 1
  {
    i := from;
    OneGroup(es, from - 1, i, u);
    while byte == es[i].str[u]
      invariant from <= i < limit
      invariant forall k :: from - 1 <= k < i ==> es[k].str[u] == byte
      decreases limit - i
    {
      if i + 1 == limit { OneGroup(es, from - 1, limit, u); }
      i := i + 1;
    }
    OneGroup(es, from - 1, i, u);
    GroupsSplit(es, from - 1, i, limit, u);
  }
}

module StringTrieBuilder {
  import opened BytesTrieFormat
  import opened BytesTrieWriter
  import opened StringTrieElements

  /** How many bytes are written for a tree. */
  ghost function Size(t: Tree): nat
    decreases t, 0
  {
    match t
    case Final(v) => ValueSize(v)
    case Intermediate(v, next) => ValueSize(v) + Size(next)
    case Linear(str, next) => 1 + |str| + Size(next)
    case Branch(sub) => (if Count(sub) <= MIN_LINEAR_MATCH then 1 else 2) + SubSize(sub)
  }

  /** For edges, with all that they lead to. */
  ghost function SubSize(sub: Sub): nat
    decreases sub, 2
  {
    Nodes(sub) + EdgeSize(sub, 0)
  }

  /** A final value has no node of its own, unless it is at the last edge. */
  ghost function NodeSize(t: Tree): nat
    decreases t, 1
  {
    if t.Final? then 0 else Size(t)
  }

  /** For the nodes that the edges of a list lead to, the last one left out. They come before all edges. */
  ghost function Nodes(sub: Sub): nat
    decreases sub, 1
  {
    match sub
    case Pair(_, target, rest) => NodeSize(target) + Nodes(rest)
    case _ => 0
  }

  /** For the edges, the last node and halves included, `ahead` bytes after the nodes that they lead to. */
  ghost function EdgeSize(sub: Sub, ahead: nat): nat
    decreases sub, 1
  {
    match sub
    case Split(_, less, greaterOrEqual) =>
      SubSize(less) + SubSize(greaterOrEqual) + DeltaSize(SubSize(greaterOrEqual)) + 1
    case Pair(_, target, rest) =>
      var e := EdgeSize(rest, ahead + NodeSize(target));
      e + 1 + ValueSize(if target.Final? then target.value else ahead + e)
    case Last(_, target) => Size(target) + 1
  }

  /** No jump of a split is too long: it passes over all that is written for the edges from the comparison byte on. */
  ghost predicate JumpsShort(t: Tree)
    decreases t
  {
    match t
    case Final(_) => true
    case Intermediate(_, next) => JumpsShort(next)
    case Linear(_, next) => JumpsShort(next)
    case Branch(sub) => SubJumpsShort(sub)
  }

  ghost predicate SubJumpsShort(sub: Sub)
    decreases sub
  {
    match sub
    case Split(_, less, greaterOrEqual) =>
      SubJumpsShort(less) && SubJumpsShort(greaterOrEqual) && SubSize(greaterOrEqual) <= MAX_THREE_BYTE_DELTA
    case Pair(_, target, rest) => JumpsShort(target) && SubJumpsShort(rest)
    case Last(_, target) => JumpsShort(target)
  }

  /** A tree for which not too many bytes are written has no such jump. */
  lemma {:induction false} SmallIsShort(t: Tree)
    requires Size(t) <= MAX_THREE_BYTE_DELTA
    ensures JumpsShort(t)
    decreases t, 0
  {
    match t
    case Final(_) =>
    case Intermediate(_, next) => SmallIsShort(next);
    case Linear(_, next) => SmallIsShort(next);
    case Branch(sub) => SmallEdgesAreShort(sub, 0);
  }

  lemma {:induction false} SmallEdgesAreShort(sub: Sub, ahead: nat)
    requires Nodes(sub) + EdgeSize(sub, ahead) <= MAX_THREE_BYTE_DELTA
    ensures SubJumpsShort(sub)
    decreases sub, 0
  {
    match sub
    case Split(_, less, greaterOrEqual) =>
      SmallEdgesAreShort(less, 0);
      SmallEdgesAreShort(greaterOrEqual, 0);
    case Pair(_, target, rest) =>
      if !target.Final? { SmallIsShort(target); }
      SmallEdgesAreShort(rest, ahead + NodeSize(target));
    case Last(_, target) => SmallIsShort(target);
  }

  /** A tree is laid out at `offset` bytes from the end, provided that no jump in it is too long. */
  ghost predicate At(w: seq<int>, offset: nat, t: Tree) {
    offset <= |w| && (|w| < 0x8000_0000 && JumpsShort(t) ==> Layout(w, |w| - offset, t))
  }

  ghost predicate SubAt(w: seq<int>, offset: nat, s: Sub) {
    offset <= |w| && (|w| < 0x8000_0000 && SubJumpsShort(s) ==> SubLayout(w, |w| - offset, s))
  }

  /** Bytes were written in front of others. */
  ghost predicate Grown(before: seq<int>, w: seq<int>) {
    |before| <= |w| && w[|w| - |before|..] == before
  }

  lemma GrownOn(a: seq<int>, b: seq<int>, c: seq<int>)
    requires Grown(a, b) && Grown(b, c)
    ensures Grown(a, c)
  {
    assert c[|c| - |a|..] == c[|c| - |b|..][|b| - |a|..];
  }

  lemma StaysAt(before: seq<int>, w: seq<int>, offset: nat, t: Tree)
    requires Grown(before, w) && At(before, offset, t)
    ensures At(w, offset, t)
  {
    hide Layout, JumpsShort;
    if |w| < 0x8000_0000 && JumpsShort(t) {
      assert w == w[..|w| - |before|] + before;
      LayoutMoves(w[..|w| - |before|], before, |before| - offset, t);
    }
  }

  lemma SubStaysAt(before: seq<int>, w: seq<int>, offset: nat, s: Sub)
    requires Grown(before, w) && SubAt(before, offset, s)
    ensures SubAt(w, offset, s)
  {
    hide SubLayout, SubJumpsShort;
    if |w| < 0x8000_0000 && SubJumpsShort(s) {
      assert w == w[..|w| - |before|] + before;
      SubLayoutMoves(w[..|w| - |before|], before, |before| - offset, s);
    }
  }

  // ---------------------------------------------------------------------------------------------
  // Nodes in front of what follows them.

  lemma FinalWritten(before: seq<int>, w: seq<int>, n: nat, value: int)
    requires WrittenValue(before, w, n, true) && ValueThere(w, 0) == value
    ensures Grown(before, w) && At(w, |w|, Final(value))
  {
    hide ValueThere, ValueTail;
  }

  lemma IntermediateWritten(before: seq<int>, w: seq<int>, n: nat, value: int, next: Tree)
    requires At(before, |before|, next) && !next.Final? && !next.Intermediate?
    requires WrittenValue(before, w, n, false) && ValueThere(w, 0) == value
    ensures Grown(before, w) && At(w, |w|, Intermediate(value, next))
  {
    hide ValueThere, ValueAt, ValueTail, Layout;
    StaysAt(before, w, |before|, next);
    IntermediateLayout(w, n, value, next);
  }

  lemma IntermediateLayout(w: seq<int>, n: nat, value: int, next: Tree)
    requires ValueAt(w, 0) && AfterValue(w, 0) == n && w[0] % 2 == 0 && ValueThere(w, 0) == value
    requires !next.Final? && !next.Intermediate?
    ensures Layout(w, n, next) ==> Layout(w, 0, Intermediate(value, next))
  {
    hide ValueThere, ValueAt, ValueTail, AfterValue;
  }

  lemma LinearWritten(before: seq<int>, w: seq<int>, str: seq<int>, next: Tree)
    requires At(before, |before|, next) && 1 <= |str| <= MAX_LINEAR_MATCH_LENGTH
    requires w == [MIN_LINEAR_MATCH + |str| - 1] + (str + before)
    ensures Grown(before, w) && At(w, |w|, Linear(str, next))
  {
    assert w[1..1 + |str|] == str;
    assert w[|w| - |before|..] == before;
    StaysAt(before, w, |before|, next);
  }

  lemma BranchWritten(before: seq<int>, w: seq<int>, sub: Sub)
    requires SubAt(before, |before|, sub) && |before| > 0 && 1 < Count(sub) <= 0x100
    requires w == if Count(sub) - 1 < MIN_LINEAR_MATCH then [Count(sub) - 1] + before else [0] + ([Count(sub) - 1] + before)
    ensures Grown(before, w) && At(w, |w|, Branch(sub))
  {
    hide SubLayout;
    assert w[|w| - |before|..] == before;
    SubStaysAt(before, w, |before|, sub);
  }

  /** With its lead byte, a node will be laid out in front of all that was written. */
  ghost predicate Ready(w: seq<int>, lead: int, t: Tree) {
    At([Char(lead)] + w, |w| + 1, t)
  }

  lemma BranchLead(w: seq<int>, sub: Sub, length: nat)
    requires SubAt(w, |w|, sub) && |w| > 0 && 0 < length < 0x100 && Count(sub) == length + 1
    ensures length < MIN_LINEAR_MATCH ==> Ready(w, length, Branch(sub))
    ensures length >= MIN_LINEAR_MATCH ==> Ready([Char(length)] + w, 0, Branch(sub))
  {
    hide SubAt, At, Count;
    if length < MIN_LINEAR_MATCH {
      BranchWritten(w, [length] + w, sub);
    } else {
      BranchWritten(w, [0] + ([length] + w), sub);
    }
  }

  lemma LastWritten(before: seq<int>, w: seq<int>, key: int, target: Tree)
    requires At(before, |before|, target) && w == [key] + before
    ensures Grown(before, w) && SubAt(w, |w|, Last(key, target))
  {
    assert w[|w| - |before|..] == before;
    StaysAt(before, w, |before|, target);
  }

  /** An edge whose target is a final value. */
  lemma FinalPairWritten(before: seq<int>, v: seq<int>, n: nat, w: seq<int>, key: int, value: int, rest: Sub)
    requires SubAt(before, |before|, rest) && Count(rest) < MAX_BRANCH_LINEAR_SUB_NODE_LENGTH && |before| > 0
    requires WrittenValue(before, v, n, true) && ValueThere(v, 0) == value && w == [key] + v
    ensures Grown(before, w) && SubAt(w, |w|, Pair(key, Final(value), rest))
  {
    hide ValueThere, ValueAt, AfterValue, SubLayout;
    assert w[|w| - |before|..] == before;
    SubStaysAt(before, w, |before|, rest);
    FinalWritten(before, v, n, value);
    assert w[|w| - |v|..] == v;
    StaysAt(v, w, |v|, Final(value));
    ValueMoves([key], v, 0);
    PairLayout(w, key, Final(value), rest, 1 + n);
  }

  /** An edge whose target was written before. */
  lemma JumpPairWritten(before: seq<int>, v: seq<int>, n: nat, w: seq<int>, key: int, target: Tree, jump: nat, rest: Sub)
    requires SubAt(before, |before|, rest) && Count(rest) < MAX_BRANCH_LINEAR_SUB_NODE_LENGTH && |before| > 0
    requires At(before, jump, target)
    requires WrittenValue(before, v, n, false) && w == [key] + v
    requires |before| - jump < 0x8000_0000 ==> ValueThere(v, 0) == |before| - jump
    ensures Grown(before, w) && SubAt(w, |w|, Pair(key, target, rest))
  {
    hide ValueThere, ValueAt, AfterValue, SubLayout, Layout;
    assert w[|w| - |before|..] == before;
    SubStaysAt(before, w, |before|, rest);
    StaysAt(before, w, jump, target);
    ValueMoves([key], v, 0);
    PairLayout(w, key, target, rest, 1 + n);
  }

  lemma PairLayout(w: seq<int>, key: int, target: Tree, rest: Sub, n: nat)
    requires |w| > 0 && w[0] == key && ValueAt(w, 1) && AfterValue(w, 1) == n && Count(rest) < MAX_BRANCH_LINEAR_SUB_NODE_LENGTH
    ensures Layout(w, TargetOf(w, 1), target) && SubLayout(w, n, rest) ==> SubLayout(w, 0, Pair(key, target, rest))
  {
    hide ValueThere, ValueAt, AfterValue, TargetOf;
  }

  /** A comparison byte, and a jump to the lesser edges. */
  lemma SplitWritten(before: seq<int>, d: seq<int>, n: nat, w: seq<int>, cmp: int, less: Sub, jump: nat, rest: Sub)
    requires SubAt(before, |before|, rest) && SubAt(before, jump, less) && |before| > 0
    requires Count(less) + Count(rest) > MAX_BRANCH_LINEAR_SUB_NODE_LENGTH && Count(less) == (Count(less) + Count(rest)) / 2
    requires WrittenDelta(before, d, n) && w == [cmp] + d
    requires |before| - jump <= MAX_THREE_BYTE_DELTA ==> JumpByDelta(d, 0) == |d| - jump
    requires |before| - jump == SubSize(rest)
    ensures Grown(before, w) && SubAt(w, |w|, Split(cmp, less, rest))
  {
    hide JumpByDelta, SkipDelta, DeltaTail, SubLayout;
    assert w[|w| - |before|..] == before;
    SubStaysAt(before, w, |before|, rest);
    SubStaysAt(before, w, jump, less);
    DeltaMoves([cmp], d, 0);
    SplitLayout(w, cmp, less, rest);
  }

  lemma SplitLayout(w: seq<int>, cmp: int, less: Sub, rest: Sub)
    requires |w| > 1 && w[0] == cmp && 0 <= w[1] <= 0xff && 2 + DeltaTail(w[1]) <= |w|
    requires Count(less) + Count(rest) > MAX_BRANCH_LINEAR_SUB_NODE_LENGTH && Count(less) == (Count(less) + Count(rest)) / 2
    ensures SubLayout(w, JumpByDelta(w, 1), less) && SubLayout(w, SkipDelta(w, 1), rest) ==>
      SubLayout(w, 0, Split(cmp, less, rest))
  {
    hide JumpByDelta, SkipDelta, DeltaTail;
  }

  lemma {:induction false} OrderedWiden(s: Sub, lo: int, hi: int, lo': int, hi': int)
    requires Ordered(s, lo, hi) && lo' <= lo && hi <= hi'
    ensures Ordered(s, lo', hi')
    decreases s
  {
    match s
    case Split(cmp, less, greaterOrEqual) =>
      OrderedWiden(less, lo, cmp, lo', cmp);
      OrderedWiden(greaterOrEqual, cmp, hi, cmp, hi');
    case Pair(key, _, rest) => OrderedWiden(rest, key + 1, hi, key + 1, hi');
    case Last(_, _) =>
  }

  // ---------------------------------------------------------------------------------------------
  // The edges of a short list.

  /** Where the strings start that go on with each of the `n` different bytes. */
  ghost predicate PartAt(es: seq<Entry>, starts: seq<nat>, limit: nat, u: nat, k: nat) {
    && k < |starts|
    && var end := if k + 1 < |starts| then starts[k + 1] else limit;
    && Range(es, starts[k], end, u + 1)
    && (k + 1 < |starts| ==>
          (starts[k + 1] < limit <= |es| && |es[starts[k + 1]].str| > u
           && es[starts[k]].str[..u] == es[starts[k + 1]].str[..u] && es[starts[k]].str[u] < es[starts[k + 1]].str[u]))
  }

  /** The byte ends a single string. */
  ghost predicate IsFinal(es: seq<Entry>, starts: seq<nat>, u: nat, k: nat) {
    k + 1 < |starts| && starts[k] < |es| && starts[k] + 1 == starts[k + 1] && |es[starts[k]].str| == u + 1
  }

  /** A byte that all strings from the last start up to `i` go on with. */
  lemma NewPart(es: seq<Entry>, starts: seq<nat>, start: nat, limit: nat, u: nat, i: nat)
    requires Fan(es, start, limit, u) && |starts| > 0 && start <= starts[|starts| - 1] < i < limit
    requires es[i].str[u] != es[starts[|starts| - 1]].str[u]
    requires forall k :: starts[|starts| - 1] <= k < i ==> es[k].str[u] == es[starts[|starts| - 1]].str[u]
    ensures
      var n, from := |starts| - 1, starts[|starts| - 1];
      PartAt(es, starts + [i], limit, u, n)
      && (IsFinal(es, starts + [i], u, n) <==> from == i - 1 && u + 1 == |es[from].str|)
  {
    var from := starts[|starts| - 1];
    assert es[from].str[u] <= es[i].str[u];
    SubRange(es, start, limit, u, from, i);
    hide Range;
    SameByte(es, from, i, u);
  }

  /** The parts that are complete, and whether each of them is a single string. */
  ghost predicate Parts(es: seq<Entry>, starts: seq<nat>, isFinal: seq<bool>, limit: nat, u: nat) {
    && |starts| == |isFinal| + 1
    && forall k :: 0 <= k < |isFinal| ==> PartAt(es, starts, limit, u, k) && (isFinal[k] <==> IsFinal(es, starts, u, k))
  }

  lemma PartsExtend(es: seq<Entry>, starts: seq<nat>, isFinal: seq<bool>, start: nat, limit: nat, u: nat, i: nat)
    requires Fan(es, start, limit, u) && Parts(es, starts, isFinal, limit, u) && start <= starts[|starts| - 1] < i < limit
    requires es[i].str[u] != es[starts[|starts| - 1]].str[u]
    requires forall k :: starts[|starts| - 1] <= k < i ==> es[k].str[u] == es[starts[|starts| - 1]].str[u]
    ensures
      var from := starts[|starts| - 1];
      Parts(es, starts + [i], isFinal + [from == i - 1 && u + 1 == |es[from].str|], limit, u)
  {
    NewPart(es, starts, start, limit, u, i);
    hide Range, Fan;
    var from := starts[|starts| - 1];
    var s', f' := starts + [i], isFinal + [from == i - 1 && u + 1 == |es[from].str|];
    forall k | 0 <= k < |f'| ensures PartAt(es, s', limit, u, k) && (f'[k] <==> IsFinal(es, s', u, k)) {
      assert k < |isFinal| ==> PartAt(es, starts, limit, u, k) && (isFinal[k] <==> IsFinal(es, starts, u, k));
    }
  }

  lemma LastPart(es: seq<Entry>, starts: seq<nat>, start: nat, limit: nat, u: nat)
    requires Fan(es, start, limit, u) && |starts| > 0 && start <= starts[|starts| - 1] < limit
    requires Groups(es, starts[|starts| - 1], limit, u) == 1
    ensures PartAt(es, starts, limit, u, |starts| - 1)
  {
    var last := starts[|starts| - 1];
    SubRange(es, start, limit, u, last, limit);
    GroupsBound(es, last, limit, u);
    SameByte(es, last, limit, u);
  }

  lemma NoParts(es: seq<Entry>, start: nat, limit: nat, u: nat)
    ensures Parts(es, [start], [], limit, u)
  {
  }

  lemma PartsCount(es: seq<Entry>, starts: seq<nat>, isFinal: seq<bool>, limit: nat, u: nat)
    requires Parts(es, starts, isFinal, limit, u)
    ensures |starts| == |isFinal| + 1
  {
  }

  lemma PartOf(es: seq<Entry>, starts: seq<nat>, isFinal: seq<bool>, limit: nat, u: nat, k: nat)
    requires Parts(es, starts, isFinal, limit, u) && k < |isFinal|
    ensures starts[k] < starts[k + 1] < limit <= |es| && Range(es, starts[k], starts[k + 1], u + 1)
    ensures |es[starts[k]].str| > u && |es[starts[k + 1]].str| > u && es[starts[k]].str[u] < es[starts[k + 1]].str[u]
    ensures es[starts[k]].str[..u] == es[starts[k + 1]].str[..u]
    ensures isFinal[k] <==> starts[k] + 1 == starts[k + 1] && |es[starts[k]].str| == u + 1
  {
    assert PartAt(es, starts, limit, u, k);
  }

  /** The tree holds the strings of a range, after their common prefix of `u` bytes, in order. */
  ghost predicate Holds(es: seq<Entry>, start: nat, limit: nat, u: nat, t: Tree) {
    && start < limit <= |es| && u <= |es[start].str|
    && Sorted(t) && Entries(t, es[start].str[..u]) == es[start..limit]
  }

  /** The tree for byte `k`: a final value, or a tree that is laid out where the jump target says. */
  ghost predicate Target(es: seq<Entry>, w: seq<int>, starts: seq<nat>, isFinal: seq<bool>, trees: seq<Tree>,
                         jumps: seq<nat>, u: nat, k: nat) {
    && |starts| == |isFinal| + 1 && |isFinal| == |trees| == |jumps| && k < |trees|
    && starts[k] < |es| && (if isFinal[k] then trees[k] == Final(es[starts[k]].value) else At(w, jumps[k], trees[k]))
    && Holds(es, starts[k], starts[k + 1], u + 1, trees[k])
  }

  ghost predicate Targets(es: seq<Entry>, w: seq<int>, starts: seq<nat>, isFinal: seq<bool>, trees: seq<Tree>,
                          jumps: seq<nat>, u: nat, from: nat) {
    && |isFinal| == |trees| == |jumps|
    && forall k :: from <= k < |isFinal| ==> Target(es, w, starts, isFinal, trees, jumps, u, k)
  }

  /** For the nodes of the trees from `k` on. */
  ghost function NodesFrom(trees: seq<Tree>, k: nat): nat
    decreases |trees| - k
  {
    if k >= |trees| then 0 else NodeSize(trees[k]) + NodesFrom(trees, k + 1)
  }

  lemma {:induction false} NodesFromFrame(a: seq<Tree>, b: seq<Tree>, k: nat)
    requires |a| == |b| && forall l :: k <= l < |a| ==> a[l] == b[l]
    ensures NodesFrom(a, k) == NodesFrom(b, k)
    decreases |a| - k
  {
    if k < |a| { NodesFromFrame(a, b, k + 1); }
  }

  /** The nodes are written one after the other from the last one on, after `base` bytes. */
  ghost predicate Spots(isFinal: seq<bool>, trees: seq<Tree>, jumps: seq<nat>, base: nat, from: nat) {
    && |isFinal| == |trees| == |jumps|
    && forall k :: from <= k < |trees| ==>
         (isFinal[k] <==> trees[k].Final?) && (!isFinal[k] ==> jumps[k] == base + NodesFrom(trees, k))
  }

  lemma NewSpot(isFinal: seq<bool>, trees: seq<Tree>, jumps: seq<nat>, base: nat, k: nat, t: Tree, jump: nat)
    requires Spots(isFinal, trees, jumps, base, k + 1) && k < |trees| && (isFinal[k] <==> t.Final?)
    requires !isFinal[k] ==> jump == base + NodesFrom(trees, k + 1) + Size(t)
    ensures NodesFrom(trees[k := t], k) == NodesFrom(trees, k + 1) + NodeSize(t)
    ensures Spots(isFinal, trees[k := t], if isFinal[k] then jumps else jumps[k := jump], base, k)
  {
    hide *;
    SpotsCount(isFinal, trees, jumps, base, k + 1);
    NodeOf(t);
    NodesFromPut(trees, k, t);
    PutSpot(isFinal, trees, jumps, base, k, t, jump);
  }

  lemma SpotsCount(isFinal: seq<bool>, trees: seq<Tree>, jumps: seq<nat>, base: nat, from: nat)
    requires Spots(isFinal, trees, jumps, base, from)
    ensures |isFinal| == |trees| == |jumps|
  {
  }

  lemma NodesFromPut(trees: seq<Tree>, k: nat, t: Tree)
    requires k < |trees|
    ensures NodesFrom(trees[k := t], k) == NodeSize(t) + NodesFrom(trees, k + 1)
    ensures forall l: nat :: k < l <= |trees| ==> NodesFrom(trees[k := t], l) == NodesFrom(trees, l)
  {
    hide NodeSize;
    forall l: nat | k < l <= |trees| ensures NodesFrom(trees[k := t], l) == NodesFrom(trees, l) {
      NodesFromFrame(trees[k := t], trees, l);
    }
  }

  lemma PutSpot(isFinal: seq<bool>, trees: seq<Tree>, jumps: seq<nat>, base: nat, k: nat, t: Tree, jump: nat)
    requires Spots(isFinal, trees, jumps, base, k + 1) && k < |trees| && (isFinal[k] <==> t.Final?)
    requires !isFinal[k] ==> jump == base + NodesFrom(trees[k := t], k)
    requires forall l: nat :: k < l <= |trees| ==> NodesFrom(trees[k := t], l) == NodesFrom(trees, l)
    ensures Spots(isFinal, trees[k := t], if isFinal[k] then jumps else jumps[k := jump], base, k)
  {
    hide NodesFrom;
  }

  lemma NodeOf(t: Tree)
    ensures NodeSize(t) == if t.Final? then 0 else Size(t)
  {
  }

  lemma NoNodes(trees: seq<Tree>)
    ensures NodesFrom(trees, |trees|) == 0
  {
  }

  /** One more edge in front of a list. */
  lemma PairSize(isFinal: seq<bool>, trees: seq<Tree>, jumps: seq<nat>, base: nat, k: nat, key: int, rest: Sub, before: nat)
    requires Spots(isFinal, trees, jumps, base, 0) && k < |trees|
    requires NodesFrom(trees, k + 1) <= NodesFrom(trees, 0) && Nodes(rest) == NodesFrom(trees, k + 1)
    requires before == base + NodesFrom(trees, 0) + EdgeSize(rest, NodesFrom(trees, 0) - NodesFrom(trees, k + 1))
    ensures NodesFrom(trees, k) <= NodesFrom(trees, 0) && (isFinal[k] <==> trees[k].Final?)
    ensures
      var sub := Pair(key, trees[k], rest);
      && Nodes(sub) == NodesFrom(trees, k)
      && base + NodesFrom(trees, 0) + EdgeSize(sub, NodesFrom(trees, 0) - NodesFrom(trees, k))
         == before + 1 + ValueSize(if trees[k].Final? then trees[k].value else before - jumps[k])
  {
    hide ValueSize, NodeSize;
    NodesFromShrinks(trees, 0, k);
    assert NodesFrom(trees, k) == NodeSize(trees[k]) + NodesFrom(trees, k + 1);
  }

  lemma {:induction false} NodesFromShrinks(trees: seq<Tree>, j: nat, k: nat)
    requires j <= k
    ensures NodesFrom(trees, k) <= NodesFrom(trees, j)
    decreases k - j
  {
    if j < k { NodesFromShrinks(trees, j + 1, k); }
  }

  lemma TargetsGrow(es: seq<Entry>, w: seq<int>, w': seq<int>, starts: seq<nat>, isFinal: seq<bool>, trees: seq<Tree>,
                    jumps: seq<nat>, u: nat, from: nat)
    requires Targets(es, w, starts, isFinal, trees, jumps, u, from) && Grown(w, w')
    ensures Targets(es, w', starts, isFinal, trees, jumps, u, from)
  {
    hide At, Grown, Holds;
    forall k | from <= k < |isFinal| ensures Target(es, w', starts, isFinal, trees, jumps, u, k) {
      assert Target(es, w, starts, isFinal, trees, jumps, u, k);
      if !isFinal[k] { StaysAt(w, w', jumps[k], trees[k]); }
    }
  }

  lemma NewTarget(es: seq<Entry>, w: seq<int>, starts: seq<nat>, isFinal: seq<bool>, trees: seq<Tree>,
                  jumps: seq<nat>, u: nat, k: nat, t: Tree, jump: nat)
    requires Targets(es, w, starts, isFinal, trees, jumps, u, k + 1) && k < |isFinal| && !isFinal[k]
    requires |starts| == |isFinal| + 1 && starts[k] < |es|
    requires At(w, jump, t) && Holds(es, starts[k], starts[k + 1], u + 1, t)
    ensures Targets(es, w, starts, isFinal, trees[k := t], jumps[k := jump], u, k)
  {
    hide At, Holds;
    var trees', jumps' := trees[k := t], jumps[k := jump];
    forall l | k <= l < |isFinal| ensures Target(es, w, starts, isFinal, trees', jumps', u, l) {
      assert l > k ==> Target(es, w, starts, isFinal, trees, jumps, u, l);
    }
  }

  lemma FinalTarget(es: seq<Entry>, w: seq<int>, starts: seq<nat>, isFinal: seq<bool>, trees: seq<Tree>,
                    jumps: seq<nat>, limit: nat, u: nat, k: nat)
    requires Targets(es, w, starts, isFinal, trees, jumps, u, k + 1) && k < |isFinal| && isFinal[k]
    requires Parts(es, starts, isFinal, limit, u)
    ensures Targets(es, w, starts, isFinal, trees[k := Final(es[starts[k]].value)], jumps, u, k)
  {
    hide At;
    PartOf(es, starts, isFinal, limit, u, k);
    var t := Final(es[starts[k]].value);
    var str := es[starts[k]].str;
    assert str[..u + 1] == str;
    assert Entries(t, str[..u + 1]) == es[starts[k]..starts[k] + 1];
    var trees' := trees[k := t];
    forall l | k <= l < |isFinal| ensures Target(es, w, starts, isFinal, trees', jumps, u, l) {
      assert l > k ==> Target(es, w, starts, isFinal, trees, jumps, u, l);
    }
  }

  lemma GrownNone(w: seq<int>)
    ensures Grown(w, w)
  {
  }

  /** The edges hold the strings of a range after their common prefix, in order. */
  ghost predicate Edges(es: seq<Entry>, start: nat, limit: nat, u: nat, sub: Sub) {
    && start < limit <= |es| && |es[start].str| > u && |es[limit - 1].str| > u
    && SubEntries(sub, es[start].str[..u]) == es[start..limit]
    && Ordered(sub, es[start].str[u], es[limit - 1].str[u] + 1)
  }

  lemma LastRange(es: seq<Entry>, starts: seq<nat>, limit: nat, u: nat)
    requires |starts| > 0 && PartAt(es, starts, limit, u, |starts| - 1)
    ensures Range(es, starts[|starts| - 1], limit, u + 1)
  {
  }

  lemma KeyIsByte(es: seq<Entry>, k: nat, u: nat)
    requires Elements(es) && k < |es| && u < |es[k].str|
    ensures 0 <= es[k].str[u] <= 0xff && Char(es[k].str[u]) == es[k].str[u]
    ensures -0x8000_0000 <= es[k].value < 0x8000_0000
  {
  }

  lemma AtBound(w: seq<int>, offset: nat, t: Tree)
    requires At(w, offset, t)
    ensures offset <= |w|
  {
  }

  lemma SubAtBound(w: seq<int>, offset: nat, s: Sub)
    requires SubAt(w, offset, s)
    ensures offset <= |w|
  {
  }

  lemma FanIsTall(es: seq<Entry>, start: nat, limit: nat, u: nat)
    requires Fan(es, start, limit, u)
    ensures start < limit && Tall(es, start, limit, u)
  {
  }

  lemma HalvesFan(es: seq<Entry>, start: nat, limit: nat, u: nat, i: nat)
    requires Fan(es, start, limit, u) && start < i < limit && es[i - 1].str[u] != es[i].str[u]
    ensures Fan(es, start, i, u) && Fan(es, i, limit, u)
    ensures es[i].str[..u] == es[start].str[..u] && es[i - 1].str[u] < es[i].str[u]
    ensures limit <= |es| && |es[i].str| > u && |es[start].str| > u
  {
    SubRange(es, start, limit, u, start, i);
    SubRange(es, start, limit, u, i, limit);
  }

  lemma PairEdges(es: seq<Entry>, start: nat, i: nat, limit: nat, u: nat, key: int, t: Tree, rest: Sub)
    requires start < i < limit <= |es| && |es[start].str| > u && |es[i].str| > u && key == es[start].str[u] < es[i].str[u]
    requires es[start].str[..u] == es[i].str[..u] && Edges(es, i, limit, u, rest)
    requires Holds(es, start, i, u + 1, t)
    ensures Edges(es, start, limit, u, Pair(key, t, rest))
  {
    hide Sorted, Entries;
    var str := es[start].str;
    assert str[..u + 1] == str[..u] + [key];
    assert es[start..i] + es[i..limit] == es[start..limit];
    OrderedWiden(rest, es[i].str[u], es[limit - 1].str[u] + 1, key + 1, es[limit - 1].str[u] + 1);
    Nondescending(rest, es[i].str[u], es[limit - 1].str[u] + 1);
  }

  lemma {:induction false} Nondescending(s: Sub, lo: int, hi: int)
    requires Ordered(s, lo, hi)
    ensures lo <= hi
    decreases s
  {
    match s
    case Split(_, _, _) =>
    case Pair(key, _, rest) => Nondescending(rest, key + 1, hi);
    case Last(_, _) =>
  }

  lemma SplitEdges(es: seq<Entry>, start: nat, i: nat, limit: nat, u: nat, less: Sub, rest: Sub)
    requires start < i < limit <= |es| && |es[i].str| > u && |es[start].str| > u && es[i].str[..u] == es[start].str[..u]
    requires Edges(es, start, i, u, less) && Edges(es, i, limit, u, rest) && es[i - 1].str[u] < es[i].str[u]
    ensures Edges(es, start, limit, u, Split(es[i].str[u], less, rest))
  {
    var lo, cmp, hi := es[start].str[u], es[i].str[u], es[limit - 1].str[u] + 1;
    assert es[start..i] + es[i..limit] == es[start..limit];
    OrderedWiden(less, lo, es[i - 1].str[u] + 1, lo, cmp);
    Nondescending(less, lo, cmp);
    Nondescending(rest, cmp, hi);
  }

  lemma GrownByOne(before: seq<int>, w: seq<int>)
    requires |w| == |before| + 1 && w == [w[0]] + before
    ensures Grown(before, w)
  {
  }

  lemma GrownByMore(w0: seq<int>, before: seq<int>, w: seq<int>, more: seq<int>)
    requires Grown(w0, before) && w == more + before
    ensures Grown(w0, w)
  {
    assert w[|w| - |before|..] == before;
    GrownOn(w0, before, w);
  }

  lemma ValueInRange(es: seq<Entry>, start: nat)
    requires Elements(es) && start < |es|
    ensures -0x8000_0000 <= es[start].value < 0x8000_0000 && |es[start].str| <= 0xffff && Bytes(es[start].str)
  {
  }

  lemma FinalNode(es: seq<Entry>, start: nat, u: nat)
    requires start < |es| && u == |es[start].str|
    ensures Holds(es, start, start + 1, u, Final(es[start].value))
  {
    assert es[start].str[..u] == es[start].str;
  }

  lemma FanShape(es: seq<Entry>, start: nat, limit: nat, u: nat)
    requires Fan(es, start, limit, u)
    ensures start < limit <= |es| && |es[start].str| > u && |es[limit - 1].str| > u
  {
  }

  lemma IntermediateNode(es: seq<Entry>, start: nat, limit: nat, u: nat, t: Tree)
    requires Range(es, start, limit, u) && start + 1 < limit && u == |es[start].str|
    requires !t.Final? && !t.Intermediate? && Holds(es, start + 1, limit, u, t)
    ensures Holds(es, start, limit, u, Intermediate(es[start].value, t))
  {
    assert es[start].str[..u] == es[start].str;
    assert es[start + 1].str[..u] == es[start].str[..u];
    assert es[start..limit] == [es[start]] + es[start + 1..limit];
  }

  /** A linear-match node for bytes `i` to `j`, in front of what follows them. */
  lemma LinearHolds(es: seq<Entry>, start: nat, limit: nat, i: nat, j: nat, t: Tree)
    requires Holds(es, start, limit, j, t) && i < j
    ensures Holds(es, start, limit, i, Linear(es[start].str[i..j], t))
  {
    var str := es[start].str;
    assert str[..i] + str[i..j] == str[..j];
  }

  lemma BranchFacts(es: seq<Entry>, start: nat, limit: nat, u: nat)
    requires Elements(es) && Fan(es, start, limit, u) && es[start].str[u] != es[limit - 1].str[u]
    ensures start < limit && Tall(es, start, limit, u) && 1 < Groups(es, start, limit, u) <= 0x100 && u <= 0xffff
  {
    GroupsBound(es, start, limit, u);
    KeyIsByte(es, start, u);
    KeyIsByte(es, limit - 1, u);
    ValueInRange(es, start);
  }

  lemma BranchHolds(es: seq<Entry>, start: nat, limit: nat, u: nat, sub: Sub)
    requires Elements(es) && Edges(es, start, limit, u, sub)
    ensures Holds(es, start, limit, u, Branch(sub))
  {
    KeyIsByte(es, start, u);
    KeyIsByte(es, limit - 1, u);
    OrderedWiden(sub, es[start].str[u], es[limit - 1].str[u] + 1, 0, 0x100);
  }

  lemma LastEdges(es: seq<Entry>, start: nat, limit: nat, u: nat, t: Tree)
    requires Range(es, start, limit, u + 1) && Holds(es, start, limit, u + 1, t)
    ensures Edges(es, start, limit, u, Last(es[start].str[u], t))
  {
    var str, str' := es[start].str, es[limit - 1].str;
    assert str[..u + 1] == str[..u] + [str[u]];
    assert str[..u + 1] == str'[..u + 1];
    assert str[u] == str[..u + 1][u] && str'[u] == str'[..u + 1][u];
  }

  lemma ChunkWritten(before: seq<int>, str: seq<int>, i: nat, j: nat, t: Tree, w: seq<int>)
    requires At(before, |before|, t) && i < j <= |str| && j - i <= MAX_LINEAR_MATCH_LENGTH && w == str[i..j] + before
    ensures Grown(before, w)
    ensures Ready(w, MIN_LINEAR_MATCH + (j - i) - 1, Linear(str[i..j], t))
  {
    hide At, Grown;
    LinearWritten(before, [MIN_LINEAR_MATCH + (j - i) - 1] + w, str[i..j], t);
    GrownNone(before);
    GrownByMore(before, before, w, str[i..j]);
  }

  /** Strings in order of which no two neighbours are equal are all different. */
  lemma NoneEqual(es: seq<Entry>)
    requires SortedStrings(es) && forall k :: 1 <= k < |es| ==> es[k - 1].str != es[k].str
    ensures Ascending(es)
    ensures forall i, j :: 0 <= i < j < |es| ==> es[i].str != es[j].str
  {
    hide Less;
    forall i, j | 0 <= i < j < |es| ensures Less(es[i].str, es[j].str) && es[i].str != es[j].str {
      assert es[i].str == es[i + 1].str || Less(es[i].str, es[i + 1].str);
      assert i + 1 < j ==> es[i + 1].str == es[j].str || Less(es[i + 1].str, es[j].str);
      assert es[i].str == es[j].str || Less(es[i].str, es[j].str);
      if es[i].str == es[j].str {
        LessIsStrict(es[i].str, es[i + 1].str);
      }
    }
  }

  class Builder {
    const elements: seq<Entry>
    const out: Buffer

    constructor (elements: seq<Entry>, out: Buffer)
      ensures this.elements == elements && this.out == out
    {
      this.elements := elements;
      this.out := out;
    }

    /** For each byte but the last, where its strings start, and whether it ends a single string. */
    method FindUnits(start: nat, limit: nat, u: nat, length: nat) returns (starts: seq<nat>, isFinal: seq<bool>)
      requires Elements(elements) && Fan(elements, start, limit, u) && length == Groups(elements, start, limit, u) > 1
      ensures |starts| == length && starts[0] == start && Parts(elements, starts, isFinal, limit, u)
      ensures PartAt(elements, starts, limit, u, length - 1)
    {
      assert start < limit && Tall(elements, start, limit, u);
      hide Elements, Range, Fan, PartAt, Parts, Groups, Tall;
      starts, isFinal := [start], [];
      var unitNumber := 0;
      NoParts(elements, start, limit, u);
      while unitNumber < length - 1
        invariant 0 <= unitNumber <= length - 1 && |starts| == unitNumber + 1 && starts[0] == start
        invariant start <= starts[unitNumber] < limit && Tall(elements, starts[unitNumber], limit, u)
        invariant Groups(elements, starts[unitNumber], limit, u) == length - unitNumber
        invariant Parts(elements, starts, isFinal, limit, u)
      {
        var i, final := NextUnit(start, limit, u, starts, isFinal);
        isFinal := isFinal + [final];
        starts := starts + [i];
        unitNumber := unitNumber + 1;
      }
      LastPart(elements, starts, start, limit, u);
    }

    /** The start of the strings for the next byte, and whether the byte before it ends a single string. */
    method NextUnit(ghost start: nat, limit: nat, u: nat, starts: seq<nat>, ghost isFinal: seq<bool>)
      returns (i: nat, final: bool)
      requires Fan(elements, start, limit, u) && Parts(elements, starts, isFinal, limit, u) && |starts| > 0
      requires start <= starts[|starts| - 1] < limit && Tall(elements, starts[|starts| - 1], limit, u)
      requires Groups(elements, starts[|starts| - 1], limit, u) > 1
      ensures starts[|starts| - 1] < i < limit && Tall(elements, i, limit, u)
      ensures Groups(elements, i, limit, u) == Groups(elements, starts[|starts| - 1], limit, u) - 1
      ensures Parts(elements, starts + [i], isFinal + [final], limit, u)
    {
      var from := starts[|starts| - 1];
      SubTall(elements, from, limit, u, from, limit);
      hide Elements, Range, Fan, PartAt, Parts, Groups, Tall;
      i := IndexOfElementWithNextUnit(elements, from + 1, limit, u, elements[from].str[u]);
      SubTall(elements, from, limit, u, i, limit);
      PartsExtend(elements, starts, isFinal, start, limit, u, i);
      final := from == i - 1 && u + 1 == |elements[from].str|;
    }

    /** The nodes of all bytes but the last that do not just end a string, the last of them first. */
    method WriteTargets(starts: seq<nat>, isFinal: seq<bool>, limit: nat, u: nat)
      returns (jumpTargets: seq<nat>, ghost trees: seq<Tree>)
      requires out.Valid() && Elements(elements) && Parts(elements, starts, isFinal, limit, u) && u <= 0xffff
      modifies out, out.bytes
      ensures out.Valid() && (out.bytes == old(out.bytes) || fresh(out.bytes))
      ensures Grown(old(out.Written()), out.Written())
      ensures Targets(elements, out.Written(), starts, isFinal, trees, jumpTargets, u, 0)
      ensures |trees| == |isFinal| == |jumpTargets| && Spots(isFinal, trees, jumpTargets, old(out.bytesLength), 0)
      ensures out.bytesLength == old(out.bytesLength) + NodesFrom(trees, 0)
      decreases 0x1_0000 - u, 0, 0
    {
      hide Buffer.Written, Buffer.Valid, Elements, Parts, At, Grown, Target, Holds, Range, Size, NodeSize, NodesFrom;
      PartsCount(elements, starts, isFinal, limit, u);
      jumpTargets, trees := seq(|isFinal|, _ => 0), seq(|isFinal|, _ => Final(0));
      var unitNumber := |isFinal|;
      ghost var before := out.Written();
      GrownNone(before);
      NoNodes(trees);
      while unitNumber > 0
        invariant 0 <= unitNumber <= |isFinal| == |trees| == |jumpTargets|
        invariant Spots(isFinal, trees, jumpTargets, old(out.bytesLength), unitNumber)
        invariant out.bytesLength == old(out.bytesLength) + NodesFrom(trees, unitNumber)
        invariant out.Valid() && (out.bytes == old(out.bytes) || fresh(out.bytes))
        invariant Grown(before, out.Written())
        invariant Targets(elements, out.Written(), starts, isFinal, trees, jumpTargets, u, unitNumber)
      {
        unitNumber := unitNumber - 1;
        PartOf(elements, starts, isFinal, limit, u, unitNumber);
        if !isFinal[unitNumber] {
          ghost var w := out.Written();
          var offset, t := WriteNode(starts[unitNumber], starts[unitNumber + 1], u + 1);
          GrownOn(before, w, out.Written());
          TargetsGrow(elements, w, out.Written(), starts, isFinal, trees, jumpTargets, u, unitNumber + 1);
          NewTarget(elements, out.Written(), starts, isFinal, trees, jumpTargets, u, unitNumber, t, offset);
          NewSpot(isFinal, trees, jumpTargets, old(out.bytesLength), unitNumber, t, offset);
          NodeOf(t);
          jumpTargets := jumpTargets[unitNumber := offset];
          trees := trees[unitNumber := t];
        } else {
          ghost var t := Final(elements[starts[unitNumber]].value);
          FinalTarget(elements, out.Written(), starts, isFinal, trees, jumpTargets, limit, u, unitNumber);
          NewSpot(isFinal, trees, jumpTargets, old(out.bytesLength), unitNumber, t, 0);
          NodeOf(t);
          trees := trees[unitNumber := t];
        }
      }
    }

    /** The edges of a list, after the node of the last byte. */
    method WriteBranchList(start: nat, limit: nat, u: nat, length: nat) returns (offset: nat, ghost sub: Sub)
      requires out.Valid() && Elements(elements) && Fan(elements, start, limit, u) && u <= 0xffff
      requires length == Groups(elements, start, limit, u) && 1 < length <= MAX_BRANCH_LINEAR_SUB_NODE_LENGTH
      modifies out, out.bytes
      ensures out.Valid() && (out.bytes == old(out.bytes) || fresh(out.bytes)) && offset == out.bytesLength
      ensures Grown(old(out.Written()), out.Written()) && offset > 0 && SubAt(out.Written(), offset, sub)
      ensures Edges(elements, start, limit, u, sub) && Count(sub) == length
      ensures out.bytesLength == old(out.bytesLength) + SubSize(sub)
      decreases 0x1_0000 - u, 0, 1
    {
      hide Buffer.Written, Buffer.Valid, Elements, Parts, Layout, At, SubAt, Grown, Targets, Holds, Range, Fan, PartAt, Groups, Edges, Tall,
        Size, NodeSize, NodesFrom, Spots, SubSize, EdgeSize, Nodes, ValueSize;
      ghost var w0 := out.Written();
      var starts, isFinal := FindUnits(start, limit, u, length);
      PartsCount(elements, starts, isFinal, limit, u);
      var jumpTargets, trees := WriteTargets(starts, isFinal, limit, u);
      ghost var w1 := out.Written();
      var last := starts[length - 1];
      LastRange(elements, starts, limit, u);
      offset, sub := WriteLast(last, limit, u);
      LastSize(sub, trees);
      GrownOn(w0, w1, out.Written());
      TargetsGrow(elements, w1, out.Written(), starts, isFinal, trees, jumpTargets, u, 0);
      var unitNumber := length - 1;
      while unitNumber > 0
        invariant 0 <= unitNumber <= length - 1
        invariant out.Valid() && (out.bytes == old(out.bytes) || fresh(out.bytes)) && offset == out.bytesLength > 0
        invariant Grown(w0, out.Written()) && SubAt(out.Written(), offset, sub)
        invariant Edges(elements, starts[unitNumber], limit, u, sub) && Count(sub) == length - unitNumber
        invariant Targets(elements, out.Written(), starts, isFinal, trees, jumpTargets, u, 0)
        invariant NodesFrom(trees, unitNumber) <= NodesFrom(trees, 0) && Nodes(sub) == NodesFrom(trees, unitNumber)
        invariant out.bytesLength == old(out.bytesLength) + NodesFrom(trees, 0)
                    + EdgeSize(sub, NodesFrom(trees, 0) - NodesFrom(trees, unitNumber))
      {
        unitNumber := unitNumber - 1;
        ghost var w := out.Written();
        ghost var rest, n := sub, out.bytesLength;
        offset, sub := WritePair(starts, isFinal, jumpTargets, limit, u, unitNumber, offset, sub, trees);
        PairSize(isFinal, trees, jumpTargets, old(out.bytesLength), unitNumber, sub.key, rest, n);
        GrownOn(w0, w, out.Written());
        TargetsGrow(elements, w, out.Written(), starts, isFinal, trees, jumpTargets, u, 0);
      }
      ListSize(sub);
    }

    /** The node of the last byte, and the byte. */
    method WriteLast(start: nat, limit: nat, u: nat) returns (offset: nat, ghost sub: Sub)
      requires out.Valid() && Elements(elements) && Range(elements, start, limit, u + 1) && u <= 0xffff
      modifies out, out.bytes
      ensures out.Valid() && (out.bytes == old(out.bytes) || fresh(out.bytes)) && offset == out.bytesLength
      ensures Grown(old(out.Written()), out.Written()) && offset > 0 && SubAt(out.Written(), offset, sub)
      ensures Edges(elements, start, limit, u, sub) && Count(sub) == 1
      ensures sub.Last? && out.bytesLength == old(out.bytesLength) + Size(sub.target) + 1
      decreases 0x1_0000 - u, 0, 0
    {
      hide Buffer.Written, Buffer.Valid, At, SubAt, Grown, Holds, Edges, Elements, Range;
      ghost var w0 := out.Written();
      var o, t := WriteNode(start, limit, u + 1);
      ghost var w := out.Written();
      InRange(elements, start, limit, u + 1);
      var key := elements[start].str[u];
      KeyIsByte(elements, start, u);
      offset := out.WriteByte(key);
      sub := Last(key, t);
      LastWritten(w, out.Written(), key, t);
      GrownOn(w0, w, out.Written());
      LastEdges(elements, start, limit, u, t);
    }

    /** One edge in front of the others: a byte with its final value, or with the way to its node. */
    method WritePair(starts: seq<nat>, isFinal: seq<bool>, jumpTargets: seq<nat>, limit: nat, u: nat, unitNumber: nat,
                     offset0: nat, ghost rest: Sub, ghost trees: seq<Tree>) returns (offset: nat, ghost sub: Sub)
      requires out.Valid() && Elements(elements) && Parts(elements, starts, isFinal, limit, u)
      requires unitNumber < |isFinal| && Targets(elements, out.Written(), starts, isFinal, trees, jumpTargets, u, 0)
      requires offset0 == out.bytesLength > 0 && SubAt(out.Written(), offset0, rest)
      requires |starts| == |isFinal| + 1 && Edges(elements, starts[unitNumber + 1], limit, u, rest)
      requires Count(rest) < MAX_BRANCH_LINEAR_SUB_NODE_LENGTH
      modifies out, out.bytes
      ensures out.Valid() && (out.bytes == old(out.bytes) || fresh(out.bytes)) && offset == out.bytesLength > 0
      ensures Grown(old(out.Written()), out.Written()) && SubAt(out.Written(), offset, sub)
      ensures Edges(elements, starts[unitNumber], limit, u, sub) && Count(sub) == Count(rest) + 1
      ensures starts[unitNumber] < |elements| && u < |elements[starts[unitNumber]].str|
      ensures sub == Pair(elements[starts[unitNumber]].str[u], trees[unitNumber], rest)
      ensures isFinal[unitNumber] ==>
        trees[unitNumber].Final? && out.bytesLength == old(out.bytesLength) + 1 + ValueSize(trees[unitNumber].value)
      ensures !isFinal[unitNumber] ==>
        out.bytesLength == old(out.bytesLength) + 1 + ValueSize(old(out.bytesLength) - jumpTargets[unitNumber])
    {
      hide Buffer.Written, Buffer.Valid, At, SubAt, Grown, Holds, Edges, WrittenValue, ValueThere;
      ghost var w := out.Written();
      PartOf(elements, starts, isFinal, limit, u, unitNumber);
      assert Target(elements, w, starts, isFinal, trees, jumpTargets, u, unitNumber);
      var start := starts[unitNumber];
      var key := elements[start].str[u];
      KeyIsByte(elements, start, u);
      ghost var t := trees[unitNumber];
      sub := Pair(key, t, rest);
      PairEdges(elements, start, starts[unitNumber + 1], limit, u, key, t, rest);
      if isFinal[unitNumber] {
        var value := elements[start].value;
        var o := out.WriteValueAndFinal(value, true);
        ghost var v := out.Written();
        offset := out.WriteByte(key);
        FinalPairWritten(w, v, |v| - |w|, out.Written(), key, value, rest);
      } else {
        var value := offset0 - jumpTargets[unitNumber];
        AtBound(w, jumpTargets[unitNumber], t);
        var o := out.WriteValueAndFinal(value, false);
        ghost var v := out.Written();
        offset := out.WriteByte(key);
        JumpPairWritten(w, v, |v| - |w|, out.Written(), key, t, jumpTargets[unitNumber], rest);
      }
    }

    /** The edges for all bytes at `u`: as a list, or as two halves with a comparison byte in front. */
    method WriteBranchSubNode(start: nat, limit: nat, u: nat, length: nat) returns (offset: nat, ghost sub: Sub)
      requires out.Valid() && Elements(elements) && Fan(elements, start, limit, u) && u <= 0xffff
      requires length == Groups(elements, start, limit, u) > 1
      modifies out, out.bytes
      ensures out.Valid() && (out.bytes == old(out.bytes) || fresh(out.bytes)) && offset == out.bytesLength
      ensures Grown(old(out.Written()), out.Written()) && offset > 0 && SubAt(out.Written(), offset, sub)
      ensures Edges(elements, start, limit, u, sub) && Count(sub) == length
      ensures out.bytesLength == old(out.bytesLength) + SubSize(sub)
      decreases 0x1_0000 - u, 1, length
    {
      hide Buffer.Written, Buffer.Valid, Elements, Layout, SubAt, Grown, Range, Fan, Groups, Edges, Tall, WrittenDelta, JumpByDelta,
        LongDelta, SubSize, DeltaSize;
      if length > MAX_BRANCH_LINEAR_SUB_NODE_LENGTH {
        assert start < limit && Tall(elements, start, limit, u) by { FanIsTall(elements, start, limit, u); }
        var i := SkipElementsBySomeUnits(elements, start, limit, u, length / 2);
        HalvesFan(elements, start, limit, u, i);
        var middleUnit := elements[i].str[u];
        KeyIsByte(elements, i, u);
        ghost var w0 := out.Written();
        var lessThan, less := WriteBranchSubNode(start, i, u, length / 2);
        ghost var w1 := out.Written();
        var o, rest := WriteBranchSubNode(i, limit, u, length - length / 2);
        ghost var w2 := out.Written();
        SubStaysAt(w1, w2, lessThan, less);
        SubAtBound(w2, lessThan, less);
        o := out.WriteDeltaTo(lessThan);
        ghost var d := out.Written();
        offset := out.WriteByte(middleUnit);
        sub := Split(middleUnit, less, rest);
        SplitSize(sub);
        SplitWritten(w2, d, |d| - |w2|, out.Written(), middleUnit, less, lessThan, rest);
        GrownOn(w0, w1, w2);
        GrownOn(w0, w2, out.Written());
        SplitEdges(elements, start, i, limit, u, less, rest);
      } else {
        offset, sub := WriteBranchList(start, limit, u, length);
      }
    }

    /** The lead byte of a node, and the value in front of it if there is one. */
    method WriteValueAndType(hasValue: bool, value: int, node: int, ghost t: Tree) returns (offset: nat)
      requires out.Valid() && Ready(out.Written(), node, t)
      requires !t.Final? && !t.Intermediate? && -0x8000_0000 <= value < 0x8000_0000
      modifies out, out.bytes
      ensures out.Valid() && (out.bytes == old(out.bytes) || fresh(out.bytes)) && offset == out.bytesLength
      ensures Grown(old(out.Written()), out.Written())
      ensures At(out.Written(), offset, if hasValue then Intermediate(value, t) else t)
      ensures out.bytesLength == old(out.bytesLength) + 1 + if hasValue then ValueSize(value) else 0
    {
      hide At, Grown, WrittenValue, ValueThere, ValueSize;
      ghost var w0 := out.Written();
      offset := out.WriteByte(node);
      ghost var w := out.Written();
      GrownByOne(w0, w);
      if hasValue {
        offset := out.WriteValueAndFinal(value, false);
        IntermediateWritten(w, out.Written(), |out.Written()| - |w|, value, t);
        GrownOn(w0, w, out.Written());
      }
    }

    /** A range of strings with a common prefix of `u` bytes: their values, and what follows the prefix. */
    method WriteNode(start0: nat, limit: nat, u: nat) returns (offset: nat, ghost t: Tree)
      requires out.Valid() && Elements(elements) && Range(elements, start0, limit, u)
      modifies out, out.bytes
      ensures out.Valid() && (out.bytes == old(out.bytes) || fresh(out.bytes)) && offset == out.bytesLength
      ensures Grown(old(out.Written()), out.Written()) && At(out.Written(), offset, t)
      ensures Holds(elements, start0, limit, u, t)
      ensures out.bytesLength == old(out.bytesLength) + Size(t)
      ensures t.Final? <==> start0 + 1 == limit && u == |elements[start0].str|
      decreases 0x1_0000 - u, 3, 0
    {
      InRange(elements, start0, limit, u);
      RangeFans(elements, start0, limit, u);
      ValueInRange(elements, start0);
      hide Buffer.Written, Buffer.Valid, Elements, At, Grown, WrittenValue, ValueThere, Range, Fan, Holds, Ready, Bytes, ValueSize;
      ghost var w0 := out.Written();
      var start, hasValue, value := start0, false, 0;
      if u == |elements[start].str| {
        value := elements[start].value;
        start := start + 1;
        if start == limit {
          offset := out.WriteValueAndFinal(value, true);
          t := Final(value);
          FinalWritten(w0, out.Written(), |out.Written()| - |w0|, value);
          FinalNode(elements, start0, u);
          return;
        }
        hasValue := true;
      }
      var type_;
      FanShape(elements, start, limit, u);
      if elements[start].str[u] == elements[limit - 1].str[u] {
        type_, t := WriteLinear(start, limit, u);
      } else {
        type_, t := WriteBranch(start, limit, u);
      }
      ghost var w := out.Written();
      offset := WriteValueAndType(hasValue, value, type_, t);
      GrownOn(w0, w, out.Written());
      if hasValue {
        IntermediateNode(elements, start0, limit, u, t);
        t := Intermediate(value, t);
      }
    }

    /** The bytes that all strings of a range have in common after `u`, in linear-match nodes. The first lead byte is left. */
    method WriteLinear(start: nat, limit: nat, u: nat) returns (type_: int, ghost t: Tree)
      requires out.Valid() && Elements(elements) && Fan(elements, start, limit, u)
      requires elements[start].str[u] == elements[limit - 1].str[u]
      modifies out, out.bytes
      ensures out.Valid() && (out.bytes == old(out.bytes) || fresh(out.bytes))
      ensures Grown(old(out.Written()), out.Written())
      ensures t.Linear? && Ready(out.Written(), type_, t) && Holds(elements, start, limit, u, t)
      ensures out.bytesLength + 1 == old(out.bytesLength) + Size(t)
      decreases 0x1_0000 - u, 2, 0
    {
      hide *;
      FanShape(elements, start, limit, u);
      ValueInRange(elements, start);
      ghost var w0 := out.Written();
      var lastUnitIndex := GetLimitOfLinearMatch(elements, start, limit, u);
      InRange(elements, start, limit, lastUnitIndex);
      var o;
      o, t := WriteNode(start, limit, lastUnitIndex);
      ghost var w1 := out.Written();
      type_, t := WriteUnits(start, limit, u, lastUnitIndex, t);
      GrownOn(w0, w1, out.Written());
    }

    /** Bytes `u` to `last` of a string, in as many linear-match nodes as are needed. */
    method WriteUnits(start: nat, ghost limit: nat, u: nat, last: nat, ghost t0: Tree) returns (type_: int, ghost t: Tree)
      requires out.Valid() && Elements(elements) && start < |elements| && u < last <= |elements[start].str|
      requires At(out.Written(), out.bytesLength, t0) && Holds(elements, start, limit, last, t0)
      modifies out, out.bytes
      ensures out.Valid() && (out.bytes == old(out.bytes) || fresh(out.bytes))
      ensures Grown(old(out.Written()), out.Written())
      ensures t.Linear? && Ready(out.Written(), type_, t) && Holds(elements, start, limit, u, t)
      ensures out.bytesLength + 1 + Size(t0) == old(out.bytesLength) + Size(t)
    {
      hide Buffer.Written, Buffer.Valid, Elements, At, Grown, Holds, Ready, Bytes, Size;
      ghost var w0 := out.Written();
      var lastUnitIndex, length := last, last - u;
      t := t0;
      GrownNone(w0);
      // No more than 16 bytes fit into one node.
      while length > MAX_LINEAR_MATCH_LENGTH
        invariant 0 < length == lastUnitIndex - u && lastUnitIndex <= last
        invariant out.Valid() && (out.bytes == old(out.bytes) || fresh(out.bytes))
        invariant Grown(w0, out.Written()) && At(out.Written(), out.bytesLength, t)
        invariant Holds(elements, start, limit, lastUnitIndex, t)
        invariant out.bytesLength + Size(t0) == old(out.bytesLength) + Size(t)
      {
        ghost var w := out.Written();
        t := WriteFullChunk(start, limit, lastUnitIndex - MAX_LINEAR_MATCH_LENGTH, t);
        GrownOn(w0, w, out.Written());
        lastUnitIndex := lastUnitIndex - MAX_LINEAR_MATCH_LENGTH;
        length := length - MAX_LINEAR_MATCH_LENGTH;
      }
      ghost var w := out.Written();
      t := WriteElementUnits(start, limit, u, lastUnitIndex, t);
      GrownOn(w0, w, out.Written());
      type_ := MIN_LINEAR_MATCH + length - 1;
    }

    method WriteFullChunk(start: nat, ghost limit: nat, i: nat, ghost t: Tree) returns (ghost n: Tree)
      requires out.Valid() && Elements(elements) && start < |elements| && i + MAX_LINEAR_MATCH_LENGTH <= |elements[start].str|
      requires At(out.Written(), out.bytesLength, t) && Holds(elements, start, limit, i + MAX_LINEAR_MATCH_LENGTH, t)
      modifies out, out.bytes
      ensures out.Valid() && (out.bytes == old(out.bytes) || fresh(out.bytes))
      ensures Grown(old(out.Written()), out.Written()) && At(out.Written(), out.bytesLength, n)
      ensures Holds(elements, start, limit, i, n)
      ensures out.bytesLength + Size(t) == old(out.bytesLength) + Size(n)
    {
      hide Elements, At, Grown, Holds, Char, Size;
      ghost var w := out.Written();
      n := WriteElementUnits(start, limit, i, i + MAX_LINEAR_MATCH_LENGTH, t);
      ghost var v := out.Written();
      var o := out.WriteByte(MIN_LINEAR_MATCH + MAX_LINEAR_MATCH_LENGTH - 1);
      GrownByOne(v, out.Written());
      GrownOn(w, v, out.Written());
    }

    /** Bytes `i` to `j` of a string, for a linear-match node. */
    method WriteElementUnits(start: nat, ghost limit: nat, i: nat, j: nat, ghost t: Tree) returns (ghost n: Tree)
      requires out.Valid() && Elements(elements) && start < |elements| && i < j <= |elements[start].str|
      requires At(out.Written(), out.bytesLength, t) && j - i <= MAX_LINEAR_MATCH_LENGTH
      requires Holds(elements, start, limit, j, t)
      modifies out, out.bytes
      ensures out.Valid() && (out.bytes == old(out.bytes) || fresh(out.bytes))
      ensures Grown(old(out.Written()), out.Written())
      ensures n.Linear? && Ready(out.Written(), MIN_LINEAR_MATCH + (j - i) - 1, n) && Holds(elements, start, limit, i, n)
      ensures out.bytesLength + 1 + Size(t) == old(out.bytesLength) + Size(n)
    {
      ValueInRange(elements, start);
      hide Buffer.Written, Buffer.Valid, Elements, At, Grown, Holds, Ready, Bytes;
      ghost var w := out.Written();
      ghost var str := elements[start].str;
      SliceBytes(str, i, j);
      var o := out.Write(elements[start].str[i..j]);
      n := Linear(str[i..j], t);
      ChunkWritten(w, str, i, j, t, out.Written());
      LinearHolds(elements, start, limit, i, j, t);
    }

    /** The number of edges, minus 1: in the lead byte, or if it is too large in a byte after it. */
    method WriteBranchHead(length: nat, ghost sub: Sub) returns (type_: int)
      requires out.Valid() && out.bytesLength > 0 && SubAt(out.Written(), out.bytesLength, sub)
      requires 0 < length < 0x100 && Count(sub) == length + 1
      modifies out, out.bytes
      ensures out.Valid() && (out.bytes == old(out.bytes) || fresh(out.bytes))
      ensures Grown(old(out.Written()), out.Written()) && Ready(out.Written(), type_, Branch(sub))
      ensures out.bytesLength == old(out.bytesLength) + if length < MIN_LINEAR_MATCH then 0 else 1
    {
      hide Buffer.Written, Buffer.Valid, SubAt, Grown, Ready, Bytes, Count;
      ghost var w := out.Written();
      BranchLead(w, sub, length);
      GrownNone(w);
      if length < MIN_LINEAR_MATCH {
        type_ := length;
      } else {
        var o := out.WriteByte(length);
        GrownByOne(w, out.Written());
        type_ := 0;
      }
    }

    /** A branch on byte `u`. The lead byte is left. */
    method WriteBranch(start: nat, limit: nat, u: nat) returns (type_: int, ghost t: Tree)
      requires out.Valid() && Elements(elements) && Fan(elements, start, limit, u)
      requires elements[start].str[u] != elements[limit - 1].str[u]
      modifies out, out.bytes
      ensures out.Valid() && (out.bytes == old(out.bytes) || fresh(out.bytes))
      ensures Grown(old(out.Written()), out.Written())
      ensures t.Branch? && Ready(out.Written(), type_, t) && Holds(elements, start, limit, u, t)
      ensures out.bytesLength + 1 == old(out.bytesLength) + Size(t)
      decreases 0x1_0000 - u, 2, 1
    {
      hide Buffer.Written, Buffer.Valid, Elements, At, SubAt, Grown, Range, Fan, Holds, Edges, Ready, Bytes, Count;
      ghost var w0 := out.Written();
      var length, sub := WriteBranchEdges(start, limit, u);
      ghost var w := out.Written();
      type_ := WriteBranchHead(length - 1, sub);
      GrownOn(w0, w, out.Written());
      t := Branch(sub);
      BranchHolds(elements, start, limit, u, sub);
    }

    method WriteBranchEdges(start: nat, limit: nat, u: nat) returns (length: nat, ghost sub: Sub)
      requires out.Valid() && Elements(elements) && Fan(elements, start, limit, u)
      requires elements[start].str[u] != elements[limit - 1].str[u]
      modifies out, out.bytes
      ensures out.Valid() && (out.bytes == old(out.bytes) || fresh(out.bytes)) && out.bytesLength > 0
      ensures Grown(old(out.Written()), out.Written()) && SubAt(out.Written(), out.bytesLength, sub)
      ensures 1 < length <= 0x100 && Count(sub) == length && Edges(elements, start, limit, u, sub)
      ensures out.bytesLength == old(out.bytesLength) + SubSize(sub)
      decreases 0x1_0000 - u, 2, 0
    {
      BranchFacts(elements, start, limit, u);
      hide Buffer.Written, Buffer.Valid, Elements, SubAt, Grown, Range, Fan, Groups, Edges, Tall, Bytes, Count;
      length := CountElementUnits(elements, start, limit, u);
      var o;
      o, sub := WriteBranchSubNode(start, limit, u, length);
    }
  }

  lemma LastSize(sub: Sub, trees: seq<Tree>)
    requires sub.Last?
    ensures EdgeSize(sub, NodesFrom(trees, 0)) == Size(sub.target) + 1
    ensures NodesFrom(trees, |trees|) == 0 == Nodes(sub)
  {
  }

  lemma SplitSize(sub: Sub)
    requires sub.Split?
    ensures
      SubSize(sub) == SubSize(sub.less) + SubSize(sub.greaterOrEqual) + DeltaSize(SubSize(sub.greaterOrEqual)) + 1
  {
  }

  lemma ListSize(sub: Sub)
    ensures SubSize(sub) == Nodes(sub) + EdgeSize(sub, 0)
  {
  }

  lemma SliceBytes(b: seq<int>, i: nat, j: nat)
    requires Bytes(b) && i <= j <= |b|
    ensures Bytes(b[i..j])
  {
  }

  datatype BuildResult = Built(bytes: seq<int>) | IndexOutOfBounds | IllegalArgument

  /** The order in which the strings are put before they are checked for repetition. */
  ghost predicate SortedStrings(es: seq<Entry>) {
    forall i, j :: 0 <= i < j < |es| ==> es[i].str == es[j].str || Less(es[i].str, es[j].str)
  }

  /**
   The whole trie, for sorted elements: an error for no elements and for equal strings; otherwise the bytes lay out
   a tree with exactly these elements, provided that no jump of a split is too long.
   */
  method Build(elements: seq<Entry>) returns (r: BuildResult, ghost root: Tree)
    requires SortedStrings(elements)
    requires forall k :: 0 <= k < |elements| ==>
      Bytes(elements[k].str) && |elements[k].str| <= 0xffff && -0x8000_0000 <= elements[k].value < 0x8000_0000
    ensures r.IndexOutOfBounds? <==> elements == []
    ensures r.IllegalArgument? <==> exists i, j :: 0 <= i < j < |elements| && elements[i].str == elements[j].str
    ensures r.Built? ==>
      && Bytes(r.bytes) && Sorted(root) && Entries(root, []) == elements
      && |r.bytes| == Size(root) && (|r.bytes| <= MAX_THREE_BYTE_DELTA ==> JumpsShort(root))
      && (|r.bytes| < 0x8000_0000 && JumpsShort(root) ==> Layout(r.bytes, 0, root))
  {
    root := Final(0);
    if |elements| == 0 {
      return IndexOutOfBounds, root;
    }
    hide Less, Layout, Grown, Sorted, Entries;
    var prev := elements[0].str;
    for i := 1 to |elements|
      invariant prev == elements[i - 1].str
      invariant forall k :: 1 <= k < i ==> elements[k - 1].str != elements[k].str
    {
      var current := elements[i].str;
      if prev == current {
        return IllegalArgument, root;
      }
      prev := current;
    }
    NoneEqual(elements);
    var capacity := Total(elements);
    if capacity < 1024 {
      capacity := 1024;
    }
    var out := new Buffer(capacity);
    var builder := new Builder(elements, out);
    var offset, t := builder.WriteNode(0, |elements|, 0);
    root := t;
    assert elements[0].str[..0] == [] && elements[0..|elements|] == elements;
    r := Built(out.bytes[out.bytes.Length - out.bytesLength..]);
    if |r.bytes| <= MAX_THREE_BYTE_DELTA { SmallIsShort(root); }
  }

  /** The length of all strings together. */
  function Total(es: seq<Entry>): nat {
    if es == [] then 0 else |es[0].str| + Total(es[1..])
  }
}
