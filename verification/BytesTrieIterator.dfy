/**
 The iterator over the strings and values of a byte-serialised trie, with an explicit stack of edges still to follow,
 and an optional limit for the length of the strings.
 */
module BytesTrieIterator {
  import opened BytesTrieFormat
  import Bits

  const NULL := -1

  // ---------------------------------------------------------------------------------------------
  // The stack.

  /** A remaining branch length and a string length in one integer, by shift and bitwise or. */
  function Pack(length: nat, strLength: nat): (p: nat) {
    Bits.Or(16, length, strLength / 0x1_0000) * 0x1_0000 + strLength % 0x1_0000
  }

  /** The upper bits of the string length, if there are any, do not disturb the branch length. */
  predicate Keeps(length: nat, strLength: nat) {
    Bits.Or(16, length, strLength / 0x1_0000) == length
  }

  lemma {:induction false} OrZero(n: nat, a: nat)
    requires a < Bits.Pow2(n)
    ensures Bits.Or(n, a, 0) == a
  {
    if n > 0 { OrZero(n - 1, a / 2); }
  }

  /** A string length is read back exactly if it is below 2^16, and then so is the branch length. */
  lemma Unpack(length: nat, strLength: nat)
    requires length < 0x1_0000
    ensures Pack(length, strLength) % 0x1_0000 == strLength <==> strLength < 0x1_0000
    ensures Pack(length, strLength) / 0x1_0000 == length <==> Keeps(length, strLength)
    ensures strLength < 0x1_0000 ==> Keeps(length, strLength)
  {
    if strLength < 0x1_0000 {
      assert Bits.Pow2(8) == 0x100;
      assert Bits.Pow2(16) == 0x1_0000;
      OrZero(16, length);
    }
  }

  /** An entry of the stack: edges of a branch that are still to be followed, and the length of the string before them. */
  datatype Frame = Frame(sub: Sub, length: nat)

  /** Two integers on the stack for each frame: a position, and the two lengths. */
  ghost predicate FrameAt(b: seq<int>, stack: seq<int>, f: Frame, k: nat) {
    && 2 * k + 1 < |stack|
    && stack[2 * k] >= 0 && SubLayout(b, stack[2 * k], f.sub)
    && stack[2 * k + 1] == Count(f.sub) * 0x1_0000 + f.length && f.length < 0x1_0000
  }

  ghost predicate Stacked(b: seq<int>, stack: seq<int>, frames: seq<Frame>) {
    Bytes(b) && |stack| == 2 * |frames| && forall k :: 0 <= k < |frames| ==> FrameAt(b, stack, frames[k], k)
  }

  lemma StackedPush(b: seq<int>, stack: seq<int>, frames: seq<Frame>, q: nat, sub: Sub, n: nat)
    requires Stacked(b, stack, frames) && SubLayout(b, q, sub) && Keeps(Count(sub), n)
    ensures Stacked(b, stack + [q, Pack(Count(sub), n)], frames + [Frame(sub, n % 0x1_0000)])
  {
    hide SubLayout;
    var s', f' := stack + [q, Pack(Count(sub), n)], frames + [Frame(sub, n % 0x1_0000)];
    forall k | 0 <= k < |f'| ensures FrameAt(b, s', f'[k], k) {
      assert k < |frames| ==> FrameAt(b, stack, frames[k], k) && s'[2 * k] == stack[2 * k] && s'[2 * k + 1] == stack[2 * k + 1];
    }
  }

  lemma StackedPop(b: seq<int>, stack: seq<int>, frames: seq<Frame>)
    requires Stacked(b, stack, frames) && |frames| > 0
    ensures
      var n, top := |frames| - 1, frames[|frames| - 1];
      |stack| == 2 * n + 2 && FrameAt(b, stack, top, n) && Stacked(b, stack[..2 * n], frames[..n])
  {
    hide SubLayout;
    var n := |frames| - 1;
    forall k | 0 <= k < n ensures FrameAt(b, stack[..2 * n], frames[k], k) {
      assert FrameAt(b, stack, frames[k], k);
    }
  }

  /** What is read back from the top of the stack. */
  lemma TopOf(b: seq<int>, stack: seq<int>, frames: seq<Frame>)
    requires Stacked(b, stack, frames) && stack != []
    ensures |frames| > 0
    ensures
      var n, top := |stack|, frames[|frames| - 1];
      && n >= 2 && stack[n - 2] >= 0 && SubLayout(b, stack[n - 2], top.sub)
      && stack[n - 1] >= 0 && stack[n - 1] % 0x1_0000 == top.length && stack[n - 1] / 0x1_0000 == Count(top.sub)
      && Stacked(b, stack[..n - 2], frames[..|frames| - 1])
  {
    StackedPop(b, stack, frames);
    hide SubLayout, Stacked, Count;
  }

  lemma StackedEmpty(b: seq<int>, stack: seq<int>, frames: seq<Frame>)
    requires Stacked(b, stack, frames)
    ensures stack == [] <==> frames == []
  {
  }

  // ---------------------------------------------------------------------------------------------
  // What is delivered, whatever the lengths of the strings.

  /** What is delivered, the string that is left, and whether all branch lengths could be read back. */
  datatype Outcome = Outcome(entries: seq<Entry>, str: seq<int>, fits: bool)

  ghost function Then(a: Outcome, b: Outcome): Outcome {
    Outcome(a.entries + b.entries, b.str, a.fits && b.fits)
  }

  ghost function Needs(a: Outcome, fits: bool): Outcome { a.(fits := a.fits && fits) }

  ghost predicate UpTo(s: seq<int>, max: int) { max > 0 ==> |s| <= max }

  ghost predicate Below(s: seq<int>, max: int) { max > 0 ==> |s| < max }

  predicate AtMax(s: seq<int>, max: int) { max > 0 && |s| == max }

  /** A string is shortened to `n`, unless it is shorter. */
  function Truncated(s: seq<int>, n: nat): (r: seq<int>)
    ensures |r| <= n && r <= s
  {
    if n < |s| then s[..n] else s
  }

  /** All that is delivered for a tree, when the string before it is `s`. A string that goes on after `max` has no value. */
  ghost function Deliver(t: Tree, s: seq<int>, max: int): (r: Outcome)
    requires UpTo(s, max)
    ensures UpTo(r.str, max)
    decreases t
  {
    match t
    case Final(v) => Outcome([Entry(s, v)], s, true)
    case Intermediate(v, next) =>
      if AtMax(s, max) then Outcome([Entry(s, v)], s, true)
      else Then(Outcome([Entry(s, v)], s, true), Deliver(next, s, max))
    case Linear(str, next) =>
      if max > 0 && |s| + |str| > max then
        var cut := s + str[..max - |s|];
        Outcome([Entry(cut, -1)], cut, true)
      else Deliver(next, s + str, max)
    case Branch(sub) =>
      if AtMax(s, max) then Outcome([Entry(s, -1)], s, true) else DeliverSub(sub, s, max)
  }

  /** After the first edges, the string is shortened to the length that was kept on the stack, modulo 2^16. */
  ghost function DeliverSub(sub: Sub, s: seq<int>, max: int): (r: Outcome)
    requires Below(s, max)
    ensures UpTo(r.str, max)
    decreases sub
  {
    match sub
    case Split(_, less, greaterOrEqual) =>
      var r := DeliverSub(less, s, max);
      Then(Needs(r, Keeps(Count(greaterOrEqual), |s|)), DeliverSub(greaterOrEqual, Truncated(r.str, |s| % 0x1_0000), max))
    case Pair(key, target, rest) =>
      var r := Deliver(target, s + [key], max);
      Then(Needs(r, Keeps(Count(rest), |s|)), DeliverSub(rest, Truncated(r.str, |s| % 0x1_0000), max))
    case Last(key, target) => Deliver(target, s + [key], max)
  }

  ghost predicate AllBelow(frames: seq<Frame>, max: int) {
    forall k :: 0 <= k < |frames| ==> (max > 0 ==> frames[k].length < max)
  }

  /** What is delivered from the stack, its top first. */
  ghost function Pending(frames: seq<Frame>, str: seq<int>, max: int): Outcome
    requires AllBelow(frames, max)
  {
    if frames == [] then Outcome([], str, true)
    else
      var top := frames[|frames| - 1];
      var r := DeliverSub(top.sub, Truncated(str, top.length), max);
      Then(r, Pending(frames[..|frames| - 1], r.str, max))
  }

  /** From a node on, and then from the stack. */
  ghost function Rest(t: Tree, str: seq<int>, frames: seq<Frame>, max: int): Outcome
    requires UpTo(str, max) && AllBelow(frames, max)
  {
    var r := Deliver(t, str, max);
    Then(r, Pending(frames, r.str, max))
  }

  ghost function RestSub(sub: Sub, str: seq<int>, frames: seq<Frame>, max: int): Outcome
    requires Below(str, max) && AllBelow(frames, max)
  {
    var r := DeliverSub(sub, str, max);
    Then(r, Pending(frames, r.str, max))
  }

  lemma ThenThen(a: Outcome, b: Outcome, c: Outcome, fits: bool)
    ensures Then(Then(Needs(a, fits), b), c) == Needs(Then(a, Then(b, c)), fits)
  {
    assert (a.entries + b.entries) + c.entries == a.entries + (b.entries + c.entries);
  }

  lemma PendingPush(frames: seq<Frame>, f: Frame, str: seq<int>, max: int)
    requires AllBelow(frames, max) && (max > 0 ==> f.length < max)
    ensures AllBelow(frames + [f], max)
    ensures
      var r := DeliverSub(f.sub, Truncated(str, f.length), max);
      Pending(frames + [f], str, max) == Then(r, Pending(frames, r.str, max))
  {
    assert (frames + [f])[..|frames|] == frames;
  }

  lemma PendingPop(frames: seq<Frame>, str: seq<int>, max: int)
    requires AllBelow(frames, max) && |frames| > 0
    ensures
      var top, below := frames[|frames| - 1], frames[..|frames| - 1];
      && AllBelow(below, max) && Below(Truncated(str, top.length), max) && UpTo(Truncated(str, top.length), max)
      && Pending(frames, str, max) == RestSub(top.sub, Truncated(str, top.length), below, max)
  {
  }

  /** The edges from the comparison byte on can wait on the stack. */
  lemma RestSplit(sub: Sub, str: seq<int>, frames: seq<Frame>, max: int)
    requires sub.Split? && Below(str, max) && AllBelow(frames, max)
    ensures
      var f := Frame(sub.greaterOrEqual, |str| % 0x1_0000);
      && AllBelow(frames + [f], max)
      && RestSub(sub, str, frames, max)
         == Needs(RestSub(sub.less, str, frames + [f], max), Keeps(Count(sub.greaterOrEqual), |str|))
  {
    hide Keeps, Truncated;
    var r := DeliverSub(sub.less, str, max);
    var f := Frame(sub.greaterOrEqual, |str| % 0x1_0000);
    PendingPush(frames, f, r.str, max);
    var q := DeliverSub(f.sub, Truncated(r.str, f.length), max);
    ThenThen(r, q, Pending(frames, q.str, max), Keeps(Count(sub.greaterOrEqual), |str|));
  }

  /** So can the edges after the first one of a list. */
  lemma RestPair(sub: Sub, str: seq<int>, frames: seq<Frame>, max: int)
    requires sub.Pair? && Below(str, max) && AllBelow(frames, max)
    ensures
      var f := Frame(sub.rest, |str| % 0x1_0000);
      && AllBelow(frames + [f], max)
      && RestSub(sub, str, frames, max)
         == Needs(Rest(sub.target, str + [sub.key], frames + [f], max), Keeps(Count(sub.rest), |str|))
  {
    hide Keeps, Truncated;
    var r := Deliver(sub.target, str + [sub.key], max);
    var f := Frame(sub.rest, |str| % 0x1_0000);
    PendingPush(frames, f, r.str, max);
    var q := DeliverSub(f.sub, Truncated(r.str, f.length), max);
    ThenThen(r, q, Pending(frames, q.str, max), Keeps(Count(sub.rest), |str|));
  }

  lemma RestLast(sub: Sub, str: seq<int>, frames: seq<Frame>, max: int)
    requires sub.Last? && Below(str, max) && AllBelow(frames, max)
    ensures RestSub(sub, str, frames, max) == Rest(sub.target, str + [sub.key], frames, max)
  {
  }

  /** A value at a node is delivered first. */
  lemma RestValue(t: Tree, str: seq<int>, frames: seq<Frame>, max: int)
    requires (t.Final? || t.Intermediate?) && UpTo(str, max) && AllBelow(frames, max)
    ensures
      Rest(t, str, frames, max) ==
        Then(Outcome([Entry(str, t.value)], str, true),
             if t.Final? || AtMax(str, max) then Pending(frames, str, max) else Rest(t.next, str, frames, max))
  {
    if t.Intermediate? && !AtMax(str, max) {
      var one, r := Outcome([Entry(str, t.value)], str, true), Deliver(t.next, str, max);
      ThenThen(one, r, Pending(frames, r.str, max), true);
    }
  }

  /** Without a value, a string of the maximal length is cut off. */
  lemma RestCut(t: Tree, str: seq<int>, frames: seq<Frame>, max: int)
    requires (t.Linear? && |t.str| > 0) || t.Branch?
    requires AtMax(str, max) && AllBelow(frames, max)
    ensures Rest(t, str, frames, max) == Then(Outcome([Entry(str, -1)], str, true), Pending(frames, str, max))
  {
    assert str + [] == str;
  }

  /** So is a string within a linear match. */
  lemma RestLinear(t: Tree, str: seq<int>, frames: seq<Frame>, max: int)
    requires t.Linear? && UpTo(str, max) && AllBelow(frames, max)
    ensures
      Rest(t, str, frames, max) ==
        if max > 0 && |str| + |t.str| > max then
          var cut := str + t.str[..max - |str|];
          Then(Outcome([Entry(cut, -1)], cut, true), Pending(frames, cut, max))
        else Rest(t.next, str + t.str, frames, max)
  {
  }

  /** What is left of a linear match at the start goes into the string at once, as far as the maximal length allows. */
  lemma InsideLinear(t: Tree, n: nat, max: int)
    requires t.Linear? && n == if max > 0 && |t.str| > max then max else |t.str|
    ensures
      Rest(if n < |t.str| then Linear(t.str[n..], t.next) else t.next, t.str[..n], [], max) == Deliver(t, [], max)
  {
    hide Deliver;
    RestEmpty(t, [], max);
    RestLinear(t, [], [], max);
    assert [] + t.str == t.str == t.str[..|t.str|] && [] + t.str[..n] == t.str[..n];
    if n < |t.str| { RestCut(Linear(t.str[n..], t.next), t.str[..n], [], max); }
  }

  // ---------------------------------------------------------------------------------------------
  // The iterator.

  class Iterator {
    const bytes: seq<int>
    const maxLength: int
    var pos: int
    var remainingMatchLength: int
    var str: seq<int>
    var value: int
    var stack: seq<int>
    ghost var tree: Tree
    ghost var frames: seq<Frame>

    ghost predicate Shape()
      reads this
    {
      Stacked(bytes, stack, frames) && AllBelow(frames, maxLength) && UpTo(str, maxLength)
    }

    /** All that is still to be delivered. */
    ghost function ToDo(): Outcome
      reads this
      requires Shape()
    {
      if pos == NULL then Pending(frames, str, maxLength) else Rest(tree, str, frames, maxLength)
    }

    ghost predicate Valid()
      reads this
    {
      && Shape() && ToDo().fits
      && (pos == NULL || CursorAt(bytes, pos, remainingMatchLength, tree))
      && (remainingMatchLength >= 0 ==> frames == [] && (pos != NULL ==> AtMax(str, maxLength)))
    }

    /** From a cursor of a trie on, with a maximal length of the strings unless it is 0. */
    constructor (trieBytes: seq<int>, triePos: int, remaining: int, maxStringLength: int, ghost root: Tree)
      requires Bytes(trieBytes) && Deliver(root, [], maxStringLength).fits
      requires (triePos == NULL && remaining < 0) || CursorAt(trieBytes, triePos, remaining, root)
      ensures Valid() && maxLength == maxStringLength
      ensures triePos != NULL ==> ToDo() == Deliver(root, [], maxStringLength)
      ensures triePos == NULL ==> ToDo().entries == []
    {
      hide Deliver, Layout;
      bytes, maxLength := trieBytes, maxStringLength;
      pos, remainingMatchLength, str, value, stack := triePos, remaining, [], 0, [];
      tree, frames := root, [];
      new;
      RestEmpty(root, [], maxLength);
      var length := remainingMatchLength;
      if length >= 0 {
        length := length + 1;
        if maxLength > 0 && length > maxLength {
          length := maxLength;
        }
        InsideLinear(root, length, maxLength);
        str := bytes[pos..pos + length];
        pos := pos + length;
        remainingMatchLength := remainingMatchLength - length;
        assert str == root.str[..length];
        if length < |root.str| {
          tree := Linear(root.str[length..], root.next);
        } else {
          tree := root.next;
          LayoutInside(bytes, pos, tree);
        }
      }
    }

    method HasNext() returns (r: bool)
      requires Valid()
      ensures r <==> ToDo().entries != []
    {
      if pos != NULL { DeliverStart(tree, str, maxLength); }
      if |frames| > 0 { DeliverSubStart(frames[|frames| - 1].sub, Truncated(str, frames[|frames| - 1].length), maxLength); }
      r := pos != NULL || stack != [];
    }

    /** One entry of the stack is added: edges that are left for later. */
    method Push(q: nat, length: nat, ghost sub: Sub)
      requires Stacked(bytes, stack, frames) && SubLayout(bytes, q, sub) && length == Count(sub) && Keeps(length, |str|)
      modifies `stack, `frames
      ensures Stacked(bytes, stack, frames) && frames == old(frames) + [Frame(sub, |str| % 0x1_0000)]
    {
      hide SubLayout, Pack, Stacked;
      StackedPush(bytes, stack, frames, q, sub, |str|);
      stack := stack + [q, Pack(length, |str|)];
      frames := frames + [Frame(sub, |str| % 0x1_0000)];
    }

    /** What an edge leads to: a final value, which is delivered at once, or a node. */
    ghost predicate Reached(q: int, all: Outcome)
      reads this
    {
      && Shape() && all.fits
      && (q == NULL ==>
            pos == NULL && Pending(frames, str, maxLength).fits
            && [Entry(str, value)] + Pending(frames, str, maxLength).entries == all.entries)
      && (q != NULL ==>
            && q >= 0 && Layout(bytes, q, tree) && Rest(tree, str, frames, maxLength).fits
            && Rest(tree, str, frames, maxLength).entries == all.entries)
    }

    /** The first edge of a branch is followed, the others go on the stack. */
    method BranchNext(p: nat, len: nat, ghost sub: Sub) returns (q: int)
      requires Shape() && Below(str, maxLength) && SubLayout(bytes, p, sub) && len == Count(sub) > 1
      requires RestSub(sub, str, frames, maxLength).fits
      modifies `pos, `str, `value, `stack, `tree, `frames
      ensures Reached(q, old(RestSub(sub, str, frames, maxLength)))
      ensures q != NULL ==> tree < sub
    {
      hide ReadValue, ValueTail, DeltaTail, JumpByDelta, SkipDelta, SkipValue, ToInt32, Layout, Pack, Stacked, Pending, Keeps,
        Reached, DeliverSub;
      var r, length := p, len;
      ghost var s := sub;
      ghost var all := RestSub(sub, str, frames, maxLength);
      while length > MAX_BRANCH_LINEAR_SUB_NODE_LENGTH
        invariant Shape() && Below(str, maxLength) && SubLayout(bytes, r, s) && length == Count(s) > 1 && r >= 0
        invariant str == old(str)
        invariant RestSub(s, str, frames, maxLength) == all
        invariant s == sub || s < sub
        decreases s
      {
        RestSplit(s, str, frames, maxLength);
        r := r + 1;
        Push(SkipDelta(bytes, r), length - length / 2, s.greaterOrEqual);
        length := length / 2;
        r := JumpByDelta(bytes, r);
        s := s.less;
      }
      q := FirstEdge(r, length, s);
    }

    /** The first edge of a list of edges. */
    method FirstEdge(p: nat, length: nat, ghost sub: Sub) returns (q: int)
      requires Shape() && Below(str, maxLength) && SubLayout(bytes, p, sub)
      requires 1 < length == Count(sub) <= MAX_BRANCH_LINEAR_SUB_NODE_LENGTH && RestSub(sub, str, frames, maxLength).fits
      modifies `pos, `str, `value, `stack, `tree, `frames
      ensures Reached(q, old(RestSub(sub, str, frames, maxLength)))
      ensures q != NULL ==> tree < sub
    {
      hide ReadValue, ValueTail, DeltaTail, SkipValue, ToInt32, Pack, Stacked, Pending, Keeps, DeliverSub, Deliver;
      RestPair(sub, str, frames, maxLength);
      var trieByte := bytes[p];
      var node := bytes[p + 1];
      var v := ReadValue(bytes, p + 2, node / 2);
      SkipIsTail(p + 2, node);
      var r := SkipValue(p + 2, node);
      Push(r, length - 1, sub.rest);
      str := str + [trieByte];
      tree := sub.target;
      if node % 2 == 1 {
        pos := NULL;
        value := v;
        q := NULL;
        RestValue(tree, str, frames, maxLength);
      } else {
        q := r + v;
        LayoutInside(bytes, q, tree);
      }
    }

    lemma ShapeStacked()
      requires Shape()
      ensures Stacked(bytes, stack, frames) && AllBelow(frames, maxLength) && UpTo(str, maxLength)
    {
    }

    lemma StackedShape()
      requires Stacked(bytes, stack, frames) && AllBelow(frames, maxLength) && UpTo(str, maxLength)
      ensures Shape()
    {
    }

    /** The top of the stack is taken off, and the string shortened to what it was when the entry was added, modulo 2^16. */
    method Pop() returns (q: nat, length: nat, ghost sub: Sub)
      requires Shape() && stack != []
      modifies `str, `stack, `frames
      ensures Shape() && Below(str, maxLength) && SubLayout(bytes, q, sub) && length == Count(sub)
      ensures RestSub(sub, str, frames, maxLength) == old(Pending(frames, str, maxLength))
    {
      hide *;
      ShapeStacked();
      TopOf(bytes, stack, frames);
      PendingPop(frames, str, maxLength);
      ghost var top := frames[|frames| - 1];
      sub := top.sub;
      var stackSize := |stack|;
      var packed := stack[stackSize - 1];
      q := stack[stackSize - 2];
      stack := stack[..stackSize - 2];
      frames := frames[..|frames| - 1];
      str := Truncated(str, packed % 0x1_0000);
      length := packed / 0x1_0000;
      StackedShape();
    }

    /** The first edge of the top of the stack is followed. */
    method PopEdge() returns (q: int)
      requires Shape() && stack != [] && pos == NULL && Pending(frames, str, maxLength).fits
      modifies `pos, `str, `value, `stack, `tree, `frames
      ensures Reached(q, old(Pending(frames, str, maxLength)))
    {
      hide Stacked, Count, SubLayout, Pending, RestSub, Reached;
      var p, length;
      ghost var sub;
      p, length, sub := Pop();
      if length > 1 {
        q := BranchNext(p, length, sub);
      } else {
        q := LastEdge(p, sub);
      }
    }

    /** The last edge of a branch is followed. */
    method LastEdge(p: nat, ghost sub: Sub) returns (q: int)
      requires Shape() && Below(str, maxLength) && SubLayout(bytes, p, sub) && Count(sub) == 1
      requires RestSub(sub, str, frames, maxLength).fits
      modifies `str, `tree
      ensures q != NULL && Reached(q, old(RestSub(sub, str, frames, maxLength)))
    {
      hide Stacked, DeliverSub, Deliver, Pending, Rest, RestSub;
      assert sub.Last? by { OneIsLast(sub); }
      RestLast(sub, str, frames, maxLength);
      str := str + [bytes[p]];
      q := p + 1;
      tree := sub.target;
      LayoutInside(bytes, q, tree);
    }

    /** The string is delivered without a value, because it does not end where it is cut off. */
    method TruncateAndStop()
      modifies `pos, `value
      ensures pos == NULL && value == -1
    {
      pos, value := NULL, -1;
    }

    /** From a node on, down to the next value, or as far as the maximal length allows. */
    method Descend(start: nat)
      requires Shape() && Layout(bytes, start, tree) && remainingMatchLength < 0
      requires Rest(tree, str, frames, maxLength).fits
      modifies `pos, `str, `value, `stack, `tree, `frames
      ensures Valid() && [Entry(str, value)] + ToDo().entries == old(Rest(tree, str, frames, maxLength)).entries
    {
      hide ReadValue, ValueTail, DeltaTail, SkipValue, ToInt32, Pack, Stacked, SubLayout, DeliverSub, Keeps, Deliver;
      var p := start;
      ghost var all := Rest(tree, str, frames, maxLength);
      while true
        invariant Shape() && p >= 0 && Layout(bytes, p, tree)
        invariant Rest(tree, str, frames, maxLength).fits && Rest(tree, str, frames, maxLength).entries == all.entries
        decreases tree
      {
        var node := bytes[p];
        p := p + 1;
        if node >= MIN_VALUE_LEAD {
          RestValue(tree, str, frames, maxLength);
          value := ReadValue(bytes, p, node / 2);
          if node % 2 == 1 || (maxLength > 0 && |str| == maxLength) {
            pos := NULL;
          } else {
            SkipIsTail(p, node);
            pos := SkipValue(p, node);
            tree := tree.next;
          }
          return;
        }
        if maxLength > 0 && |str| == maxLength {
          RestCut(tree, str, frames, maxLength);
          TruncateAndStop();
          return;
        }
        if node < MIN_LINEAR_MATCH {
          if node == 0 {
            node := bytes[p];
            p := p + 1;
          }
          RestBranch(tree, str, frames, maxLength);
          p := BranchNext(p, node + 1, tree.sub);
          if p == NULL {
            return;
          }
        } else {
          var length := node - MIN_LINEAR_MATCH + 1;
          p := LinearNext(p, length);
          if p == NULL {
            return;
          }
        }
      }
    }

    /** The bytes of a linear match go into the string, as far as the maximal length allows. */
    method LinearNext(p: nat, length: nat) returns (q: int)
      requires Shape() && tree.Linear? && Layout(bytes, p - 1, tree) && length == |tree.str|
      requires Rest(tree, str, frames, maxLength).fits
      modifies `pos, `str, `value, `tree
      ensures Reached(q, old(Rest(tree, str, frames, maxLength)))
      ensures q != NULL ==> tree < old(tree)
    {
      hide Stacked, DeliverSub, Deliver, Pending, Rest;
      RestLinear(tree, str, frames, maxLength);
      assert bytes[p..p + length] == tree.str;
      if maxLength > 0 && |str| + length > maxLength {
        assert bytes[p..p + (maxLength - |str|)] == tree.str[..maxLength - |str|];
        str := str + bytes[p..p + (maxLength - |str|)];
        TruncateAndStop();
        return NULL;
      }
      str := str + bytes[p..p + length];
      tree := tree.next;
      q := p + length;
      LayoutInside(bytes, q, tree);
    }

    /** The next string with its value; none if there is none left. */
    method Next() returns (found: bool)
      requires Valid()
      modifies this
      ensures Valid()
      ensures found <==> old(ToDo()).entries != []
      ensures found ==> old(ToDo()).entries == [Entry(str, value)] + ToDo().entries
      ensures !found ==> ToDo().entries == []
    {
      hide ReadValue, ValueTail, SkipValue, ToInt32, Pack, Stacked, SubLayout, Count, Deliver, DeliverSub, Keeps;
      StackedEmpty(bytes, stack, frames);
      var p := pos;
      if p == NULL {
        if stack == [] {
          return false;
        }
        p := PopEdge();
        if p == NULL {
          return true;
        }
      }
      found := true;
      if remainingMatchLength >= 0 {
        RestCut(tree, str, frames, maxLength);
        TruncateAndStop();
        return;
      }
      Descend(p);
    }
  }

  lemma OneIsLast(sub: Sub)
    requires Count(sub) == 1
    ensures sub.Last?
  {
  }

  lemma RestBranch(t: Tree, str: seq<int>, frames: seq<Frame>, max: int)
    requires t.Branch? && Below(str, max) && AllBelow(frames, max)
    ensures Rest(t, str, frames, max) == RestSub(t.sub, str, frames, max)
  {
  }

  lemma RestEmpty(t: Tree, str: seq<int>, max: int)
    requires UpTo(str, max)
    ensures Rest(t, str, [], max) == Deliver(t, str, max)
  {
  }

  lemma LayoutInside(b: seq<int>, pos: int, t: Tree)
    requires Layout(b, pos, t)
    ensures 0 <= pos < |b|
  {
  }

  lemma {:induction false} DeliverStart(t: Tree, s: seq<int>, max: int)
    requires UpTo(s, max)
    ensures |Deliver(t, s, max).entries| > 0
    decreases t
  {
    match t
    case Final(_) =>
    case Intermediate(_, next) =>
    case Linear(str, next) => if !(max > 0 && |s| + |str| > max) { DeliverStart(next, s + str, max); }
    case Branch(sub) => if !AtMax(s, max) { DeliverSubStart(sub, s, max); }
  }

  lemma {:induction false} DeliverSubStart(sub: Sub, s: seq<int>, max: int)
    requires Below(s, max)
    ensures |DeliverSub(sub, s, max).entries| > 0
    decreases sub
  {
    match sub
    case Split(_, less, _) => DeliverSubStart(less, s, max);
    case Pair(key, target, _) => DeliverStart(target, s + [key], max);
    case Last(key, target) => DeliverStart(target, s + [key], max);
  }

  // ---------------------------------------------------------------------------------------------
  // What should be delivered.

  /** All strings of the tree, as far as the maximal length, each after `s`; what goes on after it has no value. */
  ghost function EntriesUpTo(t: Tree, s: seq<int>, max: int): seq<Entry>
    requires UpTo(s, max)
    decreases t
  {
    match t
    case Final(v) => [Entry(s, v)]
    case Intermediate(v, next) => [Entry(s, v)] + if AtMax(s, max) then [] else EntriesUpTo(next, s, max)
    case Linear(str, next) =>
      if max > 0 && |s| + |str| > max then [Entry(s + str[..max - |s|], -1)] else EntriesUpTo(next, s + str, max)
    case Branch(sub) => if AtMax(s, max) then [Entry(s, -1)] else SubEntriesUpTo(sub, s, max)
  }

  ghost function SubEntriesUpTo(sub: Sub, s: seq<int>, max: int): seq<Entry>
    requires Below(s, max)
    decreases sub
  {
    match sub
    case Split(_, less, greaterOrEqual) => SubEntriesUpTo(less, s, max) + SubEntriesUpTo(greaterOrEqual, s, max)
    case Pair(key, target, rest) => EntriesUpTo(target, s + [key], max) + SubEntriesUpTo(rest, s, max)
    case Last(key, target) => EntriesUpTo(target, s + [key], max)
  }

  /** Without a maximal length, these are the entries of the tree. */
  lemma {:induction false} Unlimited(t: Tree, s: seq<int>, max: int)
    requires max <= 0
    ensures EntriesUpTo(t, s, max) == Entries(t, s)
    decreases t
  {
    match t
    case Final(_) =>
    case Intermediate(_, next) => Unlimited(next, s, max);
    case Linear(str, next) => Unlimited(next, s + str, max);
    case Branch(sub) => SubUnlimited(sub, s, max);
  }

  lemma {:induction false} SubUnlimited(sub: Sub, s: seq<int>, max: int)
    requires max <= 0
    ensures SubEntriesUpTo(sub, s, max) == SubEntries(sub, s)
    decreases sub
  {
    match sub
    case Split(_, less, greaterOrEqual) =>
      SubUnlimited(less, s, max);
      SubUnlimited(greaterOrEqual, s, max);
    case Pair(key, target, rest) =>
      Unlimited(target, s + [key], max);
      SubUnlimited(rest, s, max);
    case Last(key, target) => Unlimited(target, s + [key], max);
  }

  /** A string that is not in the tree, but goes on. */
  ghost predicate GoesOn(entries: seq<Entry>, str: seq<int>) {
    && (exists e :: e in entries && str <= e.str && |str| < |e.str|)
    && forall e :: e in entries ==> e.str != str
  }

  /** With one, they are the strings that are no longer than it, and those of this length that go on, without a value. */
  ghost predicate Cut(entries: seq<Entry>, max: int, e: Entry) {
    if |e.str| < max then e in entries
    else |e.str| == max && (e in entries || (e.value == -1 && GoesOn(entries, e.str)))
  }

  lemma {:induction false} Limited(t: Tree, s: seq<int>, max: int, e: Entry)
    requires max > 0 && UpTo(s, max) && Sorted(t)
    ensures e in EntriesUpTo(t, s, max) <==> Cut(Entries(t, s), max, e)
    decreases t
  {
    EntriesStart(t, s);
    match t
    case Final(_) =>
    case Intermediate(_, next) =>
      ProperlyLonger(next, s);
      if !AtMax(s, max) { Limited(next, s, max, e); }
    case Linear(str, next) =>
      EntriesStart(next, s + str);
      if |s| + |str| > max {
        assert (s + str)[..max] == s + str[..max - |s|];
        forall f | f in Entries(t, s) ensures (s + str)[..max] <= f.str && |f.str| > max {
          assert s + str <= f.str;
        }
        CutWithin(Entries(t, s), s + str, max, e);
      } else {
        Limited(next, s + str, max, e);
      }
    case Branch(sub) =>
      SubEntriesStart(sub, s);
      if AtMax(s, max) {
        var first := Entries(t, s)[0];
        assert first in Entries(t, s) && first.str[..max] == s;
        CutWithin(Entries(t, s), first.str, max, e);
      } else {
        SubLimited(sub, s, max, e, 0, 0x100);
      }
  }

  lemma CutWithin(entries: seq<Entry>, s: seq<int>, max: int, e: Entry)
    requires 0 < max < |s| && |entries| > 0 && forall f :: f in entries ==> s[..max] <= f.str && |f.str| > max
    ensures Cut(entries, max, e) <==> e == Entry(s[..max], -1)
  {
    assert entries[0] in entries;
  }

  lemma {:induction false} SubLimited(sub: Sub, s: seq<int>, max: int, e: Entry, lo: int, hi: int)
    requires max > 0 && Below(s, max) && Ordered(sub, lo, hi)
    ensures e in SubEntriesUpTo(sub, s, max) <==> Cut(SubEntries(sub, s), max, e)
    decreases sub
  {
    match sub
    case Split(cmp, less, greaterOrEqual) =>
      SubLimited(less, s, max, e, lo, cmp);
      SubLimited(greaterOrEqual, s, max, e, cmp, hi);
      SubEntriesRange(less, s, lo, cmp);
      SubEntriesRange(greaterOrEqual, s, cmp, hi);
      CutBoth(SubEntries(less, s), SubEntries(greaterOrEqual, s), s, cmp, max, e);
    case Pair(key, target, rest) =>
      Limited(target, s + [key], max, e);
      SubLimited(rest, s, max, e, key + 1, hi);
      EntriesStart(target, s + [key]);
      SubEntriesRange(rest, s, key + 1, hi);
      CutBoth(Entries(target, s + [key]), SubEntries(rest, s), s, key + 1, max, e);
    case Last(key, target) => Limited(target, s + [key], max, e);
  }

  /** Two lists of strings that differ in the byte after `s`. */
  lemma CutBoth(a: seq<Entry>, b: seq<Entry>, s: seq<int>, bound: int, max: int, e: Entry)
    requires |s| < max
    requires forall f :: f in a ==> |f.str| > |s| && f.str[|s|] < bound
    requires forall f :: f in b ==> |f.str| > |s| && f.str[|s|] >= bound
    ensures Cut(a + b, max, e) <==> Cut(a, max, e) || Cut(b, max, e)
  {
  }

  lemma {:induction false} UpToRange(t: Tree, s: seq<int>, max: int)
    requires UpTo(s, max)
    ensures forall e :: e in EntriesUpTo(t, s, max) ==> s <= e.str
    decreases t
  {
    match t
    case Final(_) =>
    case Intermediate(_, next) => if !AtMax(s, max) { UpToRange(next, s, max); }
    case Linear(str, next) => if !(max > 0 && |s| + |str| > max) { UpToRange(next, s + str, max); }
    case Branch(sub) => if !AtMax(s, max) { SubUpToStarts(sub, s, max); }
  }

  lemma {:induction false} SubUpToStarts(sub: Sub, s: seq<int>, max: int)
    requires Below(s, max)
    ensures forall e :: e in SubEntriesUpTo(sub, s, max) ==> s <= e.str
    decreases sub
  {
    match sub
    case Split(_, less, greaterOrEqual) =>
      SubUpToStarts(less, s, max);
      SubUpToStarts(greaterOrEqual, s, max);
    case Pair(key, target, rest) =>
      UpToRange(target, s + [key], max);
      SubUpToStarts(rest, s, max);
    case Last(key, target) => UpToRange(target, s + [key], max);
  }

  lemma {:induction false} SubUpToRange(sub: Sub, s: seq<int>, max: int, lo: int, hi: int)
    requires Below(s, max) && Ordered(sub, lo, hi)
    ensures forall e :: e in SubEntriesUpTo(sub, s, max) ==> |e.str| > |s| && s <= e.str && lo <= e.str[|s|] < hi
    decreases sub
  {
    match sub
    case Split(cmp, less, greaterOrEqual) =>
      SubUpToRange(less, s, max, lo, cmp);
      SubUpToRange(greaterOrEqual, s, max, cmp, hi);
    case Pair(key, target, rest) =>
      UpToRange(target, s + [key], max);
      SubUpToRange(rest, s, max, key + 1, hi);
    case Last(key, target) => UpToRange(target, s + [key], max);
  }

  /** What should be delivered is in ascending order. */
  lemma {:induction false} UpToAscend(t: Tree, s: seq<int>, max: int)
    requires UpTo(s, max) && Sorted(t)
    ensures Ascending(EntriesUpTo(t, s, max))
    decreases t
  {
    match t
    case Final(_) =>
    case Intermediate(v, next) =>
      if !AtMax(s, max) {
        UpToAscend(next, s, max);
        UpToLonger(next, s, max);
        var es := EntriesUpTo(next, s, max);
        forall j | 0 <= j < |es| ensures Less(s, es[j].str) {
          assert es[j] in es;
          assert LessAt(s, es[j].str, |s|);
        }
        AscendingConcat([Entry(s, v)], es);
      }
    case Linear(str, next) => if !(max > 0 && |s| + |str| > max) { UpToAscend(next, s + str, max); }
    case Branch(sub) => if !AtMax(s, max) { SubUpToAscend(sub, s, max, 0, 0x100); }
  }

  lemma UpToLonger(t: Tree, s: seq<int>, max: int)
    requires UpTo(s, max) && !AtMax(s, max) && Sorted(t) && !t.Final? && !t.Intermediate?
    ensures forall e :: e in EntriesUpTo(t, s, max) ==> |e.str| > |s| && s <= e.str
  {
    match t
    case Linear(str, next) => if !(max > 0 && |s| + |str| > max) { UpToRange(next, s + str, max); }
    case Branch(sub) => SubUpToRange(sub, s, max, 0, 0x100);
  }

  lemma {:induction false} SubUpToAscend(sub: Sub, s: seq<int>, max: int, lo: int, hi: int)
    requires Below(s, max) && Ordered(sub, lo, hi)
    ensures Ascending(SubEntriesUpTo(sub, s, max))
    decreases sub
  {
    match sub
    case Split(cmp, less, greaterOrEqual) =>
      SubUpToAscend(less, s, max, lo, cmp);
      SubUpToAscend(greaterOrEqual, s, max, cmp, hi);
      SubUpToRange(less, s, max, lo, cmp);
      SubUpToRange(greaterOrEqual, s, max, cmp, hi);
      BelowIsLess(SubEntriesUpTo(less, s, max), SubEntriesUpTo(greaterOrEqual, s, max), s, cmp);
      AscendingConcat(SubEntriesUpTo(less, s, max), SubEntriesUpTo(greaterOrEqual, s, max));
    case Pair(key, target, rest) =>
      UpToAscend(target, s + [key], max);
      SubUpToAscend(rest, s, max, key + 1, hi);
      UpToRange(target, s + [key], max);
      SubUpToRange(rest, s, max, key + 1, hi);
      BelowIsLess(EntriesUpTo(target, s + [key], max), SubEntriesUpTo(rest, s, max), s, key + 1);
      AscendingConcat(EntriesUpTo(target, s + [key], max), SubEntriesUpTo(rest, s, max));
    case Last(key, target) => UpToAscend(target, s + [key], max);
  }

  // ---------------------------------------------------------------------------------------------
  // When it is delivered.

  /** No branch of which an edge has to wait comes after a string of 2^16 bytes or more; the tree comes after `n` bytes. */
  ghost predicate BranchesShort(t: Tree, n: nat, max: int)
    decreases t
  {
    match t
    case Final(_) => true
    case Intermediate(_, next) => (max > 0 && n == max) || BranchesShort(next, n, max)
    case Linear(str, next) => (max > 0 && n + |str| > max) || BranchesShort(next, n + |str|, max)
    case Branch(sub) => (max > 0 && n == max) || EdgesShort(sub, n, max)
  }

  ghost predicate EdgesShort(sub: Sub, n: nat, max: int)
    decreases sub
  {
    match sub
    case Split(_, less, greaterOrEqual) => n < 0x1_0000 && EdgesShort(less, n, max) && EdgesShort(greaterOrEqual, n, max)
    case Pair(_, target, rest) => n < 0x1_0000 && BranchesShort(target, n + 1, max) && EdgesShort(rest, n, max)
    case Last(_, target) => BranchesShort(target, n + 1, max)
  }

  /** A maximal length of 2^16 at most is enough. */
  lemma {:induction false} LimitedIsShort(t: Tree, n: nat, max: int)
    requires n <= max <= 0x1_0000 && max > 0
    ensures BranchesShort(t, n, max)
    decreases t
  {
    match t
    case Final(_) =>
    case Intermediate(_, next) => LimitedIsShort(next, n, max);
    case Linear(str, next) => if n + |str| <= max { LimitedIsShort(next, n + |str|, max); }
    case Branch(sub) => if n < max { LimitedEdges(sub, n, max); }
  }

  lemma {:induction false} LimitedEdges(sub: Sub, n: nat, max: int)
    requires n < max <= 0x1_0000
    ensures EdgesShort(sub, n, max)
    decreases sub
  {
    match sub
    case Split(_, less, greaterOrEqual) =>
      LimitedEdges(less, n, max);
      LimitedEdges(greaterOrEqual, n, max);
    case Pair(_, target, rest) =>
      LimitedIsShort(target, n + 1, max);
      LimitedEdges(rest, n, max);
    case Last(_, target) => LimitedIsShort(target, n + 1, max);
  }

  /** So are strings of 2^16 bytes at most. */
  lemma {:induction false} StringsAreShort(t: Tree, s: seq<int>, max: int)
    requires forall e :: e in Entries(t, s) ==> |e.str| <= 0x1_0000
    ensures BranchesShort(t, |s|, max)
    decreases t
  {
    match t
    case Final(_) =>
    case Intermediate(_, next) => StringsAreShort(next, s, max);
    case Linear(str, next) => StringsAreShort(next, s + str, max);
    case Branch(sub) => EdgeStringsAreShort(sub, s, max);
  }

  lemma {:induction false} EdgeStringsAreShort(sub: Sub, s: seq<int>, max: int)
    requires forall e :: e in SubEntries(sub, s) ==> |e.str| <= 0x1_0000
    ensures EdgesShort(sub, |s|, max)
    decreases sub
  {
    SubEntriesStart(sub, s);
    assert SubEntries(sub, s)[0] in SubEntries(sub, s);
    match sub
    case Split(_, less, greaterOrEqual) =>
      EdgeStringsAreShort(less, s, max);
      EdgeStringsAreShort(greaterOrEqual, s, max);
    case Pair(key, target, rest) =>
      StringsAreShort(target, s + [key], max);
      EdgeStringsAreShort(rest, s, max);
    case Last(key, target) => StringsAreShort(target, s + [key], max);
  }

  /** Different keys are at most 256. */
  lemma {:induction false} CountInRange(sub: Sub, lo: int, hi: int)
    requires Ordered(sub, lo, hi)
    ensures Count(sub) <= hi - lo
    decreases sub
  {
    match sub
    case Split(cmp, less, greaterOrEqual) =>
      CountInRange(less, lo, cmp);
      CountInRange(greaterOrEqual, cmp, hi);
    case Pair(key, _, rest) => CountInRange(rest, key + 1, hi);
    case Last(_, _) =>
  }

  /** What is delivered is right then. */
  lemma {:induction false} ShortDelivers(t: Tree, s: seq<int>, max: int)
    requires UpTo(s, max) && Sorted(t) && BranchesShort(t, |s|, max)
    ensures Deliver(t, s, max).entries == EntriesUpTo(t, s, max) && Deliver(t, s, max).fits && s <= Deliver(t, s, max).str
    decreases t
  {
    match t
    case Final(_) =>
    case Intermediate(_, next) => if !AtMax(s, max) { ShortDelivers(next, s, max); }
    case Linear(str, next) => if !(max > 0 && |s| + |str| > max) { ShortDelivers(next, s + str, max); }
    case Branch(sub) => if !AtMax(s, max) { ShortEdgesDeliver(sub, s, max, 0, 0x100); }
  }

  lemma {:induction false} ShortEdgesDeliver(sub: Sub, s: seq<int>, max: int, lo: int, hi: int)
    requires Below(s, max) && Ordered(sub, lo, hi) && 0 <= lo && hi <= 0x100 && EdgesShort(sub, |s|, max)
    ensures DeliverSub(sub, s, max).entries == SubEntriesUpTo(sub, s, max)
    ensures DeliverSub(sub, s, max).fits && s <= DeliverSub(sub, s, max).str
    decreases sub
  {
    hide Keeps, Ordered;
    match sub
    case Split(cmp, less, greaterOrEqual) =>
      assert Ordered(less, lo, cmp) && Ordered(greaterOrEqual, cmp, hi) && lo <= cmp <= hi by { OrderedSplit(sub, lo, hi); }
      ShortEdgesDeliver(less, s, max, lo, cmp);
      ShortEdgesDeliver(greaterOrEqual, s, max, cmp, hi);
      CountInRange(greaterOrEqual, cmp, hi);
      Unpack(Count(greaterOrEqual), |s|);
      BackTo(DeliverSub(less, s, max).str, s);
    case Pair(key, target, rest) =>
      assert Sorted(target) && Ordered(rest, key + 1, hi) && lo <= key by { OrderedPair(sub, lo, hi); }
      ShortDelivers(target, s + [key], max);
      ShortEdgesDeliver(rest, s, max, key + 1, hi);
      CountInRange(rest, key + 1, hi);
      Unpack(Count(rest), |s|);
      BackTo(Deliver(target, s + [key], max).str, s);
    case Last(key, target) =>
      assert Sorted(target) by { OrderedLast(sub, lo, hi); }
      ShortDelivers(target, s + [key], max);
  }

  /** So a branch length that is disturbed on the stack belongs to a branch after 2^16 bytes or more. */
  lemma DisturbedIsLong(t: Tree, max: int)
    requires Sorted(t) && UpTo([], max) && !Deliver(t, [], max).fits
    ensures !BranchesShort(t, 0, max)
  {
    if BranchesShort(t, 0, max) { ShortDelivers(t, [], max); }
  }

  lemma OrderedSplit(sub: Sub, lo: int, hi: int)
    requires Ordered(sub, lo, hi) && sub.Split?
    ensures Ordered(sub.less, lo, sub.cmp) && Ordered(sub.greaterOrEqual, sub.cmp, hi) && lo <= sub.cmp <= hi
  {
  }

  lemma OrderedPair(sub: Sub, lo: int, hi: int)
    requires Ordered(sub, lo, hi) && sub.Pair?
    ensures Sorted(sub.target) && Ordered(sub.rest, sub.key + 1, hi) && lo <= sub.key < hi
  {
  }

  lemma OrderedLast(sub: Sub, lo: int, hi: int)
    requires Ordered(sub, lo, hi) && sub.Last?
    ensures Sorted(sub.target)
  {
  }

  lemma BackTo(longer: seq<int>, s: seq<int>)
    requires s <= longer && |s| < 0x1_0000
    ensures Truncated(longer, |s| % 0x1_0000) == s
  {
  }

  // ---------------------------------------------------------------------------------------------
  // When it is not.

  /** Two lists that differ where both go on. */
  ghost predicate Differ(a: seq<Entry>, b: seq<Entry>) {
    exists i :: 0 <= i < |a| && i < |b| && a[i] != b[i]
  }

  lemma DifferBefore(a: seq<Entry>, b: seq<Entry>, c: seq<Entry>, d: seq<Entry>)
    requires Differ(a, b)
    ensures Differ(a + c, b + d)
  {
    var i :| 0 <= i < |a| && i < |b| && a[i] != b[i];
    assert (a + c)[i] != (b + d)[i];
  }

  lemma DifferAfter(a: seq<Entry>, c: seq<Entry>, d: seq<Entry>)
    requires Differ(c, d)
    ensures Differ(a + c, a + d)
  {
    var i :| 0 <= i < |c| && i < |d| && c[i] != d[i];
    assert (a + c)[|a| + i] != (a + d)[|a| + i];
  }

  /** How many bytes lead to the first value. */
  ghost function FirstLength(t: Tree): nat
    decreases t
  {
    match t
    case Final(_) => 0
    case Intermediate(_, _) => 0
    case Linear(str, next) => |str| + FirstLength(next)
    case Branch(sub) => FirstEdgeLength(sub)
  }

  ghost function FirstEdgeLength(sub: Sub): nat
    decreases sub
  {
    match sub
    case Split(_, less, _) => FirstEdgeLength(less)
    case Pair(_, target, _) => 1 + FirstLength(target)
    case Last(_, target) => 1 + FirstLength(target)
  }

  lemma {:induction false} FirstDelivered(t: Tree, s: seq<int>, max: int)
    requires max <= 0
    ensures var d := Deliver(t, s, max).entries; |d| > 0 && |d[0].str| == |s| + FirstLength(t)
    ensures var e := EntriesUpTo(t, s, max); |e| > 0 && |e[0].str| == |s| + FirstLength(t)
    decreases t
  {
    match t
    case Final(_) =>
    case Intermediate(_, _) =>
    case Linear(str, next) => FirstDelivered(next, s + str, max);
    case Branch(sub) => FirstEdgeDelivered(sub, s, max);
  }

  lemma {:induction false} FirstEdgeDelivered(sub: Sub, s: seq<int>, max: int)
    requires max <= 0
    ensures var d := DeliverSub(sub, s, max).entries; |d| > 0 && |d[0].str| == |s| + FirstEdgeLength(sub)
    ensures var e := SubEntriesUpTo(sub, s, max); |e| > 0 && |e[0].str| == |s| + FirstEdgeLength(sub)
    decreases sub
  {
    match sub
    case Split(_, less, _) => FirstEdgeDelivered(less, s, max);
    case Pair(key, target, _) => FirstDelivered(target, s + [key], max);
    case Last(key, target) => FirstDelivered(target, s + [key], max);
  }

  /** After a shorter string, the first string that is delivered is another one. */
  lemma OtherStart(sub: Sub, s: seq<int>, r: seq<int>, max: int)
    requires max <= 0 && |r| < |s|
    ensures Differ(DeliverSub(sub, r, max).entries, SubEntriesUpTo(sub, s, max))
  {
    FirstEdgeDelivered(sub, s, max);
    FirstEdgeDelivered(sub, r, max);
  }

  /** Without a maximal length, a branch after a longer string makes the iterator deliver something else. */
  lemma {:induction false} LongDiffers(t: Tree, s: seq<int>, max: int)
    requires max <= 0 && Sorted(t) && !BranchesShort(t, |s|, max)
    ensures Differ(Deliver(t, s, max).entries, EntriesUpTo(t, s, max))
    decreases t
  {
    hide Differ;
    match t
    case Final(_) =>
    case Intermediate(v, next) =>
      LongDiffers(next, s, max);
      DifferAfter([Entry(s, v)], Deliver(next, s, max).entries, EntriesUpTo(next, s, max));
    case Linear(str, next) => LongDiffers(next, s + str, max);
    case Branch(sub) => LongEdgesDiffer(sub, s, max, 0, 0x100);
  }

  lemma {:induction false} LongEdgesDiffer(sub: Sub, s: seq<int>, max: int, lo: int, hi: int)
    requires max <= 0 && Ordered(sub, lo, hi) && 0 <= lo && hi <= 0x100 && !EdgesShort(sub, |s|, max)
    ensures Differ(DeliverSub(sub, s, max).entries, SubEntriesUpTo(sub, s, max))
    decreases sub
  {
    hide Differ, Keeps, Ordered;
    match sub
    case Split(cmp, less, greaterOrEqual) =>
      OrderedSplit(sub, lo, hi);
      var a, b := DeliverSub(less, s, max), SubEntriesUpTo(less, s, max);
      var r := Truncated(a.str, |s| % 0x1_0000);
      var c, d := DeliverSub(greaterOrEqual, r, max).entries, SubEntriesUpTo(greaterOrEqual, s, max);
      if !EdgesShort(less, |s|, max) {
        LongEdgesDiffer(less, s, max, lo, cmp);
        DifferBefore(a.entries, b, c, d);
      } else {
        ShortEdgesDeliver(less, s, max, lo, cmp);
        if |s| >= 0x1_0000 {
          OtherStart(greaterOrEqual, s, r, max);
        } else {
          BackTo(a.str, s);
          LongEdgesDiffer(greaterOrEqual, s, max, cmp, hi);
        }
        DifferAfter(b, c, d);
      }
    case Pair(key, target, rest) =>
      OrderedPair(sub, lo, hi);
      var a, b := Deliver(target, s + [key], max), EntriesUpTo(target, s + [key], max);
      var r := Truncated(a.str, |s| % 0x1_0000);
      var c, d := DeliverSub(rest, r, max).entries, SubEntriesUpTo(rest, s, max);
      if !BranchesShort(target, |s| + 1, max) {
        LongDiffers(target, s + [key], max);
        DifferBefore(a.entries, b, c, d);
      } else {
        ShortDelivers(target, s + [key], max);
        if |s| >= 0x1_0000 {
          OtherStart(rest, s, r, max);
        } else {
          BackTo(a.str, s);
          LongEdgesDiffer(rest, s, max, key + 1, hi);
        }
        DifferAfter(b, c, d);
      }
    case Last(key, target) =>
      OrderedLast(sub, lo, hi);
      LongDiffers(target, s + [key], max);
  }

  // ---------------------------------------------------------------------------------------------
  // All calls together.

  /**
   Calls for one entry after another, from a cursor on, deliver what the strings up to the maximal length should
   be, each once, in ascending order, if no branch with an edge to wait comes after 2^16 bytes or more; without a maximal
   length they do so only then.
   */
  method Enumerate(trieBytes: seq<int>, pos: int, remaining: int, max: int, ghost root: Tree) returns (all: seq<Entry>)
    requires Bytes(trieBytes) && CursorAt(trieBytes, pos, remaining, root) && Deliver(root, [], max).fits && Sorted(root)
    ensures all == Deliver(root, [], max).entries
    ensures BranchesShort(root, 0, max) ==> all == EntriesUpTo(root, [], max) && Ascending(all)
    ensures max <= 0 ==> (all == Entries(root, []) <==> BranchesShort(root, 0, max))
  {
    hide Deliver, Layout, BranchesShort, Ascending, Sorted, Entries, EntriesUpTo, Pending, Rest, Stacked, CursorAt;
    CursorInside(trieBytes, pos, remaining, root);
    var it := new Iterator(trieBytes, pos, remaining, max, root);
    all := [];
    ghost var wanted := it.ToDo().entries;
    var found := it.Next();
    while found
      invariant it.Valid() && fresh(it)
      invariant wanted == all + (if found then [Entry(it.str, it.value)] else []) + it.ToDo().entries
      invariant !found ==> it.ToDo().entries == []
      decreases |wanted| - |all|
    {
      all := all + [Entry(it.str, it.value)];
      found := it.Next();
    }
    AllDelivered(root, max);
  }

  /** Without a maximal length, all is right if and only if no such branch is there, whatever the branch lengths are. */
  lemma RightExactly(t: Tree)
    requires Sorted(t)
    ensures BranchesShort(t, 0, 0) <==> Deliver(t, [], 0).fits && Deliver(t, [], 0).entries == Entries(t, [])
  {
    hide Deliver, BranchesShort, Entries, Sorted;
    AllDelivered(t, 0);
    if !Deliver(t, [], 0).fits { DisturbedIsLong(t, 0); }
  }

  lemma CursorInside(b: seq<int>, pos: int, remaining: int, t: Tree)
    requires CursorAt(b, pos, remaining, t)
    ensures pos != NULL
  {
    if remaining < 0 { LayoutInside(b, pos, t); }
  }

  lemma AllDelivered(t: Tree, max: int)
    requires Sorted(t)
    ensures UpTo([], max)
    ensures BranchesShort(t, 0, max) ==>
      Deliver(t, [], max).entries == EntriesUpTo(t, [], max) && Ascending(EntriesUpTo(t, [], max))
    ensures max <= 0 ==> (Deliver(t, [], max).entries == Entries(t, []) <==> BranchesShort(t, 0, max))
  {
    hide Deliver, EntriesUpTo, BranchesShort, Entries, Ascending, Sorted;
    if BranchesShort(t, 0, max) {
      ShortDelivers(t, [], max);
      UpToAscend(t, [], max);
    } else if max <= 0 {
      LongDiffers(t, [], max);
    }
    if max <= 0 { Unlimited(t, [], max); }
  }
}
