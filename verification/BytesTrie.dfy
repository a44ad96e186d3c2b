/** The reader of a byte-serialised trie: a cursor that is moved by one byte, or by a string of them. */
module BytesTrieReader {
  import opened BytesTrieFormat

  datatype TrieResult = NoMatch | NoValue | FinalValue | IntermediateValue

  const NULL := -1

  ghost function ResultOf(t: Option<Tree>): TrieResult {
    match t
    case None => NoMatch
    case Some(Final(_)) => FinalValue
    case Some(Intermediate(_, _)) => IntermediateValue
    case _ => NoValue
  }

  ghost function StepFrom(t: Option<Tree>, byte: int): Option<Tree> {
    match t
    case None => None
    case Some(u) => Step(u, byte)
  }

  /** The cursor after the first `k` bytes of `s`. */
  ghost function WalkFrom(t: Option<Tree>, s: seq<int>, k: nat): Option<Tree>
    requires k <= |s|
  {
    if k == 0 then t else StepFrom(WalkFrom(t, s, k - 1), s[k - 1])
  }

  /** How one call reads its argument: negative bytes are made unsigned. */
  function Unsigned(inByte: int): (u: int)
    ensures -0x80 <= inByte <= 0xff ==> 0 <= u <= 0xff && (u - inByte) % 0x100 == 0
  {
    if inByte < 0 then inByte + 0x100 else inByte
  }

  /** A string ends at a zero byte if no length is given. */
  predicate HasLength(s: seq<int>, sLength: int) {
    if sLength < 0 then 0 in s else sLength <= |s|
  }

  ghost function Length(s: seq<int>, sLength: int): (n: nat)
    requires HasLength(s, sLength)
    ensures n <= |s| && (sLength >= 0 ==> n == sLength)
    ensures sLength < 0 ==> n < |s| && s[n] == 0 && forall k :: 0 <= k < n ==> s[k] != 0
  {
    if sLength >= 0 then sLength else if s[0] == 0 then 0 else 1 + Length(s[1..], sLength)
  }

  predicate Ended(s: seq<int>, sLength: int, i: nat)
    requires i <= |s| && (sLength < 0 ==> i < |s|)
  {
    if sLength < 0 then s[i] == 0 else i == sLength
  }

  class BytesTrie {
    const bytes: seq<int>
    var pos: int
    var remainingMatchLength: int
    /** The strings that can still follow. */
    ghost var tree: Option<Tree>

    ghost predicate Valid()
      reads this
    {
      && Bytes(bytes)
      && match tree
         case None => pos == NULL
         case Some(t) => pos >= 0 && CursorAt(bytes, pos, remainingMatchLength, t)
    }

    constructor (trieBytes: seq<int>, ghost root: Tree)
      requires Bytes(trieBytes) && Layout(trieBytes, 0, root)
      ensures Valid() && bytes == trieBytes && tree == Some(root)
    {
      bytes := trieBytes;
      pos := 0;
      remainingMatchLength := -1;
      tree := Some(root);
    }

    static function ValueResult(node: int): TrieResult {
      if node % 2 == 1 then FinalValue else IntermediateValue
    }

    /** The result for a cursor at a node, from its lead byte. */
    lemma ResultAt(t: Tree)
      requires Layout(bytes, pos, t)
      ensures 0 <= pos < |bytes|
      ensures ResultOf(Some(t)) == if bytes[pos] >= MIN_VALUE_LEAD then ValueResult(bytes[pos]) else NoValue
    {
    }

    method Current() returns (result: TrieResult)
      requires Valid()
      ensures result == ResultOf(tree)
    {
      if pos == NULL {
        return NoMatch;
      }
      if remainingMatchLength < 0 {
        ResultAt(tree.value);
        if bytes[pos] >= MIN_VALUE_LEAD {
          return ValueResult(bytes[pos]);
        }
      }
      return NoValue;
    }

    /** The value for the string so far, if there is one. */
    method GetValue() returns (value: int)
      requires Valid() && tree.Some? && Here(tree.value).Some?
      ensures Here(tree.value) == Some(value)
    {
      var leadByte := bytes[pos];
      value := ReadValue(bytes, pos + 1, leadByte / 2);
    }

    method Stop()
      modifies this
      ensures pos == NULL && tree == None && remainingMatchLength == old(remainingMatchLength)
    {
      pos := NULL;
      tree := None;
    }

    /** A branch node, past its lead byte: the edge for the byte is looked up. */
    method BranchNext(p: nat, len: int, inByte: int, ghost sub: Sub) returns (result: TrieResult)
      requires Bytes(bytes) && remainingMatchLength < 0
      requires p > 0 && Layout(bytes, p - 1, Branch(sub)) && len == bytes[p - 1]
      modifies this
      ensures Valid() && tree == SubStep(sub, inByte) && result == ResultOf(tree) && remainingMatchLength < 0
    {
      hide ReadValue, SkipValue, ValueTail, DeltaTail, JumpByDelta, SkipDelta, ToInt32;
      var q, length := p, len;
      if length == 0 {
        length := bytes[q];
        q := q + 1;
      }
      length := length + 1;
      ghost var s := sub;
      while length > MAX_BRANCH_LINEAR_SUB_NODE_LENGTH
        invariant length == Count(s) > 1 && SubLayout(bytes, q, s) && q >= 0
        invariant SubStep(sub, inByte) == SubStep(s, inByte)
        invariant remainingMatchLength < 0
        decreases s
      {
        if inByte < bytes[q] {
          length := length / 2;
          q := JumpByDelta(bytes, q + 1);
          s := s.less;
        } else {
          length := length - length / 2;
          q := SkipDelta(bytes, q + 1);
          s := s.greaterOrEqual;
        }
      }
      while length > 1
        invariant 1 <= length == Count(s) <= MAX_BRANCH_LINEAR_SUB_NODE_LENGTH && SubLayout(bytes, q, s) && q >= 0
        invariant SubStep(sub, inByte) == SubStep(s, inByte)
        invariant remainingMatchLength < 0
        decreases s
      {
        if inByte == bytes[q] {
          result := FollowEdge(q + 1, s);
          return;
        }
        SkipIsTail(q + 2, bytes[q + 1]);
        length := length - 1;
        q := SkipValue(q + 2, bytes[q + 1]);
        s := s.rest;
      }
      if inByte == bytes[q] {
        pos := q + 1;
        tree := Some(s.target);
        ResultAt(s.target);
        return if bytes[pos] >= MIN_VALUE_LEAD then ValueResult(bytes[pos]) else NoValue;
      } else {
        Stop();
        return NoMatch;
      }
    }

    /** The value of a key: a final value stays to be read, any other is the way to the next node. */
    method FollowEdge(q: nat, ghost s: Sub) returns (result: TrieResult)
      requires Bytes(bytes) && remainingMatchLength < 0 && q > 0 && s.Pair? && SubLayout(bytes, q - 1, s)
      modifies this
      ensures Valid() && tree == Some(s.target) && result == ResultOf(tree) && remainingMatchLength < 0
    {
      hide ToInt32, JumpByDelta, SkipDelta, SkipValue;
      var node := bytes[q];
      tree := Some(s.target);
      if node % 2 == 1 {
        pos := q;
        result := FinalValue;
      } else {
        var delta := ReadValue(bytes, q + 1, node / 2);
        pos := q + 1 + ValueTail(node / 2) + delta;
        ResultAt(s.target);
        result := if bytes[pos] >= MIN_VALUE_LEAD then ValueResult(bytes[pos]) else NoValue;
      }
    }

    method NextImpl(p: nat, inByte: int, ghost t: Tree) returns (result: TrieResult)
      requires Bytes(bytes) && remainingMatchLength < 0 && Layout(bytes, p, t)
      modifies this
      ensures Valid() && tree == Step(t, inByte) && result == ResultOf(tree)
    {
      hide ReadValue, ValueTail, ToInt32, SubLayout, Count;
      var q := p;
      ghost var u := t;
      while true
        invariant 0 <= q < |bytes| && Layout(bytes, q, u) && remainingMatchLength < 0
        invariant Step(t, inByte) == Step(u, inByte)
        decreases u
      {
        var node := bytes[q];
        if node < MIN_LINEAR_MATCH {
          result := BranchNext(q + 1, node, inByte, u.sub);
          return;
        } else if node < MIN_VALUE_LEAD {
          result := MatchFirst(q, inByte, u);
          return;
        } else if node % 2 == 1 {
          Stop();
          return NoMatch;
        } else {
          SkipIsTail(q + 1, node);
          q := SkipValue(q + 1, node);
          u := u.next;
          LayoutInRange(bytes, q, u);
        }
      }
    }

    /** The first byte of a linear-match node is compared. */
    method MatchFirst(q: nat, inByte: int, ghost t: Tree) returns (result: TrieResult)
      requires Bytes(bytes) && remainingMatchLength < 0 && t.Linear? && Layout(bytes, q, t)
      modifies this
      ensures Valid() && tree == Step(t, inByte) && result == ResultOf(tree)
    {
      hide ReadValue, ValueTail, ToInt32, SubLayout, Count;
      var length := bytes[q] - MIN_LINEAR_MATCH;
      assert bytes[q + 1] == t.str[0];
      if inByte == bytes[q + 1] {
        length := length - 1;
        remainingMatchLength := length;
        pos := q + 2;
        tree := Step(t, inByte);
        assert length >= 0 ==> bytes[pos..pos + length + 1] == t.str[1..];
        if length < 0 {
          ResultAt(t.next);
          if bytes[pos] >= MIN_VALUE_LEAD {
            return ValueResult(bytes[pos]);
          }
        }
        return NoValue;
      } else {
        Stop();
        return NoMatch;
      }
    }

    /** One more byte: the cursor moves to the strings that go on with it. */
    method Next(inByte: int) returns (result: TrieResult)
      requires Valid()
      modifies this
      ensures Valid() && tree == StepFrom(old(tree), Unsigned(inByte)) && result == ResultOf(tree)
    {
      hide ReadValue, ValueTail, ToInt32, SubLayout, Count;
      if pos == NULL {
        return NoMatch;
      }
      var byte := Unsigned(inByte);
      var length := remainingMatchLength;
      if length >= 0 {
        ghost var t := tree.value;
        assert bytes[pos] == t.str[0];
        if byte == bytes[pos] {
          length := length - 1;
          remainingMatchLength := length;
          pos := pos + 1;
          tree := Step(t, byte);
          assert length >= 0 ==> bytes[pos..pos + length + 1] == t.str[1..];
          if length < 0 {
            ResultAt(t.next);
            if bytes[pos] >= MIN_VALUE_LEAD {
              return ValueResult(bytes[pos]);
            }
          }
          return NoValue;
        } else {
          Stop();
          return NoMatch;
        }
      }
      result := NextImpl(pos, byte, tree.value);
    }

    /** The cursor when the input ends in the middle of the trie. */
    method Arrive(q: nat, length: int, ghost t: Tree) returns (result: TrieResult)
      requires Bytes(bytes) && CursorAt(bytes, q, length, t)
      modifies this
      ensures Valid() && tree == Some(t) && result == ResultOf(tree)
    {
      hide ReadValue, ValueTail, ToInt32, SubLayout, Count;
      remainingMatchLength := length;
      pos := q;
      tree := Some(t);
      if length < 0 {
        ResultAt(t);
        if bytes[pos] >= MIN_VALUE_LEAD {
          return ValueResult(bytes[pos]);
        }
      }
      return NoValue;
    }

    /**
     A string of bytes at once, up to a zero byte if no length is given. The bytes are taken as they are: none of them
     is made unsigned.
     */
    method NextString(s: seq<int>, sLength: int) returns (result: TrieResult)
      requires Valid() && HasLength(s, sLength)
      modifies this
      ensures Valid() && tree == WalkFrom(old(tree), s, Length(s, sLength)) && result == ResultOf(tree)
    {
      hide ReadValue, ValueTail, ToInt32, SubLayout, Count, Layout, CursorAt, Step, SubStep, Length;
      ghost var start, n := tree, Length(s, sLength);
      if Ended(s, sLength, 0) {
        result := Current();
        return;
      }
      if pos == NULL {
        StaysNone(start, s, 0, n);
        return NoMatch;
      }
      var i, q, length := 0, pos, remainingMatchLength;
      ghost var t := tree.value;
      while true
        invariant 0 <= i <= n && q >= 0 && CursorAt(bytes, q, length, t) && WalkFrom(start, s, i) == Some(t)
        decreases n - i
      {
        var inByte;
        while true
          invariant 0 <= i <= n && q >= 0 && CursorAt(bytes, q, length, t) && WalkFrom(start, s, i) == Some(t)
          decreases n - i
        {
          if Ended(s, sLength, i) {
            result := Arrive(q, length, t);
            return;
          }
          inByte := s[i];
          i := i + 1;
          if length < 0 {
            remainingMatchLength := length;
            break;
          }
          PendingByte(bytes, q, length, t, inByte);
          if inByte != bytes[q] {
            StaysNone(start, s, i, n);
            Stop();
            return NoMatch;
          }
          q := q + 1;
          length := length - 1;
          t := Step(t, inByte).value;
        }
        AtNode(bytes, q, length, t);
        while true
          invariant 0 < i <= n && inByte == s[i - 1] && WalkFrom(start, s, i) == Step(t, inByte)
          invariant 0 <= q < |bytes| && Layout(bytes, q, t) && remainingMatchLength < 0
          decreases n - i, t
        {
          NodeStep(bytes, q, t, inByte);
          var node := bytes[q];
          if node < MIN_LINEAR_MATCH {
            result := BranchNext(q + 1, node, inByte, t.sub);
            if result == NoMatch {
              StaysNone(start, s, i, n);
              return;
            }
            if Ended(s, sLength, i) {
              return;
            }
            inByte := s[i];
            i := i + 1;
            if result == FinalValue {
              NothingAfterFinal(tree.value, inByte);
              StaysNone(start, s, i, n);
              Stop();
              return NoMatch;
            }
            q := pos;
            t := tree.value;
            AtNode(bytes, q, remainingMatchLength, t);
          } else if node < MIN_VALUE_LEAD {
            length := node - MIN_LINEAR_MATCH;
            if inByte != bytes[q + 1] {
              StaysNone(start, s, i, n);
              Stop();
              return NoMatch;
            }
            q := q + 2;
            length := length - 1;
            t := Step(t, inByte).value;
            break;
          } else if node % 2 == 1 {
            StaysNone(start, s, i, n);
            Stop();
            return NoMatch;
          } else {
            SkipIsTail(q + 1, node);
            q := SkipValue(q + 1, node);
            t := t.next;
          }
        }
      }
    }

    /** All bytes that can come next, and how many they are. */
    method GetNextBytes() returns (out: seq<int>, count: int)
      requires Valid()
      ensures out == NextBytes(tree) && count == |out|
    {
      hide ReadValue, ValueTail, ToInt32, SubLayout;
      if pos == NULL {
        return [], 0;
      }
      if remainingMatchLength >= 0 {
        assert bytes[pos] == tree.value.str[0];
        return [bytes[pos]], 1;
      }
      var p := pos;
      ghost var t := tree.value;
      var node := bytes[p];
      p := p + 1;
      if node >= MIN_VALUE_LEAD {
        if node % 2 == 1 {
          return [], 0;
        } else {
          SkipIsTail(p, node);
          p := SkipValue(p, node);
          t := t.next;
          LayoutInRange(bytes, p, t);
          node := bytes[p];
          p := p + 1;
        }
      }
      if node < MIN_LINEAR_MATCH {
        if node == 0 {
          node := bytes[p];
          p := p + 1;
        }
        node := node + 1;
        out := GetNextBranchBytes(p, node, [], t.sub);
        count := node;
      } else {
        assert bytes[p] == t.str[0];
        out, count := [bytes[p]], 1;
      }
    }

    method GetNextBranchBytes(p: nat, len: int, before: seq<int>, ghost sub: Sub) returns (out: seq<int>)
      requires SubLayout(bytes, p, sub) && len == Count(sub) > 1 && Bytes(bytes)
      ensures out == before + Keys(sub)
      decreases sub
    {
      hide ReadValue, ToInt32, ValueTail, DeltaTail, JumpByDelta, SkipDelta, SkipValue, Layout;
      var q, length := p, len;
      ghost var s := sub;
      out := before;
      while length > MAX_BRANCH_LINEAR_SUB_NODE_LENGTH
        invariant SubLayout(bytes, q, s) && length == Count(s) > 1 && q >= 0
        invariant s == sub || s < sub
        invariant before + Keys(sub) == out + Keys(s)
        decreases s
      {
        q := q + 1;
        Associate(out, Keys(s.less), Keys(s.greaterOrEqual));
        out := GetNextBranchBytes(JumpByDelta(bytes, q), length / 2, out, s.less);
        length := length - length / 2;
        q := SkipDelta(bytes, q);
        s := s.greaterOrEqual;
      }
      out := AppendKeys(q, length, out, s);
    }

    /** The keys of a list of edges, one by one. */
    method AppendKeys(p: nat, len: int, before: seq<int>, ghost sub: Sub) returns (out: seq<int>)
      requires SubLayout(bytes, p, sub) && 1 < len == Count(sub) <= MAX_BRANCH_LINEAR_SUB_NODE_LENGTH && Bytes(bytes)
      ensures out == before + Keys(sub)
    {
      hide ReadValue, ToInt32, ValueTail, DeltaTail, JumpByDelta, SkipDelta, SkipValue, Layout;
      var q, length := p, len;
      ghost var s := sub;
      out := before;
      while length > 1
        invariant SubLayout(bytes, q, s) && 1 <= length == Count(s) <= MAX_BRANCH_LINEAR_SUB_NODE_LENGTH && q >= 0
        invariant before + Keys(sub) == out + Keys(s)
        decreases s
      {
        Associate(out, [bytes[q]], Keys(s.rest));
        out := out + [bytes[q]];
        SkipIsTail(q + 2, bytes[q + 1]);
        q := SkipValue(q + 2, bytes[q + 1]);
        length := length - 1;
        s := s.rest;
      }
      out := out + [bytes[q]];
    }
  }

  lemma Associate(a: seq<int>, b: seq<int>, c: seq<int>)
    ensures a + (b + c) == (a + b) + c
  {
  }

  ghost function Keys(s: Sub): (keys: seq<int>)
    ensures |keys| == Count(s)
  {
    match s
    case Split(_, less, greaterOrEqual) => Keys(less) + Keys(greaterOrEqual)
    case Pair(key, _, rest) => [key] + Keys(rest)
    case Last(key, _) => [key]
  }

  ghost function NextBytes(t: Option<Tree>): seq<int> {
    match t
    case None => []
    case Some(Final(_)) => []
    case Some(Intermediate(_, Branch(sub))) => Keys(sub)
    case Some(Branch(sub)) => Keys(sub)
    case Some(Intermediate(_, Linear(str, _))) => str[..if str == [] then 0 else 1]
    case Some(Linear(str, _)) => str[..if str == [] then 0 else 1]
    case _ => []
  }

  lemma {:induction false} KeysMeaning(s: Sub, lo: int, hi: int)
    requires Ordered(s, lo, hi)
    ensures forall k :: 0 <= k < |Keys(s)| ==> lo <= Keys(s)[k] < hi
    ensures forall j, k :: 0 <= j < k < |Keys(s)| ==> Keys(s)[j] < Keys(s)[k]
    ensures forall byte :: SubStep(s, byte).Some? <==> byte in Keys(s)
  {
    match s
    case Split(cmp, less, greaterOrEqual) =>
      KeysMeaning(less, lo, cmp);
      KeysMeaning(greaterOrEqual, cmp, hi);
    case Pair(key, _, rest) => KeysMeaning(rest, key + 1, hi);
    case Last(_, _) =>
  }

  /** The bytes that can come next are those that match, each once, in ascending order. */
  lemma NextBytesMeaning(t: Tree)
    requires Sorted(t)
    ensures
      var n := NextBytes(Some(t));
      && (forall j, k :: 0 <= j < k < |n| ==> n[j] < n[k])
      && (forall byte :: byte in n <==> Step(t, byte).Some?)
  {
    var u := if t.Intermediate? then t.next else t;
    if u.Branch? { KeysMeaning(u.sub, 0, 0x100); }
  }

  lemma {:induction false} StaysNone(t: Option<Tree>, s: seq<int>, i: nat, k: nat)
    requires i <= k <= |s| && WalkFrom(t, s, i) == None
    ensures WalkFrom(t, s, k) == None
  {
    if i < k { StaysNone(t, s, i, k - 1); }
  }

  lemma AtNode(b: seq<int>, q: int, length: int, t: Tree)
    requires CursorAt(b, q, length, t) && length < 0
    ensures Layout(b, q, t) && 0 <= q < |b|
  {
  }

  lemma NothingAfterFinal(t: Tree, byte: int)
    requires ResultOf(Some(t)) == FinalValue
    ensures Step(t, byte) == None
  {
  }

  /** A byte in the middle of a linear-match node. */
  lemma PendingByte(b: seq<int>, q: nat, length: int, t: Tree, byte: int)
    requires CursorAt(b, q, length, t) && length >= 0
    ensures q < |b| && (Step(t, byte).Some? <==> byte == b[q])
    ensures byte == b[q] ==> CursorAt(b, q + 1, length - 1, Step(t, byte).value)
  {
    hide ReadValue, ValueTail, ToInt32, SubLayout, Count;
    assert b[q] == t.str[0];
    if byte == b[q] && length > 0 {
      assert b[q + 1..q + 1 + length] == t.str[1..];
    }
  }

  /** What one byte does at a node, by the kinds of node. */
  lemma NodeStep(b: seq<int>, q: nat, t: Tree, byte: int)
    requires Bytes(b) && Layout(b, q, t)
    ensures q < |b|
    ensures b[q] < MIN_LINEAR_MATCH ==> t.Branch? && Step(t, byte) == SubStep(t.sub, byte)
    ensures MIN_LINEAR_MATCH <= b[q] < MIN_VALUE_LEAD ==>
      && t.Linear? && q + 1 < |b| && (Step(t, byte).Some? <==> byte == b[q + 1])
      && (byte == b[q + 1] ==> CursorAt(b, q + 2, b[q] - MIN_LINEAR_MATCH - 1, Step(t, byte).value))
    ensures b[q] >= MIN_VALUE_LEAD && b[q] % 2 == 1 ==> Step(t, byte) == None
    ensures b[q] >= MIN_VALUE_LEAD && b[q] % 2 == 0 ==>
      && t.Intermediate? && Step(t, byte) == Step(t.next, byte)
      && q + 1 + ValueTail(b[q] / 2) < |b| && Layout(b, q + 1 + ValueTail(b[q] / 2), t.next)
  {
    hide ReadValue, ValueTail, ToInt32, SubLayout, Count;
    if t.Linear? {
      var n := |t.str|;
      assert b[q + 1] == t.str[0];
      assert n > 1 ==> b[q + 2..q + 1 + n] == t.str[1..];
    }
    if t.Intermediate? {
      LayoutInRange(b, AfterValue(b, q), t.next);
    }
  }

  lemma LayoutInRange(b: seq<int>, pos: int, t: Tree)
    requires Layout(b, pos, t)
    ensures 0 <= pos < |b|
  {
  }

  // ---------------------------------------------------------------------------------------------
  // One string, or its bytes one by one.

  ghost predicate ByteTree(t: Tree)
    decreases t
  {
    match t
    case Final(_) => true
    case Intermediate(_, next) => ByteTree(next)
    case Linear(str, next) => Bytes(str) && ByteTree(next)
    case Branch(sub) => ByteSub(sub)
  }

  ghost predicate ByteSub(s: Sub)
    decreases s
  {
    match s
    case Split(_, less, greaterOrEqual) => ByteSub(less) && ByteSub(greaterOrEqual)
    case Pair(key, target, rest) => key >= 0 && ByteTree(target) && ByteSub(rest)
    case Last(key, target) => key >= 0 && ByteTree(target)
  }

  lemma {:induction false} LayoutHasBytes(b: seq<int>, pos: int, t: Tree)
    requires Bytes(b) && Layout(b, pos, t)
    ensures ByteTree(t)
    decreases t
  {
    match t
    case Final(_) =>
    case Intermediate(_, next) => LayoutHasBytes(b, AfterValue(b, pos), next);
    case Linear(str, next) =>
      assert forall k :: 0 <= k < |str| ==> str[k] == b[pos + 1 + k];
      LayoutHasBytes(b, pos + 1 + |str|, next);
    case Branch(sub) => SubLayoutHasBytes(b, if b[pos] != 0 then pos + 1 else pos + 2, sub);
  }

  lemma {:induction false} SubLayoutHasBytes(b: seq<int>, pos: int, s: Sub)
    requires Bytes(b) && SubLayout(b, pos, s)
    ensures ByteSub(s)
    decreases s
  {
    match s
    case Split(_, less, greaterOrEqual) =>
      SubLayoutHasBytes(b, JumpByDelta(b, pos + 1), less);
      SubLayoutHasBytes(b, SkipDelta(b, pos + 1), greaterOrEqual);
    case Pair(_, target, rest) =>
      LayoutHasBytes(b, TargetOf(b, pos + 1), target);
      SubLayoutHasBytes(b, AfterValue(b, pos + 1), rest);
    case Last(_, target) => LayoutHasBytes(b, pos + 1, target);
  }

  lemma {:induction false} StepBytes(t: Tree, byte: int)
    requires ByteTree(t)
    ensures byte < 0 ==> Step(t, byte) == None
    ensures Step(t, byte).Some? ==> ByteTree(Step(t, byte).value)
    decreases t
  {
    match t
    case Intermediate(_, next) => StepBytes(next, byte);
    case Branch(sub) => SubStepBytes(sub, byte);
    case _ =>
  }

  lemma {:induction false} SubStepBytes(s: Sub, byte: int)
    requires ByteSub(s)
    ensures byte < 0 ==> SubStep(s, byte) == None
    ensures SubStep(s, byte).Some? ==> ByteTree(SubStep(s, byte).value)
    decreases s
  {
    match s
    case Split(cmp, less, greaterOrEqual) =>
      SubStepBytes(less, byte);
      SubStepBytes(greaterOrEqual, byte);
    case Pair(_, _, rest) => SubStepBytes(rest, byte);
    case Last(_, _) =>
  }

  ghost function AllUnsigned(s: seq<int>): (u: seq<int>)
    ensures |u| == |s| && forall k :: 0 <= k < |s| ==> u[k] == Unsigned(s[k])
  {
    seq(|s|, k requires 0 <= k < |s| => Unsigned(s[k]))
  }

  lemma {:induction false} WalkBytes(t: Tree, s: seq<int>, k: nat)
    requires ByteTree(t) && k <= |s|
    ensures WalkFrom(Some(t), s, k).Some? ==> ByteTree(WalkFrom(Some(t), s, k).value)
    ensures WalkFrom(Some(t), s, k).Some? ==> forall j :: 0 <= j < k ==> s[j] >= 0
  {
    if k > 0 {
      WalkBytes(t, s, k - 1);
      var before := WalkFrom(Some(t), s, k - 1);
      if before.Some? { StepBytes(before.value, s[k - 1]); }
    }
  }

  lemma {:induction false} WalkUnsigned(t: Option<Tree>, s: seq<int>, k: nat)
    requires k <= |s| && forall j :: 0 <= j < k ==> s[j] >= 0
    ensures WalkFrom(t, s, k) == WalkFrom(t, AllUnsigned(s), k)
  {
    if k > 0 { WalkUnsigned(t, s, k - 1); }
  }

  /**
   A string at once leaves the cursor where its bytes one by one would, if and only if none of them is
   negative, or no string goes on with them anyway.
   */
  lemma StringOrBytes(t: Tree, s: seq<int>)
    requires ByteTree(t)
    ensures
      WalkFrom(Some(t), s, |s|) == WalkFrom(Some(t), AllUnsigned(s), |s|)
      <==> (forall j :: 0 <= j < |s| ==> s[j] >= 0) || WalkFrom(Some(t), AllUnsigned(s), |s|) == None
  {
    WalkBytes(t, s, |s|);
    if forall j :: 0 <= j < |s| ==> s[j] >= 0 {
      WalkUnsigned(Some(t), s, |s|);
    }
  }

  /** With the byte 0xC3, given as -61, the string is not found, and the byte is. */
  lemma NegativeByteIsLost()
    ensures
      var t := Linear([0xc3], Final(0));
      Layout([0x10, 0xc3, 0x21], 0, t) && WalkFrom(Some(t), [-61], 1) == None
      && WalkFrom(Some(t), AllUnsigned([-61]), 1) == Some(Final(0))
  {
    var b := [0x10, 0xc3, 0x21];
    assert b[1..2] == [0xc3];
    assert Layout(b, 2, Final(0));
    assert WalkFrom(Some(Linear([0xc3], Final(0))), AllUnsigned([-61]), 0).Some?;
  }

  lemma {:induction false} WalkFromIsWalk(t: Tree, s: seq<int>, k: nat)
    requires k <= |s|
    ensures WalkFrom(Some(t), s, k) == Walk(t, s, k)
  {
    if k > 0 { WalkFromIsWalk(t, s, k - 1); }
  }

  /**
   What the results mean, for a trie whose branches are in order: a value for `s`, exactly if `s` is one of its
   strings; no match, exactly if none of its strings begins with `s`.
   */
  lemma ResultMeaning(t: Tree, s: seq<int>)
    requires Sorted(t)
    ensures
      var r := ResultOf(WalkFrom(Some(t), s, |s|));
      && (r in {FinalValue, IntermediateValue} <==> exists v :: Entry(s, v) in Entries(t, []))
      && (r == NoMatch <==> !exists e :: e in Entries(t, []) && s <= e.str)
  {
    WalkFromIsWalk(t, s, |s|);
    WalkArrives(t, s);
    var u := Walk(t, s, |s|);
    if u.Some? && Here(u.value).Some? {
      WalkFindsValue(t, s, Here(u.value).value);
    }
    forall v | Entry(s, v) in Entries(t, []) ensures u.Some? && Here(u.value) == Some(v) {
      WalkFindsValue(t, s, v);
    }
  }
}
