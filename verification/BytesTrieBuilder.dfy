/**
 The builder of a byte-serialised trie. Bytes are written into a buffer from its end to its start, so that
 a node is written after all that it refers to.
 */
module BytesTrieWriter {
  import opened BytesTrieFormat

  type Byte = x: int | 0 <= x <= 0xff

  /** A conversion to a byte. */
  function Char(x: int): Byte { x % 0x100 }

  // ---------------------------------------------------------------------------------------------
  // What has been written stays valid when more is written in front of it.

  lemma ValueMoves(p: seq<int>, b: seq<int>, pos: int)
    requires ValueAt(b, pos)
    ensures ValueAt(p + b, |p| + pos) && (p + b)[|p| + pos] == b[pos] && ValueThere(p + b, |p| + pos) == ValueThere(b, pos)
    ensures AfterValue(p + b, |p| + pos) == |p| + AfterValue(b, pos)
    ensures TargetOf(p + b, |p| + pos) == |p| + TargetOf(b, pos)
  {
    hide ToInt32;
    assert forall k :: 0 <= k < |b| ==> (p + b)[|p| + k] == b[k];
  }

  lemma DeltaMoves(p: seq<int>, b: seq<int>, pos: nat)
    requires pos < |b| && 0 <= b[pos] <= 0xff && pos + 1 + DeltaTail(b[pos]) <= |b|
    ensures (p + b)[|p| + pos] == b[pos]
    ensures JumpByDelta(p + b, |p| + pos) == |p| + JumpByDelta(b, pos)
    ensures SkipDelta(p + b, |p| + pos) == |p| + SkipDelta(b, pos)
  {
    hide ToInt32;
    assert forall k :: 0 <= k < |b| ==> (p + b)[|p| + k] == b[k];
  }

  /** A trie does not depend on its position. */
  lemma {:induction false} LayoutMoves(p: seq<int>, b: seq<int>, pos: int, t: Tree)
    requires Layout(b, pos, t)
    ensures Layout(p + b, |p| + pos, t)
    decreases t
  {
    hide ValueAt, ValueThere, AfterValue, TargetOf, SubLayout, JumpByDelta, SkipDelta, ReadValue, ValueTail;
    assert forall k :: 0 <= k < |b| ==> (p + b)[|p| + k] == b[k];
    match t
    case Final(_) => ValueMoves(p, b, pos);
    case Intermediate(_, next) =>
      ValueMoves(p, b, pos);
      LayoutMoves(p, b, AfterValue(b, pos), next);
    case Linear(str, next) =>
      LayoutMoves(p, b, pos + 1 + |str|, next);
      assert (p + b)[|p| + pos + 1..|p| + pos + 1 + |str|] == b[pos + 1..pos + 1 + |str|];
    case Branch(sub) =>
      SubLayoutMoves(p, b, if b[pos] != 0 then pos + 1 else pos + 2, sub);
      assert (p + b)[|p| + pos] == b[pos] && (p + b)[|p| + pos + 1] == b[pos + 1];
  }

  lemma {:induction false} SubLayoutMoves(p: seq<int>, b: seq<int>, pos: int, s: Sub)
    requires SubLayout(b, pos, s)
    ensures SubLayout(p + b, |p| + pos, s)
    decreases s
  {
    hide ValueAt, ValueThere, AfterValue, TargetOf, Layout, JumpByDelta, SkipDelta, ReadValue, ValueTail;
    assert (p + b)[|p| + pos] == b[pos];
    match s
    case Split(_, less, greaterOrEqual) =>
      DeltaMoves(p, b, pos + 1);
      SubLayoutMoves(p, b, JumpByDelta(b, pos + 1), less);
      SubLayoutMoves(p, b, SkipDelta(b, pos + 1), greaterOrEqual);
    case Pair(_, target, rest) =>
      ValueMoves(p, b, pos + 1);
      LayoutMoves(p, b, TargetOf(b, pos + 1), target);
      SubLayoutMoves(p, b, AfterValue(b, pos + 1), rest);
    case Last(_, target) => LayoutMoves(p, b, pos + 1, target);
  }

  // ---------------------------------------------------------------------------------------------
  // Values.

  /** The bytes of a value, by its size. */
  function ValueBytes(i: int, isFinal: bool): seq<int> {
    var final := if isFinal then 1 else 0;
    if 0 <= i <= MAX_ONE_BYTE_VALUE then [(MIN_ONE_BYTE_VALUE_LEAD + i) * 2 + final]
    else if i < 0 || i > 0xffffff then
      [FIVE_BYTE_VALUE_LEAD * 2 + final, Char(i / 0x100_0000), Char(i / 0x1_0000), Char(i / 0x100), Char(i)]
    else if i <= MAX_TWO_BYTE_VALUE then [(MIN_TWO_BYTE_VALUE_LEAD + i / 0x100) * 2 + final, Char(i)]
    else if i <= MAX_THREE_BYTE_VALUE then
      [(MIN_THREE_BYTE_VALUE_LEAD + i / 0x1_0000) * 2 + final, Char(i / 0x100), Char(i)]
    else [FOUR_BYTE_VALUE_LEAD * 2 + final, Char(i / 0x1_0000), Char(i / 0x100), Char(i)]
  }

  /** How many they are. */
  function ValueSize(i: int): nat {
    if 0 <= i <= MAX_ONE_BYTE_VALUE then 1
    else if i < 0 || i > 0xffffff then 5
    else if i <= MAX_TWO_BYTE_VALUE then 2
    else if i <= MAX_THREE_BYTE_VALUE then 3
    else 4
  }

  lemma ValueBytesSize(i: int, isFinal: bool)
    ensures |ValueBytes(i, isFinal)| == ValueSize(i)
  {
  }

  lemma OneByteValue(i: int, isFinal: bool)
    requires 0 <= i <= MAX_ONE_BYTE_VALUE
    ensures ValueBytes(i, isFinal) == [Char((MIN_ONE_BYTE_VALUE_LEAD + i) * 2 + if isFinal then 1 else 0)]
  {
  }

  /** The first `n` bytes of `w` are a value, and the rest is what was there before. */
  ghost predicate WrittenValue(before: seq<int>, w: seq<int>, n: nat, isFinal: bool) {
    && n <= |w| && w[n..] == before && ValueAt(w, 0) && AfterValue(w, 0) == n
    && (w[0] % 2 == 1 <==> isFinal)
  }

  lemma Digits(i: int)
    ensures i == i / 0x100 * 0x100 + Char(i)
    ensures i == i / 0x1_0000 * 0x1_0000 + Char(i / 0x100) * 0x100 + Char(i)
    ensures 0 <= i <= 0xffffff ==> Char(i / 0x1_0000) == i / 0x1_0000
  {
  }

  lemma FourDigits(i: int)
    requires -0x8000_0000 <= i < 0x8000_0000
    ensures ToInt32(Char(i / 0x100_0000) * 0x100_0000 + Char(i / 0x1_0000) * 0x1_0000 + Char(i / 0x100) * 0x100 + Char(i)) == i
  {
    Digits(i);
    Digits(i / 0x1_0000);
    assert i / 0x1_0000 / 0x100 == i / 0x100_0000;
  }

  lemma OneByteReads(i: int, w: seq<int>, isFinal: bool, b: seq<int>)
    requires 0 <= i <= MAX_ONE_BYTE_VALUE && b == ValueBytes(i, isFinal) + w
    ensures WrittenValue(w, b, 1, isFinal) && ValueThere(b, 0) == i
  {
    assert b[1..] == w;
  }

  lemma TwoBytesRead(i: int, w: seq<int>, isFinal: bool, b: seq<int>)
    requires MAX_ONE_BYTE_VALUE < i <= MAX_TWO_BYTE_VALUE && b == ValueBytes(i, isFinal) + w
    ensures WrittenValue(w, b, 2, isFinal) && ValueThere(b, 0) == i
  {
    assert b[2..] == w;
    assert b[0] / 2 == MIN_TWO_BYTE_VALUE_LEAD + i / 0x100;
    Digits(i);
  }

  lemma ThreeBytesRead(i: int, w: seq<int>, isFinal: bool, b: seq<int>)
    requires MAX_TWO_BYTE_VALUE < i <= MAX_THREE_BYTE_VALUE && b == ValueBytes(i, isFinal) + w
    ensures WrittenValue(w, b, 3, isFinal) && ValueThere(b, 0) == i
  {
    assert b[3..] == w;
    assert b[0] / 2 == MIN_THREE_BYTE_VALUE_LEAD + i / 0x1_0000;
    Digits(i);
  }

  lemma FourBytesRead(i: int, w: seq<int>, isFinal: bool, b: seq<int>)
    requires MAX_THREE_BYTE_VALUE < i <= 0xffffff && b == ValueBytes(i, isFinal) + w
    ensures WrittenValue(w, b, 4, isFinal) && ValueThere(b, 0) == i
  {
    assert b[4..] == w;
    assert b[0] / 2 == FOUR_BYTE_VALUE_LEAD;
    Digits(i);
  }

  lemma FiveBytesRead(i: int, w: seq<int>, isFinal: bool, b: seq<int>)
    requires (i < 0 || i > 0xffffff) && b == ValueBytes(i, isFinal) + w
    ensures WrittenValue(w, b, 5, isFinal)
    ensures -0x8000_0000 <= i < 0x8000_0000 ==> ValueThere(b, 0) == i
  {
    assert b[5..] == w;
    assert b[0] / 2 == FIVE_BYTE_VALUE_LEAD;
    if -0x8000_0000 <= i < 0x8000_0000 { FourDigits(i); }
  }

  /** A value is read back from its bytes, whatever comes after it. */
  lemma ValueRoundTrip(i: int, w: seq<int>, isFinal: bool, b: seq<int>)
    requires b == ValueBytes(i, isFinal) + w
    ensures WrittenValue(w, b, |ValueBytes(i, isFinal)|, isFinal)
    ensures -0x8000_0000 <= i < 0x8000_0000 ==> ValueThere(b, 0) == i
  {
    hide WrittenValue, ValueThere;
    if 0 <= i <= MAX_ONE_BYTE_VALUE { OneByteReads(i, w, isFinal, b); }
    else if i < 0 || i > 0xffffff { FiveBytesRead(i, w, isFinal, b); }
    else if i <= MAX_TWO_BYTE_VALUE { TwoBytesRead(i, w, isFinal, b); }
    else if i <= MAX_THREE_BYTE_VALUE { ThreeBytesRead(i, w, isFinal, b); }
    else { FourBytesRead(i, w, isFinal, b); }
  }

  // ---------------------------------------------------------------------------------------------
  // Jumps.

  /** The first `n` bytes of `w` are a jump delta, and the rest is what was there before. */
  ghost predicate WrittenDelta(before: seq<int>, w: seq<int>, n: nat) {
    && 0 < n <= |w| && w[n..] == before && 0 <= w[0] <= 0xff && n == 1 + DeltaTail(w[0]) && SkipDelta(w, 0) == n
  }

  /** The bytes of a delta that fits into three of them. */
  function DeltaBytes(i: nat): seq<int>
    requires i <= MAX_THREE_BYTE_DELTA
  {
    if i <= MAX_ONE_BYTE_DELTA then [i]
    else if i <= MAX_TWO_BYTE_DELTA then [MIN_TWO_BYTE_DELTA_LEAD + i / 0x100, Char(i)]
    else [MIN_THREE_BYTE_DELTA_LEAD + i / 0x1_0000, Char(i / 0x100), Char(i)]
  }

  lemma DeltaRoundTrip(i: nat, before: seq<int>, w: seq<int>)
    requires i <= MAX_THREE_BYTE_DELTA && w == DeltaBytes(i) + before
    ensures WrittenDelta(before, w, |DeltaBytes(i)|)
    ensures JumpByDelta(w, 0) == |DeltaBytes(i)| + i
  {
    assert w[|DeltaBytes(i)|..] == before;
    Digits(i);
  }

  /** How many bytes are written for a delta. */
  function DeltaSize(i: nat): (n: nat)
    ensures n > 0
  {
    if i <= MAX_ONE_BYTE_DELTA then 1
    else if i <= MAX_TWO_BYTE_DELTA then 2
    else if i <= MAX_THREE_BYTE_DELTA then 3
    else if i <= 0xffffff then 4
    else 5
  }

  /** What is written for a larger delta: one byte is overwritten by the next, and the bytes after it are not set. */
  ghost predicate LongDelta(i: nat, w: seq<int>, n: nat)
    requires i > MAX_THREE_BYTE_DELTA
  {
    if i <= 0xffffff then
      n == 4 <= |w| && w[0] == FOUR_BYTE_DELTA_LEAD && w[1] == Char(i / 0x100) && w[3] == Char(i)
    else
      n == 5 <= |w| && w[0] == FIVE_BYTE_DELTA_LEAD && w[1] == Char(i / 0x100) && w[4] == Char(i)
  }

  /**
   Such a jump arrives if and only if the digits of the delta, to base 256, are such that the bytes that
   were written, and those that were not, happen to be right.
   */
  lemma LongDeltaArrives(i: nat, w: seq<int>, n: nat)
    requires MAX_THREE_BYTE_DELTA < i < 0x8000_0000 && LongDelta(i, w, n) && Bytes(w)
    ensures i <= 0xffffff ==>
      (JumpByDelta(w, 0) == n + i <==> i / 0x1_0000 == Char(i / 0x100) && w[2] == Char(i / 0x100))
    ensures i > 0xffffff ==>
      (JumpByDelta(w, 0) == n + i <==>
        i / 0x100_0000 == Char(i / 0x100) && w[2] == Char(i / 0x1_0000) && w[3] == Char(i / 0x100))
  {
    if i <= 0xffffff {
      Digits(i);
      SameThree(w[1], w[2], w[3], i / 0x1_0000, Char(i / 0x100), Char(i));
    } else {
      FourDigits(i);
      assert Char(i / 0x100_0000) == i / 0x100_0000;
      SameFour(w[1], w[2], w[3], w[4], i / 0x100_0000, Char(i / 0x1_0000), Char(i / 0x100), Char(i));
    }
  }

  lemma SameThree(a: int, b: int, c: int, x: int, y: int, z: int)
    requires 0 <= a <= 0xff && 0 <= b <= 0xff && 0 <= c <= 0xff && 0 <= x <= 0xff && 0 <= y <= 0xff && 0 <= z <= 0xff
    ensures a * 0x1_0000 + b * 0x100 + c == x * 0x1_0000 + y * 0x100 + z <==> a == x && b == y && c == z
  {
  }

  lemma SameFour(a: int, b: int, c: int, d: int, x: int, y: int, z: int, u: int)
    requires 0 <= a <= 0xff && 0 <= b <= 0xff && 0 <= c <= 0xff && 0 <= d <= 0xff
    requires 0 <= x < 0x80 && 0 <= y <= 0xff && 0 <= z <= 0xff && 0 <= u <= 0xff
    ensures
      ToInt32(a * 0x100_0000 + b * 0x1_0000 + c * 0x100 + d) == ToInt32(x * 0x100_0000 + y * 0x1_0000 + z * 0x100 + u)
      <==> a == x && b == y && c == z && d == u
  {
  }

  /** The first delta that is too long never arrives, whatever the byte that is not set. */
  lemma FirstLongDeltaFails(w: seq<int>)
    requires LongDelta(MAX_THREE_BYTE_DELTA + 1, w, 4) && Bytes(w)
    ensures JumpByDelta(w, 0) != 4 + MAX_THREE_BYTE_DELTA + 1
  {
    LongDeltaArrives(MAX_THREE_BYTE_DELTA + 1, w, 4);
  }

  // ---------------------------------------------------------------------------------------------

  class Buffer {
    var bytes: array<Byte>
    var bytesLength: nat

    ghost predicate Valid()
      reads this, bytes
    {
      bytesLength <= bytes.Length && bytes.Length > 0
    }

    /** All that was written, the last byte written first. */
    ghost function Written(): (w: seq<int>)
      reads this, bytes
      requires Valid()
      ensures |w| == bytesLength && Bytes(w)
    {
      bytes[bytes.Length - bytesLength..]
    }

    constructor (capacity: nat)
      requires capacity > 0
      ensures Valid() && Written() == [] && fresh(bytes)
    {
      bytes := new Byte[capacity];
      bytesLength := 0;
    }

    method EnsureCapacity(length: nat)
      requires Valid()
      modifies this
      ensures Valid() && bytes.Length >= length && bytesLength == old(bytesLength)
      ensures Written() == old(Written()) && (bytes == old(bytes) || fresh(bytes))
    {
      if length > bytes.Length {
        var newCapacity := 2 * bytes.Length;
        while newCapacity <= length
          invariant newCapacity > bytes.Length
          decreases length - newCapacity
        {
          newCapacity := 2 * newCapacity;
        }
        bytes := CopyTail(bytes, bytesLength, newCapacity);
      }
    }

    /** A larger buffer, with the same `n` bytes at its end. */
    static method CopyTail(a: array<Byte>, n: nat, newCapacity: nat) returns (b: array<Byte>)
      requires n <= a.Length <= newCapacity
      ensures fresh(b) && b.Length == newCapacity && b[newCapacity - n..] == a[a.Length - n..]
    {
      b := new Byte[newCapacity];
      var from, to := a.Length - n, newCapacity - n;
      for k := 0 to n
        invariant b[to..to + k] == a[from..from + k]
      {
        b[to + k] := a[from + k];
        assert b[to..to + k + 1] == b[to..to + k] + [a[from + k]];
        assert a[from..from + k + 1] == a[from..from + k] + [a[from + k]];
      }
      assert b[to..] == b[to..to + n] && a[from..] == a[from..from + n];
    }

    method WriteByte(byte: int) returns (offset: nat)
      requires Valid()
      modifies this, bytes
      ensures Valid() && (bytes == old(bytes) || fresh(bytes))
      ensures Written() == [Char(byte)] + old(Written()) && offset == bytesLength
    {
      var newLength := bytesLength + 1;
      EnsureCapacity(newLength);
      ghost var w := Written();
      bytesLength := newLength;
      bytes[bytes.Length - bytesLength] := Char(byte);
      assert Written()[1..] == w;
      offset := bytesLength;
    }

    method Write(b: seq<int>) returns (offset: nat)
      requires Valid() && Bytes(b)
      modifies this, bytes
      ensures Valid() && (bytes == old(bytes) || fresh(bytes))
      ensures Written() == b + old(Written()) && offset == bytesLength
    {
      var newLength := bytesLength + |b|;
      EnsureCapacity(newLength);
      ghost var w := Written();
      bytesLength := newLength;
      var from := bytes.Length - bytesLength;
      forall k | 0 <= k < |b| {
        bytes[from + k] := b[k];
      }
      assert Written()[|b|..] == w;
      offset := bytesLength;
    }

    /**
     A value, of any 32 bits: read from where it was written, it is the same value, with the mark for a final
     value if it is one, and it ends where the bytes start that were written before.
     */
    method WriteValueAndFinal(i: int, isFinal: bool) returns (offset: nat)
      requires Valid()
      modifies this, bytes
      ensures Valid() && (bytes == old(bytes) || fresh(bytes)) && offset == bytesLength
      ensures bytesLength == old(bytesLength) + ValueSize(i) > old(bytesLength)
      ensures WrittenValue(old(Written()), Written(), bytesLength - old(bytesLength), isFinal)
      ensures -0x8000_0000 <= i < 0x8000_0000 ==> ValueThere(Written(), 0) == i
    {
      ValueBytesSize(i, isFinal);
      hide WrittenValue, ValueThere, ValueBytes, Char;
      var final := if isFinal then 1 else 0;
      ghost var w := Written();
      if 0 <= i <= MAX_ONE_BYTE_VALUE {
        OneByteValue(i, isFinal);
        offset := WriteByte((MIN_ONE_BYTE_VALUE_LEAD + i) * 2 + final);
      } else {
        var intBytes, length := IntBytes(i, final);
        offset := Write(intBytes[..length]);
      }
      ValueRoundTrip(i, w, isFinal, Written());
    }

    /** The bytes of a value that does not fit into its lead byte. */
    method IntBytes(i: int, final: int) returns (intBytes: array<Byte>, length: nat)
      requires (i < 0 || i > MAX_ONE_BYTE_VALUE) && 0 <= final <= 1
      ensures fresh(intBytes) && 1 <= length <= intBytes.Length
      ensures intBytes[..length] == ValueBytes(i, final == 1)
    {
      intBytes := new Byte[5];
      length := 1;
      if i < 0 || i > 0xffffff {
        intBytes[0] := FIVE_BYTE_VALUE_LEAD;
        intBytes[1] := Char(i / 0x100_0000);
        intBytes[2] := Char(i / 0x1_0000);
        intBytes[3] := Char(i / 0x100);
        intBytes[4] := Char(i);
        length := 5;
      } else {
        if i <= MAX_TWO_BYTE_VALUE {
          intBytes[0] := MIN_TWO_BYTE_VALUE_LEAD + i / 0x100;
        } else {
          if i <= MAX_THREE_BYTE_VALUE {
            intBytes[0] := MIN_THREE_BYTE_VALUE_LEAD + i / 0x1_0000;
          } else {
            intBytes[0] := FOUR_BYTE_VALUE_LEAD;
            intBytes[1] := Char(i / 0x1_0000);
            length := 2;
          }
          intBytes[length] := Char(i / 0x100);
          length := length + 1;
        }
        intBytes[length] := Char(i);
        length := length + 1;
      }
      intBytes[0] := Char(intBytes[0] * 2 + final);
    }

    /**
     A jump to the bytes that were written when `jumpTarget` bytes had been written: if it is not too long, it
     arrives there.
     */
    method WriteDeltaTo(jumpTarget: nat) returns (offset: nat)
      requires Valid() && jumpTarget <= bytesLength
      modifies this, bytes
      ensures Valid() && (bytes == old(bytes) || fresh(bytes)) && offset == bytesLength
      ensures bytesLength == old(bytesLength) + DeltaSize(old(bytesLength) - jumpTarget)
      ensures WrittenDelta(old(Written()), Written(), bytesLength - old(bytesLength))
      ensures
        var i := old(bytesLength) - jumpTarget;
        if i <= MAX_THREE_BYTE_DELTA then JumpByDelta(Written(), 0) == bytesLength - jumpTarget
        else LongDelta(i, Written(), bytesLength - old(bytesLength))
    {
      hide WrittenDelta, JumpByDelta, DeltaTail, SkipDelta;
      ghost var w := Written();
      var i := bytesLength - jumpTarget;
      if i <= MAX_ONE_BYTE_DELTA {
        offset := WriteByte(i);
        DeltaRoundTrip(i, w, Written());
        return;
      }
      var intBytes, length := DeltaIntBytes(i);
      offset := Write(intBytes[..length]);
      if i <= MAX_THREE_BYTE_DELTA {
        DeltaRoundTrip(i, w, Written());
      } else {
        LongDeltaWritten(w, Written(), length);
      }
    }

    /** The bytes of a delta that does not fit into one. Those that are not set keep whatever they are. */
    method DeltaIntBytes(i: nat) returns (intBytes: array<Byte>, length: nat)
      requires i > MAX_ONE_BYTE_DELTA
      ensures fresh(intBytes) && 0 < length == DeltaSize(i) <= intBytes.Length
      ensures if i <= MAX_THREE_BYTE_DELTA then intBytes[..length] == DeltaBytes(i)
              else LongDelta(i, intBytes[..length], length)
    {
      intBytes := new Byte[5];
      if i <= MAX_TWO_BYTE_DELTA {
        intBytes[0] := MIN_TWO_BYTE_DELTA_LEAD + i / 0x100;
        length := 1;
      } else {
        if i <= MAX_THREE_BYTE_DELTA {
          intBytes[0] := MIN_THREE_BYTE_DELTA_LEAD + i / 0x1_0000;
          length := 2;
        } else {
          if i <= 0xffffff {
            intBytes[0] := FOUR_BYTE_DELTA_LEAD;
            length := 3;
          } else {
            intBytes[0] := FIVE_BYTE_DELTA_LEAD;
            intBytes[1] := Char(i / 0x100_0000);
            length := 4;
          }
          intBytes[1] := Char(i / 0x1_0000);
        }
        intBytes[1] := Char(i / 0x100);
      }
      intBytes[length] := Char(i);
      length := length + 1;
    }
  }

  lemma LongDeltaWritten(before: seq<int>, w: seq<int>, n: nat)
    requires n <= |w| && w[n..] == before && 4 <= n <= 5 && w[0] == if n == 4 then FOUR_BYTE_DELTA_LEAD else FIVE_BYTE_DELTA_LEAD
    ensures WrittenDelta(before, w, n)
  {
  }
}
