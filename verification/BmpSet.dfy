/**
 `BMPSet`: bit tables that answer membership in an inversion list, for Latin-1 by bytes, below
 U+0800 by single bits, for the rest of the BMP by zero/one/mixed data per block of 64.
 */
module BmpTables {
  import opened Bits
  import opened InversionList
  import opened CodePoints

  /** Sets `bits` in the words `start` to `limit - 1`. */
  method OrColumns(table: array<nat>, start: nat, limit: nat, bits: nat)
    requires table.Length == 64 && limit <= 64
    modifies table
    ensures forall n :: 0 <= n < 0x800 ==>
              (Has(table[..], n) <==> Has(old(table[..]), n) || (start <= n % 64 < limit && Bit(bits, n / 64)))
  {
    hide Bit, Or, Has;
    var trail := start;
    while trail < limit
      invariant start <= trail && (trail <= limit || trail == start)
      invariant forall n :: 0 <= n < 0x800 ==>
                  (Has(table[..], n) <==> Has(old(table[..]), n) || (start <= n % 64 < trail && Bit(bits, n / 64)))
    {
      ghost var before := table[..];
      table[trail] := Or(32, table[trail], bits);
      assert table[..] == before[trail := Or(32, before[trail], bits)];
      forall n | 0 <= n < 0x800
        ensures Has(table[..], n) <==> Has(before, n) || (n % 64 == trail && Bit(bits, n / 64))
      {
        OrWord(before, trail, bits, n);
      }
      trail := trail + 1;
    }
  }

  /** Keeps only `mask` in the words `start` to `limit - 1`. */
  method AndColumns(table: array<nat>, start: nat, limit: nat, mask: nat)
    requires table.Length == 64 && limit <= 64
    modifies table
    ensures forall n :: 0 <= n < 0x800 ==>
              (Has(table[..], n) <==> Has(old(table[..]), n) && (start <= n % 64 < limit ==> Bit(mask, n / 64)))
  {
    hide Bit, And, Has;
    var trail := start;
    while trail < limit
      invariant start <= trail && (trail <= limit || trail == start)
      invariant forall n :: 0 <= n < 0x800 ==>
                  (Has(table[..], n) <==> Has(old(table[..]), n) && (start <= n % 64 < trail ==> Bit(mask, n / 64)))
    {
      ghost var before := table[..];
      table[trail] := And(32, table[trail], mask);
      assert table[..] == before[trail := And(32, before[trail], mask)];
      forall n | 0 <= n < 0x800
        ensures Has(table[..], n) <==> Has(before, n) && (n % 64 == trail ==> Bit(mask, n / 64))
      {
        AndWord(before, trail, mask, n);
      }
      trail := trail + 1;
    }
  }

  /** Sets the bits for the numbers `start` to `limit - 1`, number n at bit n / 64 of word n % 64. */
  method Set32x64Bits(table: array<nat>, start: nat, limit: nat)
    requires table.Length == 64 && start < limit <= 0x800
    modifies table
    ensures forall n :: 0 <= n < 0x800 ==> (Has(table[..], n) <==> Has(old(table[..]), n) || start <= n < limit)
  {
    hide Bit, Or, Has, Shl, Rectangle;
    var lead := start / 64;
    var trail := start % 64;

    var bits := Shl(1, lead);
    forall n | 0 <= n < 0x800
      ensures Bit(bits, n / 64) <==> n / 64 == lead
    {
      BitOne(lead, n / 64);
    }
    if start + 1 == limit {
      // One bit only.
      OrColumns(table, trail, trail + 1, bits);
      return;
    }

    var limitLead := limit / 64;
    var limitTrail := limit % 64;

    if lead == limitLead {
      OrColumns(table, trail, limitTrail, bits);
    } else {
      if trail > 0 {
        OrColumns(table, trail, 64, bits);
        lead := lead + 1;
      }
      if lead < limitLead {
        bits := Rectangle(lead, limitLead);
        forall n | 0 <= n < 0x800
          ensures Bit(bits, n / 64) <==> lead <= n / 64 < limitLead
        {
          RectangleBits(lead, limitLead, n / 64);
        }
        OrColumns(table, 0, 64, bits);
      }
      // At the very end of the table no column is left, so any number of a bit will do.
      var last := if limitLead == 0x20 then limitLead - 1 else limitLead;
      bits := Shl(1, last);
      forall n | 0 <= n < 0x800
        ensures Bit(bits, n / 64) <==> n / 64 == last
      {
        BitOne(last, n / 64);
      }
      OrColumns(table, 0, limitTrail, bits);
    }
  }

  /** Code point `c` belongs to the block `c / 64`; all 64 of block `b` are in the set, or none is. */
  ghost predicate AllIn(list: seq<int>, b: nat) {
    forall c :: 64 * b <= c < 64 * b + 64 ==> Member(list, c)
  }

  ghost predicate NoneIn(list: seq<int>, b: nat) {
    forall c :: 64 * b <= c < 64 * b + 64 ==> !Member(list, c)
  }

  /** The bits for block `b` < 0x400: the lower one tells the value, the upper one that it is mixed. */
  ghost predicate Low(blocks: seq<nat>, b: nat)
    requires |blocks| == 64 && b < 0x400
  {
    Has(blocks, b)
  }

  ghost predicate Mixed(blocks: seq<nat>, b: nat)
    requires |blocks| == 64 && b < 0x400
  {
    Has(blocks, b + 0x400)
  }

  /** The block's bits say exactly what the block holds. */
  ghost predicate BlockRight(list: seq<int>, blocks: seq<nat>, b: nat)
    requires |blocks| == 64 && b < 0x400
  {
    && (Mixed(blocks, b) <==> !AllIn(list, b) && !NoneIn(list, b))
    && (!Mixed(blocks, b) ==> (Low(blocks, b) <==> AllIn(list, b)))
  }

  class BMPSet {
    const list: seq<int>
    const latin1Contains: array<bool>
    const table7FF: array<nat>
    const bmpBlockBits: array<nat>
    const list4kStarts: array<nat>
    var containsFFFD: bool

    ghost predicate Allocated()
    {
      && latin1Contains.Length == 0x100 && table7FF.Length == 64 && bmpBlockBits.Length == 64
      && list4kStarts.Length == 18
      && table7FF != bmpBlockBits && table7FF != list4kStarts && bmpBlockBits != list4kStarts
      && ValidList(list)
    }

    /** Where entry `i` of the list starts: blocks of 4096, the first one cut off at U+0800. */
    ghost function Start4k(i: nat): int { if i == 0 then 0x800 else i * 0x1000 }

    ghost predicate StartsRight()
      requires Allocated()
      reads list4kStarts
    {
      && (forall i :: 0 <= i <= 0x10 ==> list4kStarts[i] == Rank(list, Start4k(i)))
      && list4kStarts[0x11] == |list| - 1
    }

    /** What the constructor establishes. */
    ghost predicate Valid()
      reads this, latin1Contains, table7FF, bmpBlockBits, list4kStarts
    {
      && Allocated()
      && StartsRight()
      && containsFFFD == Member(list, 0xfffd)
      && (forall c :: 0 <= c < 0x100 ==> latin1Contains[c] == Member(list, c))
      // Numbers that are encoded with too many bytes count as U+FFFD.
      && (forall c :: 0x80 <= c < 0x800 ==> (Has(table7FF[..], c) <==> Member(list, c)))
      && (forall c :: 0 <= c < 0x80 ==> (Has(table7FF[..], c) <==> containsFFFD))
      // Three bytes are too many below U+0800, and surrogates count as U+FFFD as well.
      && (forall b :: 0x20 <= b < 0x400 && !(0x360 <= b < 0x380) ==> BlockRight(list, bmpBlockBits[..], b))
      && (forall b :: 0 <= b < 0x20 || 0x360 <= b < 0x380 ==>
            !Mixed(bmpBlockBits[..], b) && (Low(bmpBlockBits[..], b) <==> containsFFFD))
    }

    /** The smallest index `r` in lo..hi such that c < list[r], or `hi`. */
    method FindCodePoint(c: int, lo: nat, hi: nat) returns (r: nat)
      requires ValidList(list) && lo <= hi < |list|
      ensures lo <= r <= hi
      ensures r > lo ==> list[r - 1] <= c
      ensures r < hi ==> c < list[r]
    {
      if c < list[lo] {
        return lo;
      }
      if lo >= hi || c >= list[hi - 1] {
        return hi;
      }
      var low, high := lo, hi;
      while true
        invariant lo <= low < high <= hi
        invariant list[low] <= c
        invariant high < hi ==> c < list[high]
        decreases high - low
      {
        var i := (low + high) / 2;
        if i == low {
          break;
        } else if c < list[i] {
          high := i;
        } else {
          low := i;
        }
      }
      return high;
    }

    /** The restricted search finds the rank if it is restricted to a range around `c`. */
    method ContainsSlow(c: int, lo: nat, hi: nat) returns (r: bool)
      requires ValidList(list) && lo <= hi < |list|
      requires lo <= Rank(list, c) <= hi
      ensures r == Member(list, c)
    {
      var i := FindRank(c, lo, hi);
      r := i % 2 == 1;
    }

    /** Reads the range at `listIndex`. */
    method NextRange(listIndex: nat) returns (next: nat, start: int, limit: int)
      requires ValidList(list) && listIndex < |list|
      ensures start == list[listIndex] && limit == LimitAfter(list, listIndex)
      ensures limit < HIGH ==> next == listIndex + 2 < |list|
    {
      next := listIndex;
      start := list[next];
      next := next + 1;
      if next < |list| {
        limit := list[next];
        next := next + 1;
      } else {
        limit := HIGH;
      }
    }

    /** Sets latin1Contains[]. */
    method InitLatin1()
      requires Allocated() && forall c :: 0 <= c < 0x100 ==> !latin1Contains[c]
      modifies latin1Contains
      ensures forall c :: 0 <= c < 0x100 ==> latin1Contains[c] == Member(list, c)
    {
      hide Member;
      var listIndex: nat := 0;
      forall c | 0 <= c < 0x100
        ensures c < list[0] ==> !Member(list, c)
      {
        MemberAround(list, 0, c);
      }
      while true
        invariant listIndex < |list| && listIndex % 2 == 0
        invariant forall c :: 0 <= c < 0x100 ==> latin1Contains[c] == (c < list[listIndex] && Member(list, c))
        decreases |list| - listIndex
      {
        ghost var i := listIndex;
        var start, limit;
        listIndex, start, limit := NextRange(listIndex);
        if start >= 0x100 {
          break;
        }
        forall c | 0 <= c < 0x100
          ensures start <= c < limit ==> Member(list, c)
          ensures limit <= c && (i + 2 < |list| ==> c < list[i + 2]) ==> !Member(list, c)
        {
          MemberAround(list, i, c);
        }
        var c := start;
        while c < limit && c < 0x100
          invariant start <= c <= limit && c <= 0x100
          invariant forall d :: 0 <= d < 0x100 ==>
                      latin1Contains[d] == ((d < start && Member(list, d)) || start <= d < c)
        {
          latin1Contains[c] := true;
          c := c + 1;
        }
        if limit > 0x100 {
          break;
        }
        NextExists(list, i);
      }
    }

    /** The search goes back to the first range that does not end below U+0080. */
    method FirstRangeFrom80() returns (listIndex: nat, start: int, limit: int, ghost i: nat)
      requires Allocated()
      ensures i < |list| && i % 2 == 0 && limit == LimitAfter(list, i) > 0x80
      ensures start == if list[i] < 0x80 then 0x80 else list[i]
      ensures limit < HIGH ==> listIndex == i + 2 < |list|
      ensures forall c :: 0x80 <= c < start ==> !Member(list, c)
    {
      hide Member;
      listIndex := 0;
      forall c | 0x80 <= c < list[0]
        ensures !Member(list, c)
      {
        MemberAround(list, 0, c);
      }
      while true
        invariant listIndex < |list| && listIndex % 2 == 0
        invariant forall c :: 0x80 <= c < list[listIndex] ==> !Member(list, c)
        decreases |list| - listIndex
      {
        i := listIndex;
        listIndex, start, limit := NextRange(listIndex);
        if limit > 0x80 {
          if start < 0x80 {
            start := 0x80;
          }
          break;
        }
        NextExists(list, i);
        forall c | 0x80 <= c < list[i + 2]
          ensures !Member(list, c)
        {
          MemberAround(list, i, c);
        }
      }
    }

    /**
     Sets table7FF[]. Returns the range that is left over: everything from U+0080 up to
     its start has been taken care of.
     */
    method InitTable7FF() returns (listIndex: nat, start: int, limit: int, ghost i: nat)
      requires Allocated() && forall n :: 0 <= n < 0x800 ==> !Has(table7FF[..], n)
      modifies table7FF
      ensures forall n :: 0 <= n < 0x800 ==> (Has(table7FF[..], n) <==> 0x80 <= n && Member(list, n))
      ensures i < |list| && i % 2 == 0 && limit == LimitAfter(list, i)
      ensures limit < HIGH ==> listIndex == i + 2 < |list|
      ensures start == if list[i] < 0x800 then 0x800 else list[i]
      ensures list[i] < 0x800 ==> limit > 0x800
      ensures forall c :: 0x800 <= c < start ==> !Member(list, c)
    {
      hide Member, Has;
      listIndex, start, limit, i := FirstRangeFrom80();
      while start < 0x800
        invariant i < |list| && i % 2 == 0 && limit == LimitAfter(list, i)
        invariant limit < HIGH ==> listIndex == i + 2 < |list|
        invariant list[i] <= start && (start < limit || start == HIGH) && 0x80 <= start
        invariant start == list[i] || (start == 0x80 && list[i] < 0x80)
        invariant forall n :: 0 <= n < 0x800 ==> (Has(table7FF[..], n) <==> 0x80 <= n < start && Member(list, n))
        invariant forall c :: 0x800 <= c < start ==> !Member(list, c)
        decreases |list| - i
      {
        Set32x64Bits(table7FF, start, if limit <= 0x800 then limit else 0x800);
        forall c | 0 <= c < HIGH
          ensures start <= c < limit ==> Member(list, c)
          ensures limit <= c && (i + 2 < |list| ==> c < list[i + 2]) ==> !Member(list, c)
        {
          MemberAround(list, i, c);
        }
        if limit > 0x800 {
          start := 0x800;
          break;
        }
        NextExists(list, i);
        i := i + 2;
        listIndex, start, limit := NextRange(listIndex);
      }
    }

    /** The blocks below `done` are finished, the others have not been touched. */
    ghost predicate Finished(blocks: seq<nat>, done: int)
      requires |blocks| == 64
    {
      && 0x800 <= done <= 0x10000 && done % 64 == 0
      && (forall b :: 0x20 <= b < 0x400 && 64 * b < done ==> BlockRight(list, blocks, b))
      && (forall b :: 0 <= b < 0x400 && (b < 0x20 || 64 * b >= done) ==> !Low(blocks, b) && !Mixed(blocks, b))
    }

    /** Untouched blocks are right as long as nothing in them is in the set. */
    lemma SkipGap(blocks: seq<nat>, done: int, to: int)
      requires |blocks| == 64 && Finished(blocks, done) && done <= to <= 0x10000 && to % 64 == 0
      requires forall c :: done <= c < to ==> !Member(list, c)
      ensures Finished(blocks, to)
    {
      hide Member, Has;
      forall b | 0x20 <= b < 0x400 && done <= 64 * b < to
        ensures BlockRight(list, blocks, b)
      {
        assert NoneIn(list, b);
        assert !AllIn(list, b) by { assert !Member(list, 64 * b); }
      }
    }

    /** Finished blocks whose bits have not changed remain so. */
    lemma StillFinished(before: seq<nat>, after: seq<nat>, done: int)
      requires |before| == 64 && |after| == 64 && Finished(before, done)
      requires forall b :: 0x20 <= b < 0x400 && 64 * b < done ==>
                 (Has(after, b) <==> Has(before, b)) && (Has(after, b + 0x400) <==> Has(before, b + 0x400))
      ensures forall b :: 0x20 <= b < 0x400 && 64 * b < done ==> BlockRight(list, after, b)
    {
      hide Member, Has;
      forall b | 0x20 <= b < 0x400 && 64 * b < done
        ensures BlockRight(list, after, b)
      {
        assert BlockRight(list, before, b);
      }
    }

    /** Marks block `b` as mixed. */
    method SetMixed(b: nat)
      requires Allocated() && b < 0x400
      modifies bmpBlockBits
      ensures forall n :: 0 <= n < 0x800 ==>
                (Has(bmpBlockBits[..], n) <==> Has(old(bmpBlockBits[..]), n) || n == b || n == b + 0x400)
    {
      hide Bit, Or, Has, Shl;
      ghost var before := bmpBlockBits[..];
      var trail, bits := b % 64, Shl(PAIR, b / 64);
      bmpBlockBits[trail] := Or(32, bmpBlockBits[trail], bits);
      assert bmpBlockBits[..] == before[trail := Or(32, before[trail], bits)];
      forall n | 0 <= n < 0x800
        ensures Has(bmpBlockBits[..], n) <==> Has(before, n) || n == b || n == b + 0x400
      {
        OrWord(before, trail, bits, n);
        BitPair(b / 64, n / 64);
      }
    }

    /** A mixed block follows the finished ones. */
    method FinishMixed(done: int, ghost inside: int, ghost outside: int)
      requires Allocated() && Finished(bmpBlockBits[..], done) && done < 0x10000
      requires done <= inside < done + 64 && Member(list, inside)
      requires done <= outside < done + 64 && !Member(list, outside)
      modifies bmpBlockBits
      ensures Finished(bmpBlockBits[..], done + 64)
    {
      hide Member, Has;
      ghost var before := bmpBlockBits[..];
      SetMixed(done / 64);
      assert !AllIn(list, done / 64) && !NoneIn(list, done / 64);
      StillFinished(before, bmpBlockBits[..], done);
      forall b | 0 <= b < 0x400 && (b < 0x20 || 64 * b >= done + 64)
        ensures !Low(bmpBlockBits[..], b) && !Mixed(bmpBlockBits[..], b)
      {
        assert !Low(before, b) && !Mixed(before, b);
      }
    }

    /** Blocks that are entirely in the set follow the finished ones. */
    method FinishFull(done: int, to: int)
      requires Allocated() && Finished(bmpBlockBits[..], done) && done < to <= 0x10000 && to % 64 == 0
      requires forall c :: done <= c < to ==> Member(list, c)
      modifies bmpBlockBits
      ensures Finished(bmpBlockBits[..], to)
    {
      hide Member, Has;
      ghost var before := bmpBlockBits[..];
      Set32x64Bits(bmpBlockBits, done / 64, to / 64);
      StillFinished(before, bmpBlockBits[..], done);
      forall b | 0 <= b < 0x400 && (b < 0x20 || 64 * b >= to)
        ensures !Low(bmpBlockBits[..], b) && !Mixed(bmpBlockBits[..], b)
      {
        assert !Low(before, b) && !Mixed(before, b);
      }
      forall b | 0x20 <= b < 0x400 && done <= 64 * b < to
        ensures BlockRight(list, bmpBlockBits[..], b)
      {
        assert !Low(before, b) && !Mixed(before, b);
        assert AllIn(list, b);
        assert !NoneIn(list, b) by { assert Member(list, 64 * b); }
      }
    }

    /**
     Enters one range, the part of it from `start` on, into bmpBlockBits[]. Everything below
     `done` is finished, and nothing between `done` and `start` is in the set.
     */
    method EnterRange(start: int, limit: int, minStart: int, ghost done: int)
      returns (limit': int, minStart': int, ghost done': int)
      requires Allocated() && Finished(bmpBlockBits[..], done)
      requires 0x800 <= minStart <= done && minStart % 64 == 0 && (start < done ==> minStart == done)
      requires 0x800 <= start < limit <= 0x10000
      requires forall c :: done <= c < start ==> !Member(list, c)
      requires forall c :: start <= c < limit ==> Member(list, c)
      requires limit < 0x10000 ==> !Member(list, limit)
      modifies bmpBlockBits
      ensures Finished(bmpBlockBits[..], done')
      ensures done <= done' && limit <= done'
      ensures 0x800 <= minStart' <= done' && minStart' % 64 == 0
      ensures limit <= done' < limit + 64 || done' == done
      ensures minStart' == done' || done' == limit
      ensures limit' == 0x10000 ==> done' == 0x10000
      ensures limit == 0x10000 ==> limit' == 0x10000
    {
      hide Member, Has;
      limit', minStart', done' := limit, minStart, done;
      var from := if start < minStart then minStart else start;
      if from < limit {
        if from % 64 != 0 {
          // The block in which the range starts is mixed.
          var b := from / 64;
          SkipGap(bmpBlockBits[..], done, 64 * b);
          FinishMixed(64 * b, from, from - 1);
          from := 64 * (b + 1);
          minStart' := from;
          done' := from;
        } else {
          SkipGap(bmpBlockBits[..], done, from);
          done' := from;
        }
        if from < limit {
          if from < limit / 64 * 64 {
            FinishFull(from, limit / 64 * 64);
          }
          var floor := limit / 64 * 64;
          done' := floor;
          if limit % 64 != 0 {
            // So is the block in which it ends.
            FinishMixed(floor, floor, limit);
            limit' := floor + 64;
            minStart' := limit';
            done' := limit';
          }
        }
      }
    }

    /** Sets bmpBlockBits[] from the range that `InitTable7FF` left over, and all that follow. */
    method InitBlockBits(next: nat, start0: int, limit0: int, ghost i0: nat)
      requires Allocated() && forall n :: 0 <= n < 0x800 ==> !Has(bmpBlockBits[..], n)
      requires i0 < |list| && i0 % 2 == 0 && limit0 == LimitAfter(list, i0)
      requires limit0 < HIGH ==> next == i0 + 2 < |list|
      requires start0 == if list[i0] < 0x800 then 0x800 else list[i0]
      requires list[i0] < 0x800 ==> limit0 > 0x800
      requires forall c :: 0x800 <= c < start0 ==> !Member(list, c)
      modifies bmpBlockBits
      ensures Finished(bmpBlockBits[..], 0x10000)
    {
      hide Member, Has;
      var listIndex, start, limit, minStart := next, start0, limit0, 0x800;
      ghost var i, done := i0, 0x800;
      while start < 0x10000
        invariant Finished(bmpBlockBits[..], done)
        invariant i < |list| && i % 2 == 0 && limit == LimitAfter(list, i)
        invariant limit < HIGH ==> listIndex == i + 2 < |list|
        invariant list[i] <= start && 0x800 <= start && (start < limit || start == HIGH)
        invariant 0x800 <= minStart <= done && minStart % 64 == 0 && (start < done ==> minStart == done)
        invariant forall c :: done <= c < start ==> !Member(list, c)
        decreases |list| - i
      {
        forall c | 0 <= c < HIGH
          ensures list[i] <= c < LimitAfter(list, i) ==> Member(list, c)
          ensures LimitAfter(list, i) <= c && (i + 2 < |list| ==> c < list[i + 2]) ==> !Member(list, c)
        {
          MemberAround(list, i, c);
        }
        if limit > 0x10000 {
          limit := 0x10000;
        }
        if limit < 0x10000 { NextExists(list, i); }
        limit, minStart, done := EnterRange(start, limit, minStart, done);
        if limit == 0x10000 {
          return;
        }
        NextExists(list, i);
        i := i + 2;
        listIndex, start, limit := NextRange(listIndex);
      }
      SkipGap(bmpBlockBits[..], done, 0x10000);
    }

    /**
     Makes the tables answer for U+FFFD where no legal sequence leads: for numbers below U+0080 in two bytes,
     below U+0800 in three, and for surrogates.
     */
    method OverrideIllegal()
      requires Allocated()
      modifies table7FF, bmpBlockBits
      ensures forall n :: 0 <= n < 0x800 ==>
                (Has(table7FF[..], n) <==> Has(old(table7FF[..]), n) || (n < 0x80 && containsFFFD))
      ensures forall b :: 0 <= b < 0x400 && b >= 0x20 && !(0x360 <= b < 0x380) ==>
                (Low(bmpBlockBits[..], b) <==> Low(old(bmpBlockBits[..]), b))
                && (Mixed(bmpBlockBits[..], b) <==> Mixed(old(bmpBlockBits[..]), b))
      ensures forall b :: 0 <= b < 0x20 ==>
                (Low(bmpBlockBits[..], b) <==> Low(old(bmpBlockBits[..]), b) || containsFFFD)
                && (Mixed(bmpBlockBits[..], b) <==> Mixed(old(bmpBlockBits[..]), b))
      ensures forall b :: 0x360 <= b < 0x380 ==>
                (Low(bmpBlockBits[..], b) <==> containsFFFD) && !Mixed(bmpBlockBits[..], b)
    {
      hide Bit, Or, And, Not, Has, Shl;
      var mask, bits;
      if containsFFFD {
        // Two-byte sequences for less than U+0080.
        bits := 3;
        forall k | 0 <= k < 32 ensures Bit(bits, k) <==> k < 2 { BitOfThree(k); }
        OrColumns(table7FF, 0, 64, bits);

        // Three-byte sequences for less than U+0800.
        bits := 1;
        forall k | 0 <= k < 32 ensures Bit(bits, k) <==> k == 0 { BitOfOne(k); }
        OrColumns(bmpBlockBits, 0, 32, bits);

        mask := Not(32, Shl(PAIR, 0xd));
        bits := Shl(1, 0xd);
        MaskBits(mask);
        forall k | 0 <= k < 32 ensures Bit(bits, k) <==> k == 0xd { BitOne(0xd, k); }
        AndColumns(bmpBlockBits, 32, 64, mask);
        OrColumns(bmpBlockBits, 32, 64, bits);
      } else {
        mask := Not(32, Shl(PAIR, 0xd));
        MaskBits(mask);
        AndColumns(bmpBlockBits, 32, 64, mask);
      }
    }

    lemma MaskBits(mask: nat)
      requires mask == Not(32, Shl(PAIR, 0xd))
      ensures forall k :: 0 <= k < 32 ==> (Bit(mask, k) <==> k != 0xd && k != 0x1d)
    {
      hide Bit, Not, Shl;
      forall k | 0 <= k < 32 ensures Bit(mask, k) <==> k != 0xd && k != 0x1d {
        BitPair(0xd, k);
        BitNot(32, Shl(PAIR, 0xd), k);
      }
    }

    /** Sets the list indexes for the restricted binary searches. */
    method InitStarts()
      requires Allocated()
      modifies list4kStarts
      ensures StartsRight()
    {
      hide Rank;
      RankOfCodePoint(list, 0x800);
      list4kStarts[0] := FindRank(0x800, 0, |list| - 1);
      var i := 1;
      while i <= 0x10
        invariant 1 <= i <= 0x11
        invariant forall j :: 0 <= j < i ==> list4kStarts[j] == Rank(list, Start4k(j)) < |list|
      {
        RankMonotone(list, Start4k(i - 1), Start4k(i));
        RankOfCodePoint(list, Start4k(i));
        list4kStarts[i] := FindRank(i * 0x1000, list4kStarts[i - 1], |list| - 1);
        i := i + 1;
      }
      list4kStarts[0x11] := |list| - 1;
    }

    /** The restricted search finds the rank of `c` if that is in range. */
    method FindRank(c: int, lo: nat, hi: nat) returns (r: nat)
      requires ValidList(list) && lo <= hi < |list|
      requires lo <= Rank(list, c) <= hi
      ensures r == Rank(list, c)
    {
      r := FindCodePoint(c, lo, hi);
      if r > lo { assert forall j :: 0 <= j < r ==> list[j] <= c; }
    }

    method ContainsFFFDFromStarts()
      requires Allocated() && StartsRight()
      modifies this`containsFFFD
      ensures containsFFFD == Member(list, 0xfffd)
    {
      containsFFFD := ContainsIn4k(0xfffd, 0xf);
    }

    /** Membership, by a search within one of the blocks of 4096. */
    method ContainsIn4k(c: int, lead: nat) returns (r: bool)
      requires Allocated() && StartsRight()
      requires lead <= 0xf && Start4k(lead) <= c < Start4k(lead + 1)
      ensures r == Member(list, c)
    {
      hide Rank;
      RankBetween(c, lead, lead + 1);
      r := ContainsSlow(c, list4kStarts[lead], list4kStarts[lead + 1]);
    }

    constructor (parentList: seq<int>)
      requires ValidList(parentList)
      ensures Valid() && list == parentList
    {
      list := parentList;
      latin1Contains := new bool[0x100](_ => false);
      table7FF := new nat[64](_ => 0);
      bmpBlockBits := new nat[64](_ => 0);
      list4kStarts := new nat[18];
      containsFFFD := false;
      new;
      BitsOfZero(table7FF[..], bmpBlockBits[..]);
      InitStarts();
      ContainsFFFDFromStarts();
      InitBits();
      ghost var before := bmpBlockBits[..];
      OverrideIllegal();
      Overridden(before);
    }

    lemma BitsOfZero(t: seq<nat>, u: seq<nat>)
      requires |t| == 64 && |u| == 64 && forall i :: 0 <= i < 64 ==> t[i] == 0 && u[i] == 0
      ensures forall n :: 0 <= n < 0x800 ==> !Has(t, n) && !Has(u, n)
    {
      forall n | 0 <= n < 0x800
        ensures !Has(t, n) && !Has(u, n)
      {
        BitZero(n / 64);
      }
    }

    /** Fills the three tables from the list. */
    method InitBits()
      requires Allocated()
      requires forall c :: 0 <= c < 0x100 ==> !latin1Contains[c]
      requires forall n :: 0 <= n < 0x800 ==> !Has(table7FF[..], n) && !Has(bmpBlockBits[..], n)
      modifies latin1Contains, table7FF, bmpBlockBits
      ensures forall c :: 0 <= c < 0x100 ==> latin1Contains[c] == Member(list, c)
      ensures forall n :: 0 <= n < 0x800 ==> (Has(table7FF[..], n) <==> 0x80 <= n && Member(list, n))
      ensures Finished(bmpBlockBits[..], 0x10000)
    {
      hide Member, Has;
      InitLatin1();
      var listIndex, start, limit;
      ghost var i;
      listIndex, start, limit, i := InitTable7FF();
      InitBlockBits(listIndex, start, limit, i);
    }

    /** Blocks that are not overridden stay right. */
    lemma Overridden(before: seq<nat>)
      requires Allocated() && |before| == 64 && Finished(before, 0x10000)
      requires forall b :: 0 <= b < 0x400 && b >= 0x20 && !(0x360 <= b < 0x380) ==>
                 (Low(bmpBlockBits[..], b) <==> Low(before, b)) && (Mixed(bmpBlockBits[..], b) <==> Mixed(before, b))
      requires forall b :: 0 <= b < 0x20 ==>
                 (Low(bmpBlockBits[..], b) <==> Low(before, b) || containsFFFD)
                 && (Mixed(bmpBlockBits[..], b) <==> Mixed(before, b))
      ensures forall b :: 0x20 <= b < 0x400 && !(0x360 <= b < 0x380) ==> BlockRight(list, bmpBlockBits[..], b)
      ensures forall b :: 0 <= b < 0x20 ==>
                !Mixed(bmpBlockBits[..], b) && (Low(bmpBlockBits[..], b) <==> containsFFFD)
    {
      hide Member, Has;
      forall b | 0x20 <= b < 0x400 && !(0x360 <= b < 0x380)
        ensures BlockRight(list, bmpBlockBits[..], b)
      {
        assert BlockRight(list, before, b);
      }
    }

    /** Whether the set contains `c`; out-of-range code points are not in the set. */
    method Contains(c: int) returns (r: bool)
      requires Valid()
      ensures r == (0 <= c < HIGH && Member(list, c))
    {
      if 0 <= c <= 0xff {
        return latin1Contains[c];
      } else if 0 <= c <= 0x7ff {
        r := TestTable7FF(c);
      } else if 0 <= c < 0xd800 || 0xe000 <= c <= 0xffff {
        r := ContainsBlock(c);
      } else if 0 <= c <= 0x10ffff {
        RankBetween(c, 0xd, 0x11);
        r := ContainsSlow(c, list4kStarts[0xd], list4kStarts[0x11]);
      } else {
        return false;
      }
    }

    /** The bit for `c` < 0x800. */
    method TestTable7FF(c: nat) returns (r: bool)
      requires Allocated() && c < 0x800
      ensures r == Has(table7FF[..], c)
    {
      TestBit(table7FF[c % 64], c / 64);
      r := And(32, table7FF[c % 64], Shl(1, c / 64)) != 0;
    }

    /** The pair of bits for block `b`: 0 or 1 if it is not mixed. */
    method ReadBlock(b: nat) returns (twoBits: nat)
      requires Allocated() && b < 0x400
      ensures twoBits <= 1 <==> !Mixed(bmpBlockBits[..], b)
      ensures twoBits <= 1 ==> twoBits == if Low(bmpBlockBits[..], b) then 1 else 0
    {
      ReadPair(bmpBlockBits[b % 64], b / 64);
      twoBits := And(32, Shr(bmpBlockBits[b % 64], b / 64), PAIR);
    }

    /** Membership by the table of blocks, from U+0800 to U+FFFF without the surrogates. */
    method ContainsBlock(c: int) returns (r: bool)
      requires Valid() && (0x800 <= c < 0xd800 || 0xe000 <= c <= 0xffff)
      ensures r == Member(list, c)
    {
      hide Member, Has, Rank;
      var lead := c / 0x1000;
      assert BlockRight(list, bmpBlockBits[..], c / 64);
      var twoBits := ReadBlock(c / 64);
      if twoBits <= 1 {
        return twoBits == 1;
      } else {
        r := ContainsIn4k(c, lead);
      }
    }

    /** Between which entries of list4kStarts[] the rank of `c` lies. */
    lemma RankBetween(c: int, lo: nat, hi: nat)
      requires Allocated() && StartsRight() && lo < hi <= 0x11 && c < HIGH
      requires Start4k(lo) <= c && (hi <= 0x10 ==> c <= Start4k(hi))
      ensures list4kStarts[lo] <= Rank(list, c) <= list4kStarts[hi] < |list|
    {
      hide Rank;
      RankMonotone(list, Start4k(lo), c);
      RankOfCodePoint(list, c);
      if hi <= 0x10 {
        RankMonotone(list, c, Start4k(hi));
        RankOfCodePoint(list, Start4k(hi));
      }
    }

    // -------------------------------------------------------------------------------------------
    // Spans.

    /** Membership of the code point of one or two units that starts at `i`. */
    method ContainsAt(s: seq<unit16>, i: nat) returns (r: bool)
      requires Valid() && i < |s|
      ensures r == Member(list, CodePoint16(s, i))
    {
      hide Member, Has, Rank;
      var c := s[i];
      if c <= 0xff {
        return latin1Contains[c];
      } else if c <= 0x7ff {
        r := TestTable7FF(c);
      } else if c < 0xd800 || c >= 0xe000 {
        r := ContainsBlock(c);
      } else if c >= 0xdc00 || i + 1 == |s| || s[i + 1] < 0xdc00 || s[i + 1] >= 0xe000 {
        RankBetween(c, 0xd, 0xe);
        r := ContainsSlow(c, list4kStarts[0xd], list4kStarts[0xe]);
      } else {
        var pair := Supplementary(c, s[i + 1]);
        RankBetween(pair, 0x10, 0x11);
        r := ContainsSlow(pair, list4kStarts[0x10], list4kStarts[0x11]);
      }
    }

    /** The limit of the initial span of code points `c` with contains(c)==spanCondition. */
    method Span(s: seq<unit16>, spanCondition: bool) returns (limit: nat)
      requires Valid() && |s| > 0
      ensures limit == SpanFrom(list, s, 0, spanCondition)
    {
      hide Member, Has, Rank;
      limit := 0;
      while true
        invariant limit < |s|
        invariant SpanFrom(list, s, 0, spanCondition) == SpanFrom(list, s, limit, spanCondition)
        decreases |s| - limit
      {
        var contains := ContainsAt(s, limit);
        if contains != spanCondition {
          break;
        }
        if PairAt(s, limit) {
          limit := limit + 1;
        }
        limit := limit + 1;
        if limit >= |s| {
          break;
        }
      }
    }

    /** The start of the trailing span of code points `c` with contains(c)==spanCondition. */
    method SpanBack(s: seq<unit16>, spanCondition: bool) returns (limit: nat)
      requires Valid() && |s| > 0
      ensures limit == SuffixFrom(list, s, 0, spanCondition)
    {
      hide Member, Has, Rank;
      limit := |s|;
      while true
        invariant 0 < limit <= |s| && Boundary(s, limit)
        invariant SuffixFrom(list, s, limit, spanCondition) == limit
        decreases limit
      {
        limit := limit - 1;
        var c := s[limit];
        var start := limit;
        if IsTrail(c) && limit > 0 && IsLead(s[limit - 1]) {
          start := limit - 1;
        }
        NextBoundary(s, start);
        var contains := ContainsAt(s, start);
        if contains != spanCondition {
          SuffixFromEarlier(list, s, 0, start, spanCondition);
          limit := limit + 1;
          return;
        }
        limit := start;
        if limit == 0 {
          return;
        }
      }
    }

    // -------------------------------------------------------------------------------------------
    // Spans of UTF-8.

    /** The value of a 3-byte sequence; the tables answer for U+FFFD where it is not well-formed. */
    method ContainsThreeBytes(lead: nat, t1: nat, t2: nat) returns (r: bool)
      requires Valid() && lead <= 0xf && t1 <= 0x3f && t2 <= 0x3f
      ensures r == Member(list, if (lead == 0 && t1 < 0x20) || (lead == 0xd && t1 >= 0x20) then REPLACEMENT
                                else lead * 0x1000 + t1 * 0x40 + t2)
    {
      hide Member, Has, Rank;
      var b := lead * 0x40 + t1;
      if !(b < 0x20 || 0x360 <= b < 0x380) {
        assert BlockRight(list, bmpBlockBits[..], b);
      }
      var twoBits := ReadBlock(b);
      var c := lead * 0x1000 + t1 * 0x40 + t2;
      if twoBits <= 1 {
        r := twoBits == 1;
      } else {
        r := ContainsIn4k(c, lead);
      }
    }

    /** The value of a 4-byte sequence. */
    method ContainsFourBytes(c: int) returns (r: bool)
      requires Valid() && c >= 0
      ensures r == Member(list, if 0x10000 <= c <= 0x10ffff then c else REPLACEMENT)
    {
      hide Member, Has, Rank;
      if 0x10000 <= c <= 0x10ffff {
        RankBetween(c, 0x10, 0x11);
        r := ContainsSlow(c, list4kStarts[0x10], list4kStarts[0x11]);
      } else {
        r := containsFFFD;
      }
    }

    /** The value of a 2-byte sequence with lead byte `b`. */
    method ContainsTwoBytes(b: nat, t1: nat) returns (r: bool)
      requires Valid() && 0xc0 <= b < 0xe0 && t1 <= 0x3f
      ensures r == Member(list, if b < 0xc2 then REPLACEMENT else (b - 0xc0) * 0x40 + t1)
    {
      hide Member, Has, Rank;
      r := TestTable7FF(b % 0x20 * 0x40 + t1);
    }

    /** After trimming, every sequence that starts before `limit` ends there, or is cut short by another byte. */
    ghost predicate Trimmed(s: seq<byte>, start: nat, limit: nat) {
      && start <= limit <= |s| && start < |s|
      && (limit < |s| ==> s[limit] >= 0xc0)
      && (limit == |s| ==>
            && s[|s| - 1] < 0xc0
            && (|s| - start >= 2 && Tail(s[|s| - 1]) ==> s[|s| - 2] < 0xe0)
            && (|s| - start >= 3 && Tail(s[|s| - 1]) && Tail(s[|s| - 2]) ==> s[|s| - 3] < 0xf0))
    }

    /**
     Takes off the end what may be the beginning of a sequence that is not there as a whole.
     `limit0` is where a span ends that gets as far as `limit`.
     */
    method TrimTail(s: seq<byte>, start: nat, spanCondition: bool) returns (limit: nat, limit0: nat)
      requires Valid() && start < |s|
      ensures Trimmed(s, start, limit) && start <= limit <= |s|
      ensures limit0 == SpanFromUTF8(list, s, limit, spanCondition)
    {
      hide Member, Has, Rank;
      var length := |s| - start;
      limit, limit0 := |s|, |s|;
      var b := s[limit - 1];
      if b >= 0x80 {
        if b < 0xc0 {
          // The last byte may belong to a lead byte up to two bytes before it.
          if length >= 2 { b := s[limit - 2]; }
          if length >= 2 && b >= 0xe0 {
            limit := limit - 2;
            if containsFFFD != spanCondition {
              limit0 := limit;
            }
          } else if b < 0xc0 && b >= 0x80 && length >= 3 && s[limit - 3] >= 0xf0 {
            limit := limit - 3;
            if containsFFFD != spanCondition {
              limit0 := limit;
            }
          }
        } else {
          limit := limit - 1;
          if containsFFFD != spanCondition {
            limit0 := limit;
          }
        }
      }
      SpanOverIllegal(list, s, limit, |s|, spanCondition);
    }

    lemma KnowsReplacement()
      requires Valid()
      ensures containsFFFD == Member(list, REPLACEMENT)
    {
      hide Member, Has, Rank;
    }

    /** A step over one sequence, or over bytes that start none. */
    ghost predicate Steps(s: seq<byte>, pos: nat, next: nat, contains: bool, spanCondition: bool) {
      && pos < next <= |s|
      && (contains == spanCondition ==> SpanFromUTF8(list, s, pos, spanCondition) == SpanFromUTF8(list, s, next, spanCondition))
      && (contains != spanCondition ==> SpanFromUTF8(list, s, pos, spanCondition) == pos)
    }

    lemma StepsOver(s: seq<byte>, pos: nat, contains: bool, spanCondition: bool)
      requires pos < |s| && WellFormed(s, pos) > 0 && contains == Member(list, CodePoint8(s, pos))
      ensures Steps(s, pos, pos + WellFormed(s, pos), contains, spanCondition)
    {
      hide Member, WellFormed, CodePoint8;
    }

    lemma StepsOverIllegal(s: seq<byte>, pos: nat, next: nat, contains: bool, spanCondition: bool)
      requires pos < next <= |s| && (forall k :: pos <= k < next ==> WellFormed(s, k) == 0)
      requires contains == Member(list, REPLACEMENT)
      ensures Steps(s, pos, next, contains, spanCondition)
    {
      hide Member, WellFormed;
      SpanOverIllegal(list, s, pos, next, spanCondition);
    }

    lemma TwoStep(s: seq<byte>, pos: nat, contains: bool, spanCondition: bool)
      requires pos + 1 < |s| && 0xc0 <= s[pos] < 0xe0 && Tail(s[pos + 1])
      requires contains == Member(list, if s[pos] < 0xc2 then REPLACEMENT else Combine2(s[pos], s[pos + 1]))
      ensures Steps(s, pos, pos + 2, contains, spanCondition)
    {
      hide Member, SpanFromUTF8, BMPSet.Steps;
      if WellFormed(s, pos) == 0 {
        StepsOverIllegal(s, pos, pos + 2, contains, spanCondition);
      } else {
        StepsOver(s, pos, contains, spanCondition);
      }
    }

    lemma ThreeStep(s: seq<byte>, pos: nat, contains: bool, spanCondition: bool)
      requires pos + 2 < |s| && 0xe0 <= s[pos] < 0xf0 && Tail(s[pos + 1]) && Tail(s[pos + 2])
      requires contains == Member(list,
        if (s[pos] == 0xe0 && s[pos + 1] < 0xa0) || (s[pos] == 0xed && s[pos + 1] >= 0xa0) then REPLACEMENT
        else Combine3(s[pos], s[pos + 1], s[pos + 2]))
      ensures Steps(s, pos, pos + 3, contains, spanCondition)
    {
      hide Member, SpanFromUTF8, BMPSet.Steps;
      if WellFormed(s, pos) == 0 {
        StepsOverIllegal(s, pos, pos + 3, contains, spanCondition);
      } else {
        StepsOver(s, pos, contains, spanCondition);
      }
    }

    lemma FourStep(s: seq<byte>, pos: nat, contains: bool, spanCondition: bool)
      requires pos + 3 < |s| && 0xf0 <= s[pos] && Tail(s[pos + 1]) && Tail(s[pos + 2]) && Tail(s[pos + 3])
      requires
        var c := Combine4(s[pos], s[pos + 1], s[pos + 2], s[pos + 3]);
        contains == Member(list, if 0x10000 <= c < 0x110000 then c else REPLACEMENT)
      ensures Steps(s, pos, pos + 4, contains, spanCondition)
    {
      hide Member, SpanFromUTF8, BMPSet.Steps;
      if WellFormed(s, pos) == 0 {
        StepsOverIllegal(s, pos, pos + 4, contains, spanCondition);
      } else {
        StepsOver(s, pos, contains, spanCondition);
      }
    }

    /** A lead byte before the limit is followed by enough bytes, as long as they are trail bytes. */
    lemma RoomForTrail(s: seq<byte>, start: nat, limit: nat, pos: nat)
      requires Trimmed(s, start, limit) && start <= pos < limit && s[pos] >= 0xc0
      ensures pos + 1 < |s| && (Tail(s[pos + 1]) ==> pos + 2 <= limit)
      ensures s[pos] >= 0xe0 && Tail(s[pos + 1]) ==> pos + 2 < |s| && (Tail(s[pos + 2]) ==> pos + 3 <= limit)
      ensures s[pos] >= 0xf0 && Tail(s[pos + 1]) && Tail(s[pos + 2]) ==>
        pos + 3 < |s| && (Tail(s[pos + 3]) ==> pos + 4 <= limit)
    {
    }

    /** A byte that is not followed by the trail bytes that it asks for starts no well-formed sequence. */
    lemma NoTrail(s: seq<byte>, pos: nat)
      requires pos < |s| && s[pos] >= 0x80
      ensures s[pos] < 0xc0 ==> WellFormed(s, pos) == 0
      ensures s[pos] >= 0xc0 && !TailAt(s, pos + 1) ==> WellFormed(s, pos) == 0
      ensures s[pos] >= 0xe0 && !TailAt(s, pos + 2) ==> WellFormed(s, pos) == 0
      ensures s[pos] >= 0xf0 && !TailAt(s, pos + 3) ==> WellFormed(s, pos) == 0
    {
    }

    method StepTwoBytes(s: seq<byte>, pos: nat, spanCondition: bool) returns (contains: bool)
      requires Valid() && pos + 1 < |s| && 0xc0 <= s[pos] < 0xe0 && Tail(s[pos + 1])
      ensures Steps(s, pos, pos + 2, contains, spanCondition)
    {
      hide Member, BMPSet.Valid, BMPSet.Steps;
      contains := ContainsTwoBytes(s[pos], s[pos + 1] - 0x80);
      TwoStep(s, pos, contains, spanCondition);
    }

    method StepThreeBytes(s: seq<byte>, pos: nat, spanCondition: bool) returns (contains: bool)
      requires Valid() && pos + 2 < |s| && 0xe0 <= s[pos] < 0xf0 && Tail(s[pos + 1]) && Tail(s[pos + 2])
      ensures Steps(s, pos, pos + 3, contains, spanCondition)
    {
      hide Member, BMPSet.Valid, BMPSet.Steps;
      assert s[pos] % 0x10 == s[pos] - 0xe0;
      contains := ContainsThreeBytes(s[pos] % 0x10, s[pos + 1] - 0x80, s[pos + 2] - 0x80);
      ThreeStep(s, pos, contains, spanCondition);
    }

    method StepFourBytes(s: seq<byte>, pos: nat, spanCondition: bool) returns (contains: bool)
      requires Valid() && pos + 3 < |s| && 0xf0 <= s[pos] && Tail(s[pos + 1]) && Tail(s[pos + 2]) && Tail(s[pos + 3])
      ensures Steps(s, pos, pos + 4, contains, spanCondition)
    {
      hide Member, BMPSet.Valid, BMPSet.Steps;
      contains := ContainsFourBytes(Combine4(s[pos], s[pos + 1], s[pos + 2], s[pos + 3]));
      FourStep(s, pos, contains, spanCondition);
    }

    /** Works off one sequence that starts with a non-ASCII byte, legal or not. */
    method StepUTF8(s: seq<byte>, ghost start: nat, pos: nat, limit: nat, spanCondition: bool)
      returns (inSpan: bool, next: nat)
      requires Valid() && Trimmed(s, start, limit) && start <= pos < limit && s[pos] >= 0x80
      ensures pos < next <= limit
      ensures inSpan ==> SpanFromUTF8(list, s, pos, spanCondition) == SpanFromUTF8(list, s, next, spanCondition)
      ensures !inSpan ==> SpanFromUTF8(list, s, pos, spanCondition) == pos
    {
      KnowsReplacement();
      if s[pos] >= 0xc0 { RoomForTrail(s, start, limit, pos); }
      NoTrail(s, pos);
      hide Member, Has, Rank, BMPSet.Valid, SpanFromUTF8, Trimmed, WellFormed;
      var b := s[pos];
      next := pos + 1;
      var contains;
      if b >= 0xe0 {
        if b < 0xf0 {
          if Tail(s[next]) && Tail(s[next + 1]) {
            contains := StepThreeBytes(s, pos, spanCondition);
            next := next + 2;
            inSpan := contains == spanCondition;
            return;
          }
        } else if Tail(s[next]) && Tail(s[next + 1]) && Tail(s[next + 2]) {
          contains := StepFourBytes(s, pos, spanCondition);
          next := next + 3;
          inSpan := contains == spanCondition;
          return;
        }
      } else {
        if b >= 0xc0 && Tail(s[next]) {
          contains := StepTwoBytes(s, pos, spanCondition);
          next := next + 1;
          inSpan := contains == spanCondition;
          return;
        }
      }
      StepsOverIllegal(s, pos, next, containsFFFD, spanCondition);
      inSpan := containsFFFD == spanCondition;
    }

    /** One ASCII character, which is a code point of its own. */
    lemma AsciiStep(s: seq<byte>, pos: nat, condition: bool)
      requires Valid() && pos < |s| && s[pos] < 0x80
      ensures latin1Contains[s[pos]] == condition ==>
        SpanFromUTF8(list, s, pos, condition) == SpanFromUTF8(list, s, pos + 1, condition)
      ensures latin1Contains[s[pos]] != condition ==> SpanFromUTF8(list, s, pos, condition) == pos
      ensures SpanFromUTF8(list, s, |s|, condition) == |s|
    {
      hide Member, Has, Rank;
    }

    /**
     How far the bytes go on with code points that are all in the set, or all outside of it for the condition 0,
     if bytes that are not well-formed count as U+FFFD one by one.
     */
    method SpanUTF8(s: seq<byte>, spanCondition: nat) returns (r: nat)
      requires Valid() && |s| > 0
      ensures r == SpanFromUTF8(list, s, 0, spanCondition != 0)
    {
      hide Member, Has, Rank, SpanFromUTF8, WellFormed, CodePoint8, Trimmed;
      var condition := spanCondition != 0;
      var pos := 0;
      while s[pos] < 0x80
        invariant pos < |s|
        invariant SpanFromUTF8(list, s, 0, condition) == SpanFromUTF8(list, s, pos, condition)
        decreases |s| - pos
      {
        AsciiStep(s, pos, condition);
        if latin1Contains[s[pos]] != condition {
          return pos;
        }
        pos := pos + 1;
        if pos == |s| {
          return pos;
        }
      }
      ghost var start := pos;
      var limit, limit0 := TrimTail(s, pos, condition);
      while pos < limit
        invariant start <= pos <= limit
        invariant SpanFromUTF8(list, s, 0, condition) == SpanFromUTF8(list, s, pos, condition)
        decreases limit - pos, 0
      {
        // ASCII
        while s[pos] < 0x80
          invariant start <= pos < limit
          invariant SpanFromUTF8(list, s, 0, condition) == SpanFromUTF8(list, s, pos, condition)
          decreases limit - pos
        {
          AsciiStep(s, pos, condition);
          if latin1Contains[s[pos]] != condition {
            return pos;
          }
          pos := pos + 1;
          if pos == limit {
            return limit0;
          }
        }
        var inSpan, next := StepUTF8(s, start, pos, limit, condition);
        if !inSpan {
          return pos;
        }
        pos := next;
      }
      return limit0;
    }
  }
}
