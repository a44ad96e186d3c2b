/**
 The bidirectional iterator of `Edits`. It assembles spans from 16-bit units, splits or merges
 compressed runs, and finds the span that contains an index.
 */
module EditsIterator {
  import opened EditSpans
  import opened EditRecords

  // ---------------------------------------------------------------------------------------------
  // Runs of records that make up one span.

  /** Records `a` to `b - 1` are all unchanged text, or all replacements. */
  ghost predicate SameKind(recs: seq<Rec>, a: nat, b: nat) {
    a < b <= |recs| && forall i :: a <= i < b ==> recs[i].Plain? == recs[a].Plain?
  }

  /** Their span. */
  ghost function RunOf(recs: seq<Rec>, a: nat, b: nat): Span
    requires SameKind(recs, a, b)
    ensures RunOf(recs, a, b).Unchanged? == recs[a].Plain?
    decreases b
  {
    if b == a + 1 then recs[a].Whole() else Join(RunOf(recs, a, b - 1), recs[b - 1].Whole())
  }

  lemma {:induction false} RunFromFront(recs: seq<Rec>, a: nat, b: nat)
    requires SameKind(recs, a, b) && a + 1 < b
    ensures RunOf(recs, a, b) == Join(recs[a].Whole(), RunOf(recs, a + 1, b))
    decreases b
  {
    if a + 2 < b { RunFromFront(recs, a, b - 1); }
  }

  /** A run that starts at a span boundary is read as a single span. */
  lemma {:induction false} SpansOfRun(recs: seq<Rec>, a: nat, b: nat, coarse: bool)
    requires AllValid(recs) && SameKind(recs, a, b) && (coarse || recs[a].Plain?)
    requires !Joined(recs, a, coarse)
    ensures SpansFirst(recs, b, coarse) == SpansFirst(recs, a, coarse) + [RunOf(recs, a, b)]
    decreases b
  {
    if b > a + 1 {
      SpansOfRun(recs, a, b - 1, coarse);
    } else if a > 0 {
      LastSpan(recs, a, coarse);
    }
  }

  /** What the fields of a short record's unit say. */
  lemma ShortHead(r: Rec)
    requires r.Valid() && r.Short?
    ensures Head(r) / 0x1000 == r.o && Head(r) / 0x200 % 8 == r.n && Head(r) % 0x200 + 1 == r.num
  {
    var u := Head(r);
    assert u == 0x1000 * r.o + (0x200 * r.n + (r.num - 1));
    assert u == 0x200 * (8 * r.o + r.n) + (r.num - 1);
    assert u / 0x200 == 8 * r.o + r.n;
  }

  /** The three parts in which a length above 0x7fff is stored make it up again. */
  lemma TwoTrails(n: nat, head: nat)
    requires 0x7fff < n <= INT32_MAX && head == LengthCode(n)
    ensures head % 2 * 0x4000_0000 + n / 0x8000 % 0x8000 * 0x8000 + n % 0x8000 == n
  {
    var m := n / 0x8000;
    assert n == m * 0x8000 + n % 0x8000;
    assert m == m / 0x8000 * 0x8000 + m % 0x8000;
    assert n / 0x4000_0000 == m / 0x8000;
  }

  lemma LongHead(r: Rec)
    requires r.Valid() && r.Long?
    ensures |Encode(r)| == 1 + |Trail(r.o)| + |Trail(r.n)|
    ensures Head(r) / 0x40 % 0x40 == LengthCode(r.o) && Head(r) % 0x40 == LengthCode(r.n)
  {
    var a, b := LengthCode(r.o), LengthCode(r.n);
    assert Head(r) == 0x40 * (0x1c0 + a) + b;
    hide LengthCode, Trail;
    assert Head(r) / 0x40 == 0x1c0 + a;
  }

  /** Where the trail units of a long record are. */
  lemma LongUnit(r: Rec, j: nat)
    requires r.Valid() && r.Long? && 0 < j < |Encode(r)|
    ensures |Encode(r)| == 1 + |Trail(r.o)| + |Trail(r.n)|
    ensures Encode(r)[j] == if j <= |Trail(r.o)| then Trail(r.o)[j - 1] else Trail(r.n)[j - 1 - |Trail(r.o)|]
    ensures Encode(r)[j] >= 0x8000
  {}

  lemma Distribute(n: nat, a: nat)
    requires n > 0
    ensures n * a == (n - 1) * a + a
  {}

  lemma Commute(a: nat, b: nat)
    ensures a * b == b * a
  {}

  lemma CancelLess(a: int, b: int, c: nat)
    requires a * c < b * c
    ensures a < b && c > 0
  {}

  /** Which of `num` equal spans from `start` on contains `i`. */
  lemma DivideForward(i: int, start: nat, length: nat, num: nat)
    requires start + length <= i < start + num * length
    ensures length > 0
    ensures var n := (i - start) / length; 1 <= n < num && start + n * length <= i < start + n * length + length
  {
    CancelLess(1, num, length);
    var n, r := (i - start) / length, (i - start) % length;
    assert i - start == n * length + r;
    assert (n + 1) * length == n * length + length;
    CancelLess(n, num, length);
    CancelLess(1, n + 1, length);
  }

  /** Which of the `num` equal spans before `start` contains `i`. */
  lemma DivideBackward(i: int, start: nat, length: nat, num: nat)
    requires start - num * length <= i < start
    ensures length > 0
    ensures var n := (start - i - 1) / length + 1; 1 <= n <= num && start - n * length <= i < start - n * length + length
  {
    CancelLess(0, num, length);
    var m, r := (start - i - 1) / length, (start - i - 1) % length;
    assert start - i - 1 == m * length + r;
    assert (m + 1) * length == m * length + length;
    CancelLess(m, num, length);
    CancelLess(-1, m, length);
  }

  /** The first change at or after span `k`. */
  ghost function ChangeFrom(s: seq<Span>, k: nat): (r: nat)
    requires k <= |s|
    ensures k <= r <= |s|
    decreases |s| - k
  {
    if k == |s| || s[k].Change? then k else ChangeFrom(s, k + 1)
  }

  lemma {:induction false} ChangeFromMeaning(s: seq<Span>, k: nat)
    requires k <= |s|
    ensures forall l :: k <= l < ChangeFrom(s, k) ==> s[l].Unchanged?
    ensures ChangeFrom(s, k) < |s| ==> s[ChangeFrom(s, k)].Change?
    decreases |s| - k
  {
    if k < |s| && s[k].Unchanged? { ChangeFromMeaning(s, k + 1); }
  }

  lemma UnitWithin(r: Rec, j: nat)
    requires r.Valid() && j < |Encode(r)|
    ensures j == 0 ==> Encode(r)[j] == Head(r)
    ensures j > 0 ==> r.Long? && Encode(r)[j] >= 0x8000
  {
    if j > 0 && r.Long? { LongUnit(r, j); }
  }

  /** What one change record adds to the fine spans. */
  lemma FineStep(recs: seq<Rec>, a: nat)
    requires a < |recs| && !recs[a].Plain?
    ensures SpansFirst(recs, a + 1, false) == SpansFirst(recs, a, false) +
            if recs[a].Short? then Copies(Change(recs[a].o, recs[a].n), recs[a].num) else [recs[a].Whole()]
    ensures !Joined(recs, a + 1, false)
  {}

  lemma PlaceStep(s: seq<Span>, k: nat)
    requires k < |s|
    ensures PlaceAt(s, k + 1) == PlaceAt(s, k).After(s[k])
  {}

  class Iterator {
    const units: array<u16>
    const length: nat
    const onlyChanges: bool
    const coarse: bool

    var index: nat
    /** How many equal changes of a compressed record are still to come, the current one included. */
    var remaining: nat
    /** 1 after Next(), -1 after Previous(), 0 before and after all spans. */
    var dir: int
    var changed: bool
    var oldLength: nat
    var newLength: nat
    var srcIndex: nat
    var replIndex: nat
    var destIndex: nat

    /** The records that the units stand for. */
    ghost const recs: seq<Rec>
    /** `index` is the position of this record. */
    ghost var rec: nat
    /** The number of the current span, or of the next one if there is no current span. */
    ghost var current: nat

    /** The spans that this iterator delivers. */
    ghost function All(): seq<Span> { Spans(recs, coarse) }

    /** The number of spans before record `rec`. */
    ghost function Before(): nat
      reads this
      requires rec <= |recs|
    {
      |SpansFirst(recs, rec, coarse)|
    }

    ghost predicate Readable()
      reads units
    {
      && length <= units.Length
      && AllValid(recs)
      && units[..length] == EncodeAll(recs)
    }

    /** `index` is at the start of a record that starts a span. */
    ghost predicate AtRecord()
      reads this
      requires AllValid(recs)
    {
      rec <= |recs| && index == Pos(recs, rec) && !Joined(recs, rec, coarse)
    }

    /** The string indexes are those of the start of span `k`. */
    ghost predicate AtPlace(k: nat)
      reads this
    {
      && k <= |All()|
      && srcIndex == PlaceAt(All(), k).src
      && destIndex == PlaceAt(All(), k).dest
      && replIndex == PlaceAt(All(), k).repl
    }

    /** The span fields describe span `k`. */
    ghost predicate Shows(k: nat)
      reads this
    {
      && k < |All()|
      && oldLength == All()[k].Old()
      && newLength == All()[k].New()
      && changed == All()[k].Change?
    }

    /** In the middle of the compressed changes of record `r`, of which `remaining` are left. */
    ghost predicate Within(r: int)
      reads this
    {
      && !coarse
      && 0 <= r < |recs|
      && recs[r].Short?
      && recs[r].num > 1
      && 1 <= remaining <= recs[r].num
    }

    ghost predicate Valid()
      reads this, units
    {
      && Readable()
      && AtRecord()
      && AtPlace(current)
      && (dir == 0 ==>
            remaining == 0 && oldLength == 0 && newLength == 0 && Before() == current)
      && (dir != 0 ==> dir == 1 || dir == -1)
      && (dir > 0 ==>
            && Shows(current)
            && (remaining == 0 ==> Before() == current + 1)
            && (remaining > 0 ==> Within(rec - 1) && Before() == current + remaining))
      && (dir < 0 ==>
            && Shows(current)
            && (remaining == 0 ==> Before() == current)
            && (remaining > 0 ==> Within(rec) && Before() + recs[rec].num == current + remaining))
    }

    constructor (units: array<u16>, length: nat, onlyChanges: bool, coarse: bool, ghost recs: seq<Rec>)
      requires length <= units.Length && AllValid(recs) && units[..length] == EncodeAll(recs)
      ensures Valid() && dir == 0 && current == 0
      ensures this.units == units && this.length == length && this.recs == recs
      ensures this.onlyChanges == onlyChanges && this.coarse == coarse
    {
      this.units, this.length, this.onlyChanges, this.coarse := units, length, onlyChanges, coarse;
      index, remaining, dir, changed := 0, 0, 0, false;
      oldLength, newLength, srcIndex, replIndex, destIndex := 0, 0, 0, 0, 0;
      this.recs := recs;
      rec, current := 0, 0;
    }

    /** What the array holds at a record boundary. */
    lemma HeadAt(r: nat)
      requires Readable() && r <= |recs|
      ensures Pos(recs, r) <= length
      ensures Pos(recs, r) < length <==> r < |recs|
      ensures r < |recs| ==> units[Pos(recs, r)] == Head(recs[r])
      ensures r < |recs| && !recs[r].Long? ==> Pos(recs, r + 1) == Pos(recs, r) + 1
    {
      PosMonotone(recs, r, |recs|);
      if r < |recs| {
        UnitsOfRecord(recs, r);
        assert units[Pos(recs, r)] == units[..length][Pos(recs, r)];
        assert Encode(recs[r])[0] == Head(recs[r]);
      }
    }

    method UpdateNextIndexes()
      modifies this`srcIndex, this`replIndex, this`destIndex
      ensures srcIndex == old(srcIndex) + oldLength && destIndex == old(destIndex) + newLength
      ensures replIndex == old(replIndex) + if changed then newLength else 0
    {
      srcIndex := srcIndex + oldLength;
      if changed {
        replIndex := replIndex + newLength;
      }
      destIndex := destIndex + newLength;
    }

    method UpdatePreviousIndexes()
      requires srcIndex >= oldLength && destIndex >= newLength && (changed ==> replIndex >= newLength)
      modifies this`srcIndex, this`replIndex, this`destIndex
      ensures srcIndex == old(srcIndex) - oldLength && destIndex == old(destIndex) - newLength
      ensures replIndex == old(replIndex) - if changed then newLength else 0
    {
      srcIndex := srcIndex - oldLength;
      if changed {
        replIndex := replIndex - newLength;
      }
      destIndex := destIndex - newLength;
    }

    method NoNext() returns (more: bool)
      modifies this`dir, this`changed, this`oldLength, this`newLength
      ensures !more && dir == 0 && !changed && oldLength == 0 && newLength == 0
    {
      dir := 0;
      changed := false;
      oldLength, newLength := 0, 0;
      more := false;
    }

    /** Reads the trail units of a length whose code is in the head unit. */
    method ReadLength(head: nat, ghost n: nat) returns (len: nat)
      requires n <= INT32_MAX && head == LengthCode(n)
      requires index + |Trail(n)| <= units.Length
      requires forall j :: index <= j < index + |Trail(n)| ==> units[j] == Trail(n)[j - index]
      modifies this`index
      ensures len == n && index == old(index) + |Trail(n)|
    {
      if head < LENGTH_IN_1TRAIL {
        len := head;
      } else if head < LENGTH_IN_2TRAIL {
        assert units[index] == Trail(n)[0];
        len := units[index] % 0x8000;
        index := index + 1;
      } else {
        TwoTrails(n, head);
        assert units[index] == Trail(n)[0] && units[index + 1] == Trail(n)[1];
        var high: nat, low: nat := units[index] % 0x8000, units[index + 1] % 0x8000;
        len := head % 2 * 0x4000_0000 + high * 0x8000 + low;
        index := index + 2;
      }
    }

    lemma UnitAt(r: nat, j: nat)
      requires Readable() && r < |recs| && j < |Encode(recs[r])|
      ensures Pos(recs, r + 1) == Pos(recs, r) + |Encode(recs[r])| <= length
      ensures units[Pos(recs, r) + j] == Encode(recs[r])[j]
    {
      UnitsOfRecord(recs, r);
      assert |units[..length]| == length;
      assert units[Pos(recs, r) + j] == units[..length][Pos(recs, r) + j];
    }

    /** Reads both lengths of the long record `r` whose head unit `u` has just been read. */
    method ReadLengths(u: u16, ghost r: nat) returns (o: nat, n: nat)
      requires Readable() && r < |recs| && recs[r].Long?
      requires u == Head(recs[r]) && index == Pos(recs, r) + 1
      modifies this`index
      ensures o == recs[r].o && n == recs[r].n && index == Pos(recs, r + 1)
    {
      hide Encode, Trail, LengthCode, Head, EncodeAll, Pos;
      ghost var x, start := recs[r], Pos(recs, r);
      ghost var t := |Trail(x.o)|;
      LongHead(x);
      UnitAt(r, 0);
      forall j | start < j < start + |Encode(x)|
        ensures units[j] == if j - start <= t then Trail(x.o)[j - start - 1] else Trail(x.n)[j - start - 1 - t]
      {
        var k := j - start;
        LongUnit(x, k);
        UnitAt(r, k);
        assert units[start + k] == Encode(x)[k];
      }
      o := ReadLength(u / 0x40 % 0x40, recs[r].o);
      n := ReadLength(u % 0x40, recs[r].n);
    }

    // -------------------------------------------------------------------------------------------
    // Forward.

    /** Reads the rest of an unchanged span whose first unit `u` has just been read. */
    method ReadUnchanged(u: u16, ghost a: nat)
      requires Readable() && a < |recs| && recs[a].Plain? && u == Head(recs[a]) && !Joined(recs, a, coarse)
      requires rec == a && index == Pos(recs, a) + 1
      modifies this`index, this`rec, this`changed, this`oldLength, this`newLength
      ensures !changed && oldLength == newLength
      ensures a < rec <= |recs| && AtRecord()
      ensures rec < |recs| ==> !recs[rec].Plain?
      ensures SpansFirst(recs, rec, coarse) == SpansFirst(recs, a, coarse) + [Unchanged(oldLength)]
    {
      hide Pos, EncodeAll, SpansFirst, Joined;
      changed := false;
      oldLength := u + 1;
      HeadAt(a);
      rec := a + 1;
      assert SameKind(recs, a, rec) && RunOf(recs, a, rec) == Unchanged(oldLength);
      HeadAt(rec);
      while index < length && units[index] <= MAX_UNCHANGED
        invariant SameKind(recs, a, rec) && RunOf(recs, a, rec) == Unchanged(oldLength)
        invariant index == Pos(recs, rec) && !changed
        invariant index < length <==> rec < |recs|
        invariant rec < |recs| ==> units[index] == Head(recs[rec])
        decreases |recs| - rec
      {
        oldLength := oldLength + units[index] + 1;
        HeadAt(rec);
        index := index + 1;
        rec := rec + 1;
        HeadAt(rec);
      }
      newLength := oldLength;
      SpansOfRun(recs, a, rec, coarse);
      NotJoined(rec);
    }

    /** Where the kind of record changes, a span ends. */
    lemma NotJoined(r: nat)
      requires r <= |recs|
      requires 0 < r < |recs| ==> recs[r - 1].Plain? != recs[r].Plain?
      ensures !Joined(recs, r, coarse)
    {}

    /** Reads one change record whose head unit `u` has just been read. */
    method ReadRecord(u: u16) returns (o: nat, n: nat)
      requires Readable() && rec < |recs| && !recs[rec].Plain? && u == Head(recs[rec])
      requires index == Pos(recs, rec) + 1
      modifies this`index, this`rec
      ensures rec == old(rec) + 1 && index == Pos(recs, rec)
      ensures Change(o, n) == recs[old(rec)].Whole()
    {
      hide Pos, EncodeAll, Head;
      if u <= MAX_SHORT_CHANGE {
        var num := u % 0x200 + 1;
        ShortHead(recs[rec]);
        o, n := num * (u / 0x1000), num * (u / 0x200 % 8);
        HeadAt(rec);
      } else {
        o, n := ReadLengths(u, rec);
      }
      rec := rec + 1;
    }

    /** Joins the change records that follow with the change that starts at record `a`. */
    method CombineChanges(ghost a: nat)
      requires Readable() && coarse && a < rec <= |recs| && index == Pos(recs, rec)
      requires !Joined(recs, a, coarse) && SameKind(recs, a, rec) && !recs[a].Plain?
      requires RunOf(recs, a, rec) == Change(oldLength, newLength)
      modifies this`index, this`rec, this`oldLength, this`newLength
      ensures a < rec <= |recs| && AtRecord()
      ensures SpansFirst(recs, rec, coarse) == SpansFirst(recs, a, coarse) + [Change(oldLength, newLength)]
    {
      hide Pos, EncodeAll, SpansFirst, Joined;
      HeadAt(rec);
      while index < length && units[index] > MAX_UNCHANGED
        invariant SameKind(recs, a, rec) && RunOf(recs, a, rec) == Change(oldLength, newLength)
        invariant index == Pos(recs, rec)
        invariant index < length <==> rec < |recs|
        invariant rec < |recs| ==> units[index] == Head(recs[rec])
        decreases |recs| - rec
      {
        var u := units[index];
        index := index + 1;
        var o, n := ReadRecord(u);
        oldLength, newLength := oldLength + o, newLength + n;
        HeadAt(rec);
      }
      SpansOfRun(recs, a, rec, coarse);
      NotJoined(rec);
    }

    /** Reads a change, or a sequence of compressed changes, whose head unit `u` has just been read. */
    method ReadChange(u: u16, ghost a: nat)
      requires Readable() && a < |recs| && !recs[a].Plain? && u == Head(recs[a]) && !Joined(recs, a, coarse)
      requires rec == a && index == Pos(recs, a) + 1 && remaining == 0
      modifies this`index, this`rec, this`remaining, this`changed, this`oldLength, this`newLength
      ensures changed
      ensures a < rec <= |recs| && AtRecord()
      ensures remaining > 0 ==> Within(rec - 1) && remaining == recs[rec - 1].num
      ensures var before, after := SpansFirst(recs, a, coarse), SpansFirst(recs, rec, coarse);
              && |after| == |before| + (if remaining > 0 then remaining else 1)
              && after[|before|] == Change(oldLength, newLength)
    {
      hide Pos, EncodeAll, SpansFirst, Head;
      changed := true;
      if u <= MAX_SHORT_CHANGE && !coarse {
        ShortHead(recs[a]);
        var num := u % 0x200 + 1;
        oldLength, newLength := u / 0x1000, u / 0x200 % 8;
        HeadAt(a);
        FineStep(recs, a);
        rec := rec + 1;
        if num > 1 {
          remaining := num;
        }
      } else {
        oldLength, newLength := ReadRecord(u);
        if coarse {
          CombineChanges(a);
        } else {
          FineStep(recs, a);
        }
      }
    }

    /** Up to a record that starts a span, the spans are those of the records read so far. */
    lemma ReadSoFar(r: nat)
      requires AllValid(recs) && r <= |recs| && !Joined(recs, r, coarse)
      ensures SpansFirst(recs, r, coarse) <= All()
      ensures r < |recs| <==> |SpansFirst(recs, r, coarse)| < |All()|
    {
      if r < |recs| { SpansPrefix(recs, r, |recs|, coarse); }
    }

    /** The span that `Next` considers first. */
    ghost function Upcoming(): nat
      reads this
      requires rec <= |recs|
    {
      if dir <= 0 then current else if remaining == 0 then Before() else current + 1
    }

    /** Covers all spans up to record `rec` with a single pair of lengths. */
    ghost predicate Skipping()
      reads this, units
    {
      && Readable() && AtRecord() && dir == 1 && remaining == 0
      && Before() <= |All()|
      && srcIndex + oldLength == PlaceAt(All(), Before()).src
      && destIndex + newLength == PlaceAt(All(), Before()).dest
      && replIndex + (if changed then newLength else 0) == PlaceAt(All(), Before()).repl
    }

    /** Stands between spans, before span `k`, with the indexes up to date. */
    ghost predicate Between(k: nat)
      reads this, units
    {
      Readable() && AtRecord() && AtPlace(k) && Before() == k && remaining == 0
    }

    /** Assembles the next span from the record at `index`. */
    method NextFromRecord(only: bool) returns (more: bool)
      requires Between(current) && dir == 1
      modifies this
      ensures Valid()
      ensures var q := if only then ChangeFrom(All(), old(current)) else old(current);
              && current == q
              && (more <==> q < |All()|)
              && dir == if more then 1 else 0
    {
      hide Pos, EncodeAll, SpansFirst, PlaceAt;
      HeadAt(rec);
      ReadSoFar(rec);
      if index >= length {
        more := NoNext();
        return;
      }
      var u := units[index];
      index := index + 1;
      if u <= MAX_UNCHANGED {
        ReadUnchanged(u, rec);
        HeadAt(rec);
        ReadSoFar(rec);
        if only {
          UpdateNextIndexes();
          PlaceStep(All(), current);
          current := current + 1;
          if index >= length {
            more := NoNext();
            return;
          }
          u := units[index];
          index := index + 1;
        } else {
          return true;
        }
      }
      ReadChange(u, rec);
      ReadSoFar(rec);
      more := true;
    }

    /** The direction changes within a compressed record: the same span is delivered again. */
    method TurnForward()
      requires Valid() && dir < 0 && remaining > 0
      modifies this
      ensures Valid() && dir == 1 && current == old(current) < |All()|
      ensures All()[current].Change?
    {
      hide Pos, EncodeAll, SpansFirst, PlaceAt;
      ReadSoFar(rec);
      PackedSpans(rec);
      HeadAt(rec);
      index := index + 1;
      dir := 1;
      rec := rec + 1;
    }

    /** Advances to the next span, or to the next change if `only` is set. */
    method Next(only: bool) returns (more: bool)
      requires Valid() || Skipping()
      modifies this
      ensures Valid()
      ensures var q := if only then ChangeFrom(All(), old(Upcoming())) else old(Upcoming());
              && current == q
              && (more <==> q < |All()|)
              && dir == if more then 1 else 0
    {
      hide Pos, EncodeAll, SpansFirst, PlaceAt;
      ReadSoFar(rec);
      if dir > 0 {
        ghost var upcoming := Upcoming();
        if Valid() { PlaceStep(All(), current); }
        UpdateNextIndexes();
        current := upcoming;
      } else {
        if dir < 0 {
          if remaining > 0 {
            TurnForward();
            return true;
          }
        }
        dir := 1;
      }
      if remaining >= 1 {
        if remaining > 1 {
          PackedSpans(rec - 1);
          remaining := remaining - 1;
          return true;
        }
        remaining := 0;
      }
      more := NextFromRecord(only);
    }

    /** The spans of a record of compressed changes. */
    lemma PackedSpans(r: nat)
      requires AllValid(recs) && r < |recs| && recs[r].Short? && !coarse
      ensures !Joined(recs, r, coarse) && !Joined(recs, r + 1, coarse)
      ensures var before := |SpansFirst(recs, r, coarse)|;
              && |SpansFirst(recs, r + 1, coarse)| == before + recs[r].num <= |All()|
              && forall k :: before <= k < before + recs[r].num ==> All()[k] == Change(recs[r].o, recs[r].n)
    {
      FineStep(recs, r);
      ReadSoFar(r + 1);
    }

    // -------------------------------------------------------------------------------------------
    // Backward.

    /** What the array holds `j` units into a record that is entered from behind. */
    lemma UnitBefore(r: nat, j: nat)
      requires Readable() && 0 < r <= |recs|
      requires Pos(recs, r - 1) <= j < Pos(recs, r)
      ensures Pos(recs, r) <= length
      ensures j == Pos(recs, r - 1) ==> units[j] == Head(recs[r - 1])
      ensures j > Pos(recs, r - 1) ==> recs[r - 1].Long? && units[j] >= 0x8000
    {
      hide Pos, Encode, EncodeAll, Head;
      var x, k := recs[r - 1], j - Pos(recs, r - 1);
      UnitsOfRecord(recs, r - 1);
      UnitAt(r - 1, k);
      UnitWithin(x, k);
    }

    lemma PositionBefore(r: nat)
      requires Readable() && r <= |recs|
      ensures r > 0 <==> Pos(recs, r) > 0
      ensures r > 0 ==> Pos(recs, r - 1) < Pos(recs, r)
    {
      if r > 0 { PosMonotone(recs, r - 1, r); }
    }

    /** Reads the rest of an unchanged span whose last unit `u`, of record `rec - 1`, has just been read. */
    method ReadUnchangedBack(u: u16, ghost b: nat)
      requires Readable() && 0 < b <= |recs| && recs[b - 1].Plain? && u == Head(recs[b - 1])
      requires rec == b && index + 1 == Pos(recs, b)
      requires !Joined(recs, b, coarse)
      modifies this`index, this`rec, this`changed, this`oldLength, this`newLength
      ensures !changed && oldLength == newLength
      ensures rec < b && AtRecord()
      ensures SpansFirst(recs, b, coarse) == SpansFirst(recs, rec, coarse) + [Unchanged(oldLength)]
    {
      hide Pos, EncodeAll, SpansFirst, Joined, Head;
      changed := false;
      oldLength := u + 1;
      PositionBefore(b);
      HeadAt(b - 1);
      rec := b - 1;
      assert SameKind(recs, rec, b) && RunOf(recs, rec, b) == Unchanged(oldLength) by { WholeOfHead(recs[rec]); }
      PositionBefore(rec);
      if rec > 0 { UnitBefore(rec, index - 1); }
      while index > 0 && units[index - 1] <= MAX_UNCHANGED
        invariant rec < b && SameKind(recs, rec, b) && RunOf(recs, rec, b) == Unchanged(oldLength)
        invariant index == Pos(recs, rec) <= units.Length && !changed
        invariant index > 0 <==> rec > 0
        invariant rec > 0 ==> (units[index - 1] <= MAX_UNCHANGED <==> recs[rec - 1].Plain?)
        decreases rec
      {
        RunGrowsBack(rec, b);
        var w := units[index - 1];
        index := index - 1;
        oldLength := oldLength + w + 1;
        rec := rec - 1;
      }
      newLength := oldLength;
      NotJoined(rec);
      SpansOfRun(recs, rec, b, coarse);
    }

    /** One more unchanged record joins the run that starts at `r`. */
    lemma RunGrowsBack(r: nat, b: nat)
      requires Readable() && 0 < r < b <= |recs| && SameKind(recs, r, b) && recs[r].Plain? && recs[r - 1].Plain?
      ensures Pos(recs, r) > 0 && Pos(recs, r - 1) == Pos(recs, r) - 1 < units.Length
      ensures SameKind(recs, r - 1, b)
      ensures RunOf(recs, r - 1, b) == Unchanged(units[Pos(recs, r) - 1] + 1 + RunOf(recs, r, b).length)
      ensures Pos(recs, r - 1) > 0 <==> r > 1
      ensures r > 1 ==> (units[Pos(recs, r - 1) - 1] <= MAX_UNCHANGED <==> recs[r - 2].Plain?)
    {
      hide Pos, EncodeAll, SpansFirst, Joined, Head;
      HeadAt(r - 1);
      WholeOfHead(recs[r - 1]);
      assert SameKind(recs, r - 1, b);
      RunFromFront(recs, r - 1, b);
      PositionBefore(r - 1);
      if r > 1 { UnitBefore(r - 1, Pos(recs, r - 1) - 1); }
    }

    lemma WholeOfHead(r: Rec)
      requires r.Valid() && r.Plain?
      ensures r.Whole() == Unchanged(Head(r) + 1)
    {}

    /** `index` is at the start of record `rec` or, entered from behind, inside a long record `rec - 1`. */
    ghost predicate Backing()
      reads this
      requires AllValid(recs)
    {
      && rec <= |recs|
      && (index == Pos(recs, rec)
          || (rec > 0 && recs[rec - 1].Long? && Pos(recs, rec - 1) < index < Pos(recs, rec)))
    }

    /** Reads the change record `rec - 1`, at whose head unit `u` the index stands. */
    method ReadRecordBack(u: u16) returns (o: nat, n: nat)
      requires Readable() && 0 < rec <= |recs| && !recs[rec - 1].Plain? && u == Head(recs[rec - 1])
      requires index == Pos(recs, rec - 1)
      modifies this`index, this`rec
      ensures rec == old(rec) - 1 && index == Pos(recs, rec)
      ensures Change(o, n) == recs[rec].Whole()
    {
      hide Pos, EncodeAll, Head;
      rec := rec - 1;
      if u <= MAX_SHORT_CHANGE {
        var num := u % 0x200 + 1;
        ShortHead(recs[rec]);
        o, n := num * (u / 0x1000), num * (u / 0x200 % 8);
      } else {
        var headIndex := index;
        index := index + 1;
        o, n := ReadLengths(u, rec);
        index := headIndex;
      }
    }

    /** Joins the change records that precede with the change that ends before record `b`. */
    method CombineChangesBack(ghost b: nat)
      requires Readable() && coarse && rec < b <= |recs| && index == Pos(recs, rec)
      requires !Joined(recs, b, coarse) && SameKind(recs, rec, b) && !recs[rec].Plain?
      requires RunOf(recs, rec, b) == Change(oldLength, newLength)
      modifies this`index, this`rec, this`oldLength, this`newLength
      ensures rec < b && AtRecord()
      ensures SpansFirst(recs, b, coarse) == SpansFirst(recs, rec, coarse) + [Change(oldLength, newLength)]
    {
      hide Pos, EncodeAll, SpansFirst, Joined, Head;
      BeforeIndex();
      while index > 0 && units[index - 1] > MAX_UNCHANGED
        invariant rec < b && SameKind(recs, rec, b) && !recs[rec].Plain?
        invariant RunOf(recs, rec, b) == Change(oldLength, newLength)
        invariant Backing() && index <= length
        invariant index > 0 <==> rec > 0
        invariant rec > 0 ==> UnitBehind()
        decreases index
      {
        var u := units[index - 1];
        index := index - 1;
        if u <= 0x7fff {
          var o, n := ReadRecordBack(u);
          oldLength, newLength := oldLength + o, newLength + n;
          RunFromFront(recs, rec, b);
        }
        BeforeIndex();
      }
      NotJoined(rec);
      SpansOfRun(recs, rec, b, coarse);
    }

    /** What the unit before `index` tells. */
    ghost predicate UnitBehind()
      reads this, units
      requires AllValid(recs) && 0 < rec <= |recs|
    {
      && 0 < index <= units.Length
      && var u, r := units[index - 1], recs[rec - 1];
         if index - 1 == Pos(recs, rec - 1) then u == Head(r)
         else r.Long? && u > 0x7fff && Pos(recs, rec - 1) < index - 1 < Pos(recs, rec)
    }

    lemma BeforeIndex()
      requires Readable() && Backing()
      ensures index <= length
      ensures index > 0 <==> rec > 0
      ensures rec > 0 ==> UnitBehind()
    {
      hide Pos, EncodeAll, Head;
      PositionBefore(rec);
      HeadAt(rec);
      if rec > 0 { UnitBefore(rec, index - 1); }
    }

    /** Reads a change backward; `u`, the last unit of record `rec - 1`, has just been read. */
    method ReadChangeBack(u: u16, ghost b: nat)
      requires Readable() && 0 < b <= |recs| && !recs[b - 1].Plain? && !Joined(recs, b, coarse)
      requires rec == b && index + 1 == Pos(recs, b) && index < length && u == units[index] && remaining == 0
      modifies this`index, this`rec, this`remaining, this`changed, this`oldLength, this`newLength
      ensures changed
      ensures rec < b && AtRecord()
      ensures remaining > 0 ==> Within(rec) && remaining == 1 && rec == b - 1
      ensures var before, after := SpansFirst(recs, rec, coarse), SpansFirst(recs, b, coarse);
              && |after| == |before| + (if remaining > 0 then recs[rec].num else 1)
              && after[|after| - 1] == Change(oldLength, newLength)
    {
      hide Pos, EncodeAll, SpansFirst, Head;
      changed := true;
      PositionBefore(b);
      UnitBefore(b, index);
      if u <= MAX_SHORT_CHANGE && !coarse {
        ShortHead(recs[b - 1]);
        FineStep(recs, b - 1);
        var num := u % 0x200 + 1;
        oldLength, newLength := u / 0x1000, u / 0x200 % 8;
        rec := rec - 1;
        if num > 1 {
          remaining := 1;
        }
      } else {
        var head := u;
        while head > 0x7fff
          invariant Pos(recs, b - 1) <= index < length
          invariant index < Pos(recs, b) && rec == b && changed && remaining == 0
          invariant head == units[index]
          decreases index
        {
          UnitBefore(b, index);
          index := index - 1;
          head := units[index];
        }
        UnitBefore(b, index);
        oldLength, newLength := ReadRecordBack(head);
        if coarse {
          CombineChangesBack(b);
        } else {
          FineStep(recs, b - 1);
        }
      }
    }

    /** Assembles the span that ends before the record at `index`. */
    method PreviousFromRecord() returns (more: bool)
      requires Between(current) && dir == -1
      modifies this
      ensures Valid()
      ensures more <==> old(current) > 0
      ensures if more then current == old(current) - 1 && dir == -1 else current == 0 && dir == 0
    {
      hide Pos, EncodeAll, SpansFirst, PlaceAt, Head;
      PositionBefore(rec);
      HeadAt(rec);
      ReadSoFar(rec);
      if rec > 0 { SpansGrow(rec); } else { NoSpans(); }
      if index <= 0 {
        more := NoNext();
        return;
      }
      index := index - 1;
      UnitBefore(rec, index);
      var u := units[index];
      if u <= MAX_UNCHANGED {
        ReadUnchangedBack(u, rec);
      } else {
        ReadChangeBack(u, rec);
      }
      current := current - 1;
      ReadSoFar(rec);
      PlaceStep(All(), current);
      UpdatePreviousIndexes();
      more := true;
    }

    lemma SpansGrow(r: nat)
      requires AllValid(recs) && 0 < r <= |recs|
      ensures |SpansFirst(recs, r, coarse)| > 0
    {
      LastSpan(recs, r, coarse);
    }

    lemma NoSpans()
      ensures |SpansFirst(recs, 0, coarse)| == 0
    {}

    /** Moves to the previous span. */
    method Previous() returns (more: bool)
      requires Valid()
      modifies this
      ensures Valid()
      ensures more <==> (old(dir) > 0 || old(current) > 0)
      ensures more ==> dir == -1 && current == if old(dir) > 0 then old(current) else old(current) - 1
      ensures !more ==> dir == 0 && current == 0
    {
      hide Pos, EncodeAll, SpansFirst, PlaceAt, Head;
      ReadSoFar(rec);
      if dir >= 0 {
        if dir > 0 {
          if remaining > 0 {
            PackedSpans(rec - 1);
            HeadAt(rec - 1);
            index := index - 1;
            dir := -1;
            rec := rec - 1;
            return true;
          }
          PlaceStep(All(), current);
          UpdateNextIndexes();
          current := current + 1;
        }
        dir := -1;
      }
      more := PreviousPacked();
      if !more {
        more := PreviousFromRecord();
      }
    }

    /** The compressed change before the current one, if the record has one. */
    method PreviousPacked() returns (more: bool)
      requires dir == -1 && if remaining > 0 then Valid() else Between(current)
      modifies this`remaining, this`current, this`srcIndex, this`replIndex, this`destIndex
      ensures if more then Valid() && current == old(current) - 1 else Between(current) && current == old(current)
    {
      hide Pos, EncodeAll, SpansFirst, PlaceAt, Head;
      if remaining > 0 {
        PackedSpans(rec);
        HeadAt(rec);
        ShortHead(recs[rec]);
        var u := units[index];
        if remaining <= u % 0x200 {
          remaining := remaining + 1;
          current := current - 1;
          PlaceStep(All(), current);
          UpdatePreviousIndexes();
          return true;
        }
        remaining := 0;
      }
      more := false;
    }

    // -------------------------------------------------------------------------------------------
    // Finding an index.

    /** Where span `k` starts, in the source or in the destination. */
    ghost function Start(k: nat, source: bool): nat
      requires k <= |All()|
    {
      if source then PlaceAt(All(), k).src else PlaceAt(All(), k).dest
    }

    ghost function Size(k: nat, source: bool): nat
      requires k < |All()|
    {
      if source then All()[k].Old() else All()[k].New()
    }

    /** Span `k` contains index `i`. */
    ghost predicate Holds(k: nat, i: int, source: bool) {
      k < |All()| && Start(k, source) <= i < Start(k, source) + Size(k, source)
    }

    /** Where equal spans in a row start. */
    lemma {:induction false} PackedPlaces(k: nat, n: nat, x: Span)
      requires k + n <= |All()| && x.Change?
      requires forall j :: k <= j < k + n ==> All()[j] == x
      ensures PlaceAt(All(), k + n).src == PlaceAt(All(), k).src + n * x.Old()
      ensures PlaceAt(All(), k + n).dest == PlaceAt(All(), k).dest + n * x.New()
      ensures PlaceAt(All(), k + n).repl == PlaceAt(All(), k).repl + n * x.New()
    {
      if n > 0 {
        PackedPlaces(k, n - 1, x);
        PlaceStep(All(), k + n - 1);
        Distribute(n, x.Old());
        Distribute(n, x.New());
      }
    }

    lemma StartStep(k: nat, source: bool)
      requires k < |All()|
      ensures Start(k + 1, source) == Start(k, source) + Size(k, source)
    {}

    /** The rest of the compressed edits, from the current one on. */
    lemma PackedStart(source: bool)
      requires Valid() && dir == 1 && remaining > 0
      ensures current + remaining == Before() <= |All()|
      ensures Start(current + remaining, source) == Start(current, source) + remaining * Size(current, source)
    {
      hide Pos, EncodeAll, SpansFirst, PlaceAt, Head;
      PackedSpans(rec - 1);
      PackedPlaces(current, remaining, All()[current]);
    }

    /** Moves `n` compressed edits ahead. */
    method JumpForward(n: nat, ghost source: bool)
      requires Valid() && dir == 1 && 1 <= n < remaining
      modifies this`srcIndex, this`replIndex, this`destIndex, this`remaining, this`current
      ensures Valid() && dir == 1 && current == old(current) + n
      ensures Start(current, source) == Start(old(current), source) + n * Size(old(current), source)
      ensures Size(current, source) == Size(old(current), source)
    {
      hide Pos, EncodeAll, SpansFirst, PlaceAt, Head;
      PackedSpans(rec - 1);
      PackedPlaces(current, n, All()[current]);
      srcIndex := srcIndex + n * oldLength;
      replIndex := replIndex + n * newLength;
      destIndex := destIndex + n * newLength;
      remaining := remaining - n;
      current := current + n;
    }

    /** Makes Next() skip all of the compressed edits at once. */
    method SkipPacked()
      requires Valid() && dir == 1 && remaining > 0
      modifies this`oldLength, this`newLength, this`remaining
      ensures Skipping() && Upcoming() == current + old(remaining)
    {
      hide Pos, EncodeAll, SpansFirst, PlaceAt, Head;
      PackedSpans(rec - 1);
      ghost var x, k := All()[current], remaining;
      PackedPlaces(current, k, x);
      Commute(oldLength, k);
      Commute(newLength, k);
      oldLength := oldLength * remaining;
      newLength := newLength * remaining;
      remaining := 0;
    }

    /** Moves forward to the span that contains `i`, which is not before the upcoming span. */
    method FindForward(i: int, findSource: bool) returns (where: int)
      requires Valid()
      requires Start(Upcoming(), findSource) <= i
      modifies this
      ensures Valid()
      ensures where == 0 ==> Holds(current, i, findSource) && dir != 0
      ensures where != 0 ==> where == 1 && current == |All()| && Start(|All()|, findSource) <= i
    {
      hide Pos, EncodeAll, SpansFirst, PlaceAt, Head;
      ReadSoFar(rec);
      var more := Next(false);
      while more
        invariant Valid()
        invariant more <==> current < |All()|
        invariant dir == if more then 1 else 0
        invariant Start(current, findSource) <= i
        decreases |All()| - current
      {
        var spanStart, spanLength;
        if findSource {
          spanStart, spanLength := srcIndex, oldLength;
        } else {
          spanStart, spanLength := destIndex, newLength;
        }
        if i < spanStart + spanLength {
          return 0;
        }
        StartStep(current, findSource);
        if remaining > 1 {
          PackedStart(findSource);
          var len := remaining * spanLength;
          if i < spanStart + len {
            DivideForward(i, spanStart, spanLength, remaining);
            var n := (i - spanStart) / spanLength;
            JumpForward(n, findSource);
            return 0;
          }
          SkipPacked();
        }
        more := Next(false);
      }
      where := 1;
    }

    /** Moves `n` compressed edits back. */
    method JumpBack(n: nat, ghost source: bool)
      requires Valid() && dir == -1 && remaining > 0 && remaining + n <= recs[rec].num
      modifies this`srcIndex, this`replIndex, this`destIndex, this`remaining, this`current
      ensures Valid() && dir == -1 && current == old(current) - n && remaining == old(remaining) + n
      ensures Start(old(current), source) == Start(current, source) + n * Size(old(current), source)
      ensures Size(current, source) == Size(old(current), source)
    {
      hide Pos, EncodeAll, SpansFirst, PlaceAt, Head;
      PackedSpans(rec);
      PackedPlaces(current - n, n, All()[current]);
      srcIndex := srcIndex - n * oldLength;
      replIndex := replIndex - n * newLength;
      destIndex := destIndex - n * newLength;
      remaining := remaining + n;
      current := current - n;
    }

    /** Leaves the compressed edits of a record by their start. */
    method ForgetPacked()
      requires Valid() && dir == -1 && remaining > 0 && remaining == recs[rec].num
      modifies this`remaining
      ensures Valid() && remaining == 0
    {
      hide Pos, EncodeAll, SpansFirst, PlaceAt, Head;
      PackedSpans(rec);
      remaining := 0;
    }

    /** Moves backward to the span that contains `i`, which is before the current span. */
    method FindBackward(i: int, findSource: bool)
      requires Valid() && 0 <= i < Start(current, findSource)
      modifies this
      ensures Valid() && dir == -1 && Holds(current, i, findSource)
    {
      hide Pos, EncodeAll, SpansFirst, Head;
      while true
        invariant Valid() && i < Start(current, findSource)
        decreases current, dir
      {
        var hasPrevious := Previous();
        StartStep(current, findSource);
        var spanStart := if findSource then srcIndex else destIndex;
        if i >= spanStart {
          return;
        }
        if remaining > 0 {
          var found := FindPackedBack(i, findSource, spanStart);
          if found {
            return;
          }
        }
      }
    }

    /** Looks for the span that contains `i` among the compressed edits before the current one, or skips them. */
    method FindPackedBack(i: nat, findSource: bool, spanStart: nat) returns (found: bool)
      requires Valid() && dir == -1 && remaining > 0 && i < spanStart == Start(current, findSource)
      modifies this`srcIndex, this`replIndex, this`destIndex, this`remaining, this`current
      ensures Valid()
      ensures found ==> Holds(current, i, findSource)
      ensures !found ==> i < Start(current, findSource) && current <= old(current)
    {
      hide Pos, EncodeAll, SpansFirst, Head;
      PackedSpans(rec);
      ShortHead(recs[rec]);
      HeadAt(rec);
      var spanLength := if findSource then oldLength else newLength;
      var u := units[index];
      var num := u % 0x200 + 1 - remaining;
      var len := num * spanLength;
      if i >= spanStart - len {
        // The index is in one of them.
        DivideBackward(i, spanStart, spanLength, num);
        var n := (spanStart - i - 1) / spanLength + 1;
        JumpBack(n, findSource);
        return true;
      }
      JumpBack(num, findSource);
      ForgetPacked();
      return false;
    }

    /** Resets the iterator to the start. */
    method ResetToStart()
      requires Readable()
      modifies this
      ensures Valid() && dir == 0 && current == 0
    {
      dir := 0;
      index, remaining, oldLength, newLength, srcIndex, replIndex, destIndex := 0, 0, 0, 0, 0, 0, 0;
      rec, current := 0, 0;
    }

    /** Finds the span that contains `i`: -1 if `i` is negative, 0 if found, 1 if past the end. */
    method FindIndex(i: int, findSource: bool) returns (where: int)
      requires Valid()
      modifies this
      ensures Valid()
      ensures i < 0 ==> where == -1
      ensures i >= 0 ==> where == if i < Start(|All()|, findSource) then 0 else 1
      ensures where == 0 ==> Holds(current, i, findSource) && dir != 0
      ensures where == 1 ==> current == |All()|
    {
      hide Pos, EncodeAll, SpansFirst, Head, PlaceAt;
      if i < 0 { return -1; }
      StartOfAll(findSource);
      if current < |All()| { StartStep(current, findSource); }
      var spanStart, spanLength;
      if findSource {
        spanStart, spanLength := srcIndex, oldLength;
      } else {
        spanStart, spanLength := destIndex, newLength;
      }
      if i < spanStart {
        if i >= spanStart / 2 {
          FindBackward(i, findSource);
          HeldInside(current, i, findSource);
          return 0;
        }
        ResetToStart();
      } else if i < spanStart + spanLength {
        HeldInside(current, i, findSource);
        return 0;
      }
      where := FindForward(i, findSource);
      if where == 0 { HeldInside(current, i, findSource); }
    }

    lemma StartOfAll(source: bool)
      ensures Start(0, source) == 0
    {}

    lemma HeldInside(k: nat, i: int, source: bool)
      requires Holds(k, i, source)
      ensures i < Start(|All()|, source)
    {
      StartStep(k, source);
      PlaceMonotone(All(), k + 1, |All()|);
    }

    /** The destination index of source index `i`, whatever was asked before. */
    method DestinationIndexFromSourceIndex(i: int) returns (j: int)
      requires Valid()
      modifies this
      ensures Valid()
      ensures j == Dest(All(), i)
    {
      hide Pos, EncodeAll, SpansFirst, Head, PlaceAt;
      var where := FindIndex(i, true);
      if where < 0 {
        return 0;
      }
      if where == 0 { DestOfContaining(All(), current, i); } else { DestPastEnd(All(), i); }
      if where > 0 || i == srcIndex {
        return destIndex;
      }
      if changed {
        return destIndex + newLength;
      } else {
        return destIndex + (i - srcIndex);
      }
    }

    /** The source index of destination index `i`, whatever was asked before. */
    method SourceIndexFromDestinationIndex(i: int) returns (j: int)
      requires Valid()
      modifies this
      ensures Valid()
      ensures j == Source(All(), i)
    {
      hide Pos, EncodeAll, SpansFirst, Head, PlaceAt;
      var where := FindIndex(i, false);
      if where < 0 {
        return 0;
      }
      SwapPlace(All(), current);
      if where == 0 { DestOfContaining(SwapAll(All()), current, i); } else { DestPastEnd(SwapAll(All()), i); }
      if where > 0 || i == destIndex {
        return srcIndex;
      }
      if changed {
        return srcIndex + oldLength;
      } else {
        return srcIndex + (i - destIndex);
      }
    }
  }
}