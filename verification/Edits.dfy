/**
 The recorder: `Edits` appends 16-bit units to a growing array and keeps the length delta and
 the number of changes. `Spans()` is what it has recorded, read finely.
 */
module EditsRecorder {
  import opened EditSpans
  import opened EditRecords

  datatype ErrorCode = ZeroError | IllegalArgument | IndexOutOfBounds

  const STACK_CAPACITY := 100
  const FIRST_HEAP_CAPACITY := 2000

  /** The units that it takes at most to record one span. */
  function MaxUnits(x: Span): nat {
    match x
    case Unchanged(n) => n / MAX_UNCHANGED_LENGTH + 1
    case Change(_, _) => 5
  }

  // ---------------------------------------------------------------------------------------------
  // How the last record absorbs one more call, on lists of records.

  lemma GrowPlain(recs: seq<Rec>, k: nat)
    requires AllValid(recs) && recs != [] && recs[|recs| - 1].Plain?
    requires k > 0 && recs[|recs| - 1].n + k <= MAX_UNCHANGED_LENGTH
    ensures var grown := recs[|recs| - 1 := Plain(recs[|recs| - 1].n + k)];
            AllValid(grown) && Fine(grown) == AddUnchanged(Fine(recs), k)
  {
    var n := recs[|recs| - 1].n;
    SpansFrame(recs[|recs| - 1 := Plain(n + k)], recs, |recs| - 1, false);
    AddUnchangedTwice(SpansFirst(recs, |recs| - 1, false), n, k, n + k);
  }

  lemma GrowShort(recs: seq<Rec>)
    requires AllValid(recs) && recs != [] && recs[|recs| - 1].Short?
    requires recs[|recs| - 1].num <= SHORT_CHANGE_NUM_MASK
    ensures var r := recs[|recs| - 1];
            var grown := recs[|recs| - 1 := Short(r.o, r.n, r.num + 1)];
            AllValid(grown) && Fine(grown) == Fine(recs) + [Change(r.o, r.n)]
  {
    var r := recs[|recs| - 1];
    SpansFrame(recs[|recs| - 1 := Short(r.o, r.n, r.num + 1)], recs, |recs| - 1, false);
    assert Copies(Change(r.o, r.n), r.num + 1) == Copies(Change(r.o, r.n), r.num) + [Change(r.o, r.n)];
  }

  /** Rewriting a one-unit last record in place. */
  lemma EncodeReplaceLast(recs: seq<Rec>, r: Rec)
    requires AllValid(recs) && recs != [] && r.Valid() && !r.Long? && !recs[|recs| - 1].Long?
    ensures AllValid(recs[|recs| - 1 := r])
    ensures EncodeAll(recs) != []
    ensures EncodeAll(recs[|recs| - 1 := r]) == EncodeAll(recs)[|EncodeAll(recs)| - 1 := Head(r)]
  {
    assert Encode(r) == [Head(r)];
    assert Encode(recs[|recs| - 1]) == [Head(recs[|recs| - 1])];
    hide Encode, Head;
    var t := recs[|recs| - 1 := r];
    FlattenFrame(Blocks(t), Blocks(recs), |recs| - 1);
    var before := Flatten(Blocks(recs), |recs| - 1);
    assert EncodeAll(t) == before + [Head(r)];
    assert EncodeAll(recs) == before + [Head(recs[|recs| - 1])];
  }

  /** The last unit tells the last record apart. */
  lemma LastUnitOf(recs: seq<Rec>)
    requires AllValid(recs) && recs != []
    ensures var units := EncodeAll(recs); var r := recs[|recs| - 1];
            && units != []
            && (if r.Long? then units[|units| - 1] > MAX_SHORT_CHANGE else units[|units| - 1] == Head(r))
  {}

  /** The head unit of a short record determines both lengths. */
  lemma ShortFromHead(r: Rec, o: nat, n: nat)
    requires r.Valid() && r.Short? && 1 <= o <= 6 && n <= 7
    requires Head(r) / 0x200 * 0x200 == o * 0x1000 + n * 0x200
    ensures r.o == o && r.n == n && Head(r) % 0x200 == r.num - 1
  {
    assert Head(r) == (r.o * 8 + r.n) * 0x200 + (r.num - 1);
    assert Head(r) / 0x200 == r.o * 8 + r.n;
  }

  lemma PlainStep(recs: seq<Rec>, n: nat)
    requires n > 0
    ensures var f := Fine(recs + [Plain(n)]);
            && f == AddUnchanged(Fine(recs), n)
            && End(f) == End(Fine(recs)).After(Unchanged(n))
  {
    FineSnoc(recs, Plain(n));
    AddEnd(Fine(recs), Unchanged(n));
  }

  class Edits {
    var units: array<u16>
    var length: nat
    var delta: int32
    var numChanges: nat
    var errorCode: ErrorCode
    const stackArray: array<u16>

    /** The records that the array holds. */
    ghost var recs: seq<Rec>

    /** What has been recorded: the same records, read finely. */
    ghost var spans: seq<Span>

    /** The array holds the records. */
    ghost predicate Layout()
      reads this, units
    {
      && stackArray.Length == STACK_CAPACITY
      && units.Length <= INT32_MAX
      && (units != stackArray ==>
            units.Length >= FIRST_HEAP_CAPACITY
            && (units.Length == INT32_MAX || units.Length % FIRST_HEAP_CAPACITY == 0))
      && length <= units.Length
      && AllValid(recs)
      && units[..length] == EncodeAll(recs)
      && spans == Fine(recs)
    }

    /** The counters agree with the records. */
    ghost predicate Counted()
      reads this
    {
      errorCode == ZeroError ==>
        && delta == End(spans).dest - End(spans).src
        && numChanges == End(spans).changes
    }

    ghost predicate Valid()
      reads this, units
    {
      Layout() && Counted()
    }

    /** The array has its largest possible size and no room for a maximal record. */
    ghost predicate Full()
      reads this
    {
      units.Length == INT32_MAX && length + 5 > units.Length
    }

    constructor ()
      ensures Valid() && fresh(units) && units == stackArray
      ensures spans == [] && errorCode == ZeroError && delta == 0 && numChanges == 0 && length == 0
    {
      stackArray := new u16[STACK_CAPACITY];
      units := stackArray;
      length, delta, numChanges, errorCode := 0, 0, 0, ZeroError;
      recs, spans := [], [];
    }

    method Reset()
      requires Valid()
      modifies this
      ensures Valid() && units == old(units)
      ensures spans == [] && errorCode == ZeroError && delta == 0 && numChanges == 0
    {
      length, delta, numChanges, errorCode := 0, 0, 0, ZeroError;
      recs, spans := [], [];
    }

    method LastUnit() returns (u: u16)
      requires Layout()
      ensures recs == [] ==> u == 0xffff
      ensures recs != [] ==> length > 0 && u == units[length - 1]
      ensures recs != [] && !recs[|recs| - 1].Long? ==> u == Head(recs[|recs| - 1])
      ensures recs != [] && recs[|recs| - 1].Long? ==> u > MAX_SHORT_CHANGE
    {
      if recs != [] { LastUnitOf(recs); assert units[length - 1] == units[..length][length - 1]; }
      u := if length > 0 then units[length - 1] else 0xffff;
    }

    /** Rewrites the last unit, which is a whole record, as the record `r`. */
    method SetLastUnit(last: u16, ghost r: Rec)
      requires Layout() && recs != [] && !recs[|recs| - 1].Long?
      requires r.Valid() && !r.Long? && last == Head(r)
      modifies units, this`recs, this`spans
      ensures Layout()
      ensures recs == old(recs)[|old(recs)| - 1 := r] && spans == Fine(recs)
    {
      EncodeReplaceLast(recs, r);
      units[length - 1] := last;
      recs := recs[|recs| - 1 := r];
      spans := Fine(recs);
      assert units[..length] == old(units[..length])[length - 1 := last];
    }

    method GrowArray() returns (ok: bool)
      requires Layout()
      modifies this`units, this`errorCode
      ensures Layout()
      ensures units == old(units) || fresh(units)
      ensures ok <==> old(units.Length) != INT32_MAX
      ensures ok ==> units.Length >= old(units.Length) + 5 && errorCode == old(errorCode)
      ensures !ok ==> units == old(units) && errorCode == IndexOutOfBounds
    {
      hide EncodeAll, Fine;
      var newCapacity: nat;
      if units == stackArray {
        newCapacity := FIRST_HEAP_CAPACITY;
      } else if units.Length == INT32_MAX {
        errorCode := IndexOutOfBounds;
        return false;
      } else if units.Length >= INT32_MAX / 2 {
        newCapacity := INT32_MAX;
      } else {
        newCapacity := 2 * units.Length;
      }
      // Too small a growth would be an error too, but no capacity that occurs leads to one.
      assert newCapacity - units.Length >= 5;
      var newArray := new u16[newCapacity];
      forall i | 0 <= i < length {
        newArray[i] := units[i];
      }
      assert newArray[..length] == units[..length];
      units := newArray;
      return true;
    }

    /** Appends the one-unit record `rec`. */
    method Append(u: u16, ghost rec: Rec)
      requires Layout() && rec.Valid() && Encode(rec) == [u]
      modifies this`units, this`length, this`errorCode, this`recs, this`spans, units
      ensures Layout()
      ensures units == old(units) || fresh(units)
      ensures old(length < units.Length || units.Length != INT32_MAX) ==>
                errorCode == old(errorCode) && recs == old(recs) + [rec] && spans == Fine(recs)
      ensures !old(length < units.Length || units.Length != INT32_MAX) ==>
                errorCode == IndexOutOfBounds && recs == old(recs) && spans == old(spans) && Full()
      ensures old(Full()) ==> Full()
      ensures length <= old(length) + 1
    {
      EncodeSnoc(recs, rec);
      hide EncodeAll, Fine, Encode;
      var ok := length < units.Length;
      if !ok { ok := GrowArray(); }
      if ok {
        label before:
        units[length] := u;
        length := length + 1;
        recs := recs + [rec];
        spans := Fine(recs);
        assert units[..length] == old@before(units[..length]) + [u];
      }
    }

    /** Appends a record of `n` unchanged units. */
    method AppendPlain(n: nat)
      requires Valid() && 1 <= n <= MAX_UNCHANGED_LENGTH
      requires errorCode == ZeroError || (errorCode == IndexOutOfBounds && Full())
      modifies this`units, this`length, this`errorCode, this`recs, this`spans, units
      ensures Valid()
      ensures units == old(units) || fresh(units)
      ensures errorCode == ZeroError || (errorCode == IndexOutOfBounds && Full())
      ensures errorCode == ZeroError ==> old(errorCode) == ZeroError
      ensures errorCode == ZeroError ==> spans == EditSpans.AddUnchanged(old(spans), n)
      ensures length <= old(length) + 1
    {
      PlainStep(recs, n);
      Append(n - 1, Plain(n));
    }

    /** Adds `k` to the unchanged-text record at the end. */
    method GrowLastPlain(k: nat)
      requires Valid() && recs != [] && recs[|recs| - 1].Plain?
      requires k > 0 && recs[|recs| - 1].n + k <= MAX_UNCHANGED_LENGTH
      modifies units, this`recs, this`spans
      ensures Valid()
      ensures spans == EditSpans.AddUnchanged(old(spans), k)
    {
      GrowPlain(recs, k);
      AddEnd(spans, Unchanged(k));
      hide EncodeAll, Fine;
      var last := LastUnit();
      SetLastUnit(last + k, Plain(last + 1 + k));
    }

    /** Appends records for `n` unchanged units in all. */
    method AppendUnchanged(n: nat)
      requires Valid() && errorCode == ZeroError
      modifies this`units, this`length, this`errorCode, this`recs, this`spans, units
      ensures Valid()
      ensures units == old(units) || fresh(units)
      ensures errorCode == ZeroError || (errorCode == IndexOutOfBounds && Full())
      ensures errorCode == ZeroError ==> spans == EditSpans.AddUnchanged(old(spans), n)
      ensures length <= old(length) + MaxUnits(Unchanged(n))
    {
      hide EncodeAll, Fine;
      var rest := n;
      ghost var done, count := 0, 0;
      while rest >= MAX_UNCHANGED_LENGTH
        invariant Valid()
        invariant units == old(units) || fresh(units)
        invariant errorCode == ZeroError || (errorCode == IndexOutOfBounds && Full())
        invariant rest >= 0 && done + rest == n
        invariant done == MAX_UNCHANGED_LENGTH * count && length <= old(length) + count
        invariant errorCode == ZeroError ==> spans == EditSpans.AddUnchanged(old(spans), done)
      {
        AppendPlain(MAX_UNCHANGED_LENGTH);
        AddUnchangedTwice(old(spans), done, MAX_UNCHANGED_LENGTH, done + MAX_UNCHANGED_LENGTH);
        done, count := done + MAX_UNCHANGED_LENGTH, count + 1;
        rest := rest - MAX_UNCHANGED_LENGTH;
      }
      if rest > 0 {
        AppendPlain(rest);
        AddUnchangedTwice(old(spans), done, rest, n);
      }
    }

    method AddUnchanged(unchangedLength: int32)
      requires Valid()
      modifies this`units, this`length, this`errorCode, this`recs, this`spans, units
      ensures Valid()
      ensures units == old(units) || fresh(units)
      ensures old(errorCode) != ZeroError || unchangedLength == 0 ==> unchanged(this)
      ensures old(errorCode) == ZeroError && unchangedLength < 0 ==>
                errorCode == IllegalArgument && recs == old(recs)
      ensures old(errorCode) == ZeroError && unchangedLength >= 0 ==>
                errorCode == ZeroError || (errorCode == IndexOutOfBounds && Full())
      ensures unchangedLength >= 0 && errorCode == ZeroError ==>
                spans == EditSpans.AddUnchanged(old(spans), unchangedLength)
      ensures unchangedLength >= 0 ==> length <= old(length) + MaxUnits(Unchanged(unchangedLength))
    {
      hide EncodeAll, Fine, PlaceAt;
      if errorCode != ZeroError || unchangedLength == 0 { return; }
      if unchangedLength < 0 {
        errorCode := IllegalArgument;
        return;
      }
      var rest: nat := unchangedLength;
      ghost var s0 := spans;
      var last := LastUnit();
      if last < MAX_UNCHANGED {
        var remaining := MAX_UNCHANGED - last;
        if remaining >= rest {
          GrowLastPlain(rest);
          return;
        }
        GrowLastPlain(remaining);
        rest := rest - remaining;
      }
      AppendUnchanged(rest);
      AddUnchangedTwice(s0, unchangedLength - rest, rest, unchangedLength);
    }

    /** Counts one more short replacement in the record at the end. */
    method GrowLastShort(last: u16)
      requires Layout() && recs != [] && recs[|recs| - 1].Short?
      requires last == Head(recs[|recs| - 1]) && recs[|recs| - 1].num <= SHORT_CHANGE_NUM_MASK
      modifies units, this`recs, this`spans
      ensures Layout()
      ensures spans == AddChange(old(spans), old(recs)[|old(recs)| - 1].o, old(recs)[|old(recs)| - 1].n)
    {
      GrowShort(recs);
      var r := recs[|recs| - 1];
      SetLastUnit(last + 1, Short(r.o, r.n, r.num + 1));
    }

    /** Appends a record of one replacement that fits into a single unit. */
    method AppendChange(u: u16, ghost rec: Rec, o: nat, n: nat)
      requires Layout() && errorCode == ZeroError && o + n > 0
      requires rec == Short(o, n, 1) || (rec == Long(o, n) && o < LENGTH_IN_1TRAIL && n < LENGTH_IN_1TRAIL)
      requires rec.Valid() && u == Head(rec)
      modifies this`units, this`length, this`errorCode, this`recs, this`spans, units
      ensures Layout()
      ensures units == old(units) || fresh(units)
      ensures errorCode == ZeroError || (errorCode == IndexOutOfBounds && Full())
      ensures errorCode == ZeroError ==> spans == AddChange(old(spans), o, n)
      ensures length <= old(length) + 1
    {
      FineSnoc(recs, rec);
      assert Encode(rec) == [u];
      Append(u, rec);
    }

    /** Writes the trail units of one length and returns its code for the head unit. */
    method WriteTrail(start: nat, n: nat) returns (limit: nat, code: nat)
      requires start + 2 <= units.Length && n <= INT32_MAX
      modifies units
      ensures limit == start + |Trail(n)| <= start + 2 && code == LengthCode(n)
      ensures forall i :: 0 <= i < start ==> units[i] == old(units[i])
      ensures forall i :: start <= i < limit ==> units[i] == Trail(n)[i - start]
    {
      limit := start;
      if n < LENGTH_IN_1TRAIL {
        code := n;
      } else if n <= 0x7fff {
        code := LENGTH_IN_1TRAIL;
        units[limit] := TrailUnit(n);
        limit := limit + 1;
      } else {
        code := LENGTH_IN_2TRAIL + n / 0x4000_0000;
        units[limit] := TrailUnit(n / 0x8000);
        units[limit + 1] := TrailUnit(n);
        limit := limit + 2;
      }
    }

    /** Writes the units of a long record after the ones in use. */
    method WriteLong(oldLength: nat, newLength: nat) returns (limit: nat)
      requires length + 5 <= units.Length && oldLength <= INT32_MAX && newLength <= INT32_MAX
      requires oldLength + newLength > 0
      modifies units
      ensures length <= limit <= units.Length && limit <= length + 5
      ensures units[..limit] == old(units[..length]) + Encode(Long(oldLength, newLength))
    {
      var oldCode, newCode;
      limit, oldCode := WriteTrail(length + 1, oldLength);
      limit, newCode := WriteTrail(limit, newLength);
      var head: u16 := 0x7000 + oldCode * 0x40 + newCode;
      units[length] := head;
      ghost var t, u := Trail(oldLength), Trail(newLength);
      assert Encode(Long(oldLength, newLength)) == [head] + t + u;
      hide Encode, Trail, LengthCode;
      ghost var want := old(units[..length]) + ([head] + t + u);
      forall i | 0 <= i < limit
        ensures units[i] == want[i]
      {}
    }

    /** Appends a record whose lengths need trail units. */
    method AppendLong(oldLength: nat, newLength: nat)
      requires Layout() && errorCode == ZeroError
      requires oldLength <= INT32_MAX && newLength <= INT32_MAX
      requires oldLength >= LENGTH_IN_1TRAIL || newLength >= LENGTH_IN_1TRAIL
      modifies this`units, this`length, this`errorCode, this`recs, this`spans, units
      ensures Layout()
      ensures units == old(units) || fresh(units)
      ensures errorCode == ZeroError || (errorCode == IndexOutOfBounds && Full())
      ensures errorCode == ZeroError ==> spans == AddChange(old(spans), oldLength, newLength)
      ensures length <= old(length) + 5
    {
      ghost var rec := Long(oldLength, newLength);
      EncodeSnoc(recs, rec);
      FineSnoc(recs, rec);
      var ok := units.Length - length >= 5;
      if !ok { ok := GrowArray(); }
      if ok {
        hide EncodeAll, Fine, Encode;
        var limit := WriteLong(oldLength, newLength);
        length := limit;
        recs := recs + [rec];
        spans := Fine(recs);
      }
    }

    /** Writes down one replacement, in the shortest form. */
    method AppendReplacement(oldLength: nat, newLength: nat)
      requires Layout() && errorCode == ZeroError
      requires oldLength <= INT32_MAX && newLength <= INT32_MAX && oldLength + newLength > 0
      modifies this`units, this`length, this`errorCode, this`recs, this`spans, units
      ensures Layout()
      ensures units == old(units) || fresh(units)
      ensures errorCode == ZeroError || (errorCode == IndexOutOfBounds && Full())
      ensures errorCode == ZeroError ==> spans == AddChange(old(spans), oldLength, newLength)
      ensures length <= old(length) + 5
    {
      hide EncodeAll, Fine;
      if 0 < oldLength <= MAX_SHORT_CHANGE_OLD_LENGTH && newLength <= MAX_SHORT_CHANGE_NEW_LENGTH {
        var u := oldLength * 0x1000 + newLength * 0x200;
        var last := LastUnit();
        if MAX_UNCHANGED < last < MAX_SHORT_CHANGE
           && last / 0x200 * 0x200 == u
           && last % 0x200 < SHORT_CHANGE_NUM_MASK {
          ShortFromHead(recs[|recs| - 1], oldLength, newLength);
          GrowLastShort(last);
          return;
        }
        AppendChange(u, Short(oldLength, newLength, 1), oldLength, newLength);
        return;
      }

      if oldLength < LENGTH_IN_1TRAIL && newLength < LENGTH_IN_1TRAIL {
        AppendChange(0x7000 + oldLength * 0x40 + newLength, Long(oldLength, newLength), oldLength, newLength);
      } else {
        AppendLong(oldLength, newLength);
      }
    }

    /** An error that the caller has already goes before one of the recorder. */
    function CopyErrorTo(outCode: ErrorCode): ErrorCode
      reads this`errorCode
    {
      if outCode != ZeroError then outCode else errorCode
    }

    method AddReplace(oldLength: int32, newLength: int32)
      requires Valid()
      modifies this, units
      ensures Valid()
      ensures units == old(units) || fresh(units)
      ensures old(errorCode) != ZeroError ==> unchanged(this)
      ensures old(errorCode) == ZeroError && (oldLength < 0 || newLength < 0) ==>
                errorCode == IllegalArgument && spans == old(spans)
      ensures old(errorCode) == ZeroError && oldLength >= 0 && newLength >= 0 ==>
                if INT32_MIN <= old(delta) + newLength - oldLength <= INT32_MAX then
                  errorCode == ZeroError || (errorCode == IndexOutOfBounds && Full())
                else
                  errorCode == IndexOutOfBounds && spans == old(spans)
      ensures errorCode == ZeroError ==> spans == AddChange(old(spans), oldLength, newLength)
      ensures length <= old(length) + 5
    {
      hide EncodeAll, Fine, PlaceAt;
      if errorCode != ZeroError { return; }
      if oldLength < 0 || newLength < 0 {
        errorCode := IllegalArgument;
        return;
      }
      if oldLength == 0 && newLength == 0 {
        return;
      }
      AddEnd(spans, Change(oldLength, newLength));
      numChanges := numChanges + 1;
      var newDelta := newLength - oldLength;
      if newDelta != 0 {
        if (newDelta > 0 && delta >= 0 && newDelta > INT32_MAX - delta)
           || (newDelta < 0 && delta < 0 && newDelta < INT32_MIN - delta) {
          errorCode := IndexOutOfBounds;
          return;
        }
        delta := delta + newDelta;
      }

      AppendReplacement(oldLength, newLength);
    }
  }
}