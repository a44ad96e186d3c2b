/**
 The 16-bit records of `Edits`: how a list of records is laid out in array units, and which
 spans (fine or coarse) it stands for.
 */
module EditRecords {
  import opened EditSpans

  type u16 = x: int | 0 <= x < 0x1_0000

  // Units below 0x1000 stand for unchanged text, one less than its length.
  const MAX_UNCHANGED_LENGTH := 0x1000
  const MAX_UNCHANGED := MAX_UNCHANGED_LENGTH - 1

  // Units below 0x7000 hold two short lengths, and one less than the number of such changes.
  const MAX_SHORT_CHANGE_OLD_LENGTH := 6
  const MAX_SHORT_CHANGE_NEW_LENGTH := 7
  const SHORT_CHANGE_NUM_MASK := 0x1ff
  const MAX_SHORT_CHANGE := 0x6fff

  // Units from 0x7000 on hold the codes of two lengths, of which the longer ones follow in trail units.
  const LENGTH_IN_1TRAIL := 61
  const LENGTH_IN_2TRAIL := 62

  /** `num` equal replacements in a row, as a single one. */
  function Times(num: nat, x: Span): Span {
    Change(num * x.Old(), num * x.New())
  }

  lemma TimesSucc(num: nat, x: Span)
    ensures Times(num + 1, x) == Change(Times(num, x).oldLength + x.Old(), Times(num, x).newLength + x.New())
    ensures Times(0, x) == Change(0, 0)
  {}

  /** One record: unchanged text, `num` equal short replacements, or any other replacement. */
  datatype Rec = Plain(n: nat) | Short(o: nat, n: nat, num: nat) | Long(o: nat, n: nat) {
    predicate Valid() {
      match this
      case Plain(n) => 1 <= n <= MAX_UNCHANGED_LENGTH
      case Short(o, n, num) =>
        && 1 <= o <= MAX_SHORT_CHANGE_OLD_LENGTH
        && n <= MAX_SHORT_CHANGE_NEW_LENGTH
        && 1 <= num <= SHORT_CHANGE_NUM_MASK + 1
      case Long(o, n) => o <= INT32_MAX && n <= INT32_MAX && o + n > 0
    }

    /** All of the record as a single span. */
    function Whole(): Span {
      match this
      case Plain(n) => Unchanged(n)
      case Short(o, n, num) => Times(num, Change(o, n))
      case Long(o, n) => Change(o, n)
    }
  }

  ghost predicate AllValid(recs: seq<Rec>) {
    forall i :: 0 <= i < |recs| ==> recs[i].Valid()
  }

  // ---------------------------------------------------------------------------------------------
  // Layout.

  /** The six bits of a head unit for one length. */
  function LengthCode(n: nat): nat {
    if n < LENGTH_IN_1TRAIL then n
    else if n <= 0x7fff then LENGTH_IN_1TRAIL
    else LENGTH_IN_2TRAIL + n / 0x4000_0000
  }

  /** `(uint16_t)(0x8000 | x)`. */
  function TrailUnit(x: nat): (u: u16)
    ensures 0x8000 <= u
  {
    0x8000 + x % 0x8000
  }

  /** The trail units for one length. */
  function Trail(n: nat): seq<u16> {
    if n < LENGTH_IN_1TRAIL then []
    else if n <= 0x7fff then [TrailUnit(n)]
    else [TrailUnit(n / 0x8000), TrailUnit(n)]
  }

  function Head(r: Rec): (u: u16)
    requires r.Valid()
    ensures r.Plain? <==> u <= MAX_UNCHANGED
    ensures r.Short? <==> MAX_UNCHANGED < u <= MAX_SHORT_CHANGE
    ensures r.Long? <==> MAX_SHORT_CHANGE < u
    ensures u <= 0x7fff
  {
    match r
    case Plain(n) => n - 1
    case Short(o, n, num) => o * 0x1000 + n * 0x200 + (num - 1)
    case Long(o, n) => 0x7000 + LengthCode(o) * 0x40 + LengthCode(n)
  }

  function Encode(r: Rec): (s: seq<u16>)
    requires r.Valid()
    ensures 1 <= |s| <= 5
  {
    match r
    case Long(o, n) => [Head(r)] + Trail(o) + Trail(n)
    case _ => [Head(r)]
  }

  /** The first `k` blocks in a row. */
  function Flatten<T>(blocks: seq<seq<T>>, k: nat): seq<T>
    requires k <= |blocks|
  {
    if k == 0 then [] else Flatten(blocks, k - 1) + blocks[k - 1]
  }

  lemma {:induction false} FlattenFrame<T>(b: seq<seq<T>>, c: seq<seq<T>>, k: nat)
    requires k <= |b| && k <= |c|
    requires forall i :: 0 <= i < k ==> b[i] == c[i]
    ensures Flatten(b, k) == Flatten(c, k)
  {
    if k > 0 { FlattenFrame(b, c, k - 1); }
  }

  lemma {:induction false} FlattenPrefix<T>(b: seq<seq<T>>, r: nat, q: nat)
    requires r <= q <= |b|
    requires forall i :: 0 <= i < |b| ==> b[i] != []
    ensures |Flatten(b, r)| + (q - r) <= |Flatten(b, q)|
    ensures Flatten(b, r) <= Flatten(b, q)
  {
    if r < q { FlattenPrefix(b, r, q - 1); }
  }

  function Blocks(recs: seq<Rec>): (b: seq<seq<u16>>)
    requires AllValid(recs)
    ensures |b| == |recs|
    ensures forall i {:trigger b[i]} :: 0 <= i < |recs| ==> b[i] == Encode(recs[i])
  {
    seq(|recs|, i requires 0 <= i < |recs| => Encode(recs[i]))
  }

  function EncodeAll(recs: seq<Rec>): seq<u16>
    requires AllValid(recs)
  {
    Flatten(Blocks(recs), |recs|)
  }

  lemma EncodeSnoc(recs: seq<Rec>, r: Rec)
    requires AllValid(recs) && r.Valid()
    ensures AllValid(recs + [r])
    ensures EncodeAll(recs + [r]) == EncodeAll(recs) + Encode(r)
  {
    FlattenFrame(Blocks(recs + [r]), Blocks(recs), |recs|);
  }

  /** The array index at which record `r` starts. */
  function Pos(recs: seq<Rec>, r: nat): nat
    requires AllValid(recs) && r <= |recs|
  {
    |Flatten(Blocks(recs), r)|
  }

  lemma PosMonotone(recs: seq<Rec>, r: nat, q: nat)
    requires AllValid(recs) && r <= q <= |recs|
    ensures Pos(recs, r) + (q - r) <= Pos(recs, q)
  {
    FlattenPrefix(Blocks(recs), r, q);
  }

  lemma {:induction false} BlockWithin<T>(b: seq<seq<T>>, r: nat, j: nat)
    requires r < |b| && j < |b[r]|
    requires forall i :: 0 <= i < |b| ==> b[i] != []
    ensures |Flatten(b, r + 1)| == |Flatten(b, r)| + |b[r]| <= |Flatten(b, |b|)|
    ensures Flatten(b, |b|)[|Flatten(b, r)| + j] == b[r][j]
  {
    FlattenPrefix(b, r + 1, |b|);
    var mid := Flatten(b, r + 1);
    assert mid == Flatten(b, r) + b[r];
    assert Flatten(b, |b|)[|Flatten(b, r)| + j] == mid[|Flatten(b, r)| + j];
  }

  /** Record `r` occupies exactly the units between its position and the next one. */
  lemma UnitsOfRecord(recs: seq<Rec>, r: nat)
    requires AllValid(recs) && r < |recs|
    ensures Pos(recs, r + 1) == Pos(recs, r) + |Encode(recs[r])| <= |EncodeAll(recs)|
    ensures forall j :: 0 <= j < |Encode(recs[r])| ==> EncodeAll(recs)[Pos(recs, r) + j] == Encode(recs[r])[j]
  {
    hide Encode;
    var b := Blocks(recs);
    BlockWithin(b, r, 0);
    forall j | 0 <= j < |b[r]|
      ensures Flatten(b, |b|)[|Flatten(b, r)| + j] == b[r][j]
    {
      BlockWithin(b, r, j);
    }
  }

  // ---------------------------------------------------------------------------------------------
  // Meaning.

  function Copies(x: Span, num: nat): (s: seq<Span>)
    ensures |s| == num && forall i :: 0 <= i < num ==> s[i] == x
  {
    seq(num, _ => x)
  }

  /** What one more record adds to the list of spans. */
  function Extend(s: seq<Span>, r: Rec, coarse: bool): seq<Span> {
    if coarse then AddCoarse(s, r.Whole())
    else
      match r
      case Plain(n) => AddUnchanged(s, n)
      case Short(o, n, num) => s + Copies(Change(o, n), num)
      case Long(o, n) => s + [Change(o, n)]
  }

  /** The spans of the first `k` records. */
  function SpansFirst(recs: seq<Rec>, k: nat, coarse: bool): seq<Span>
    requires k <= |recs|
  {
    if k == 0 then [] else Extend(SpansFirst(recs, k - 1, coarse), recs[k - 1], coarse)
  }

  function Spans(recs: seq<Rec>, coarse: bool): seq<Span> { SpansFirst(recs, |recs|, coarse) }

  function Fine(recs: seq<Rec>): seq<Span> { Spans(recs, false) }

  lemma {:induction false} SpansFrame(recs: seq<Rec>, others: seq<Rec>, k: nat, coarse: bool)
    requires k <= |recs| && k <= |others|
    requires forall i :: 0 <= i < k ==> recs[i] == others[i]
    ensures SpansFirst(recs, k, coarse) == SpansFirst(others, k, coarse)
  {
    if k > 0 { SpansFrame(recs, others, k - 1, coarse); }
  }

  lemma FineSnoc(recs: seq<Rec>, r: Rec)
    ensures Fine(recs + [r]) == Extend(Fine(recs), r, false)
  {
    SpansFrame(recs + [r], recs, |recs|, false);
  }

  lemma AddCoarseTwice(s: seq<Span>, x: Span, y: Span)
    requires x.Change? == y.Change?
    ensures AddCoarse(AddCoarse(s, x), y) == AddCoarse(s, Join(x, y))
  {}

  lemma {:induction false} CoarsenCopies(s: seq<Span>, x: Span, num: nat)
    requires x.Change? && num > 0
    ensures Coarsen(s + Copies(x, num)) == AddCoarse(Coarsen(s), Times(num, x))
  {
    var fewer := s + Copies(x, num - 1);
    assert s + Copies(x, num) == fewer + [x];
    CoarsenSnoc(fewer, x);
    TimesSucc(num - 1, x);
    if num == 1 {
      assert fewer == s;
      assert x == Times(num, x);
    } else {
      CoarsenCopies(s, x, num - 1);
      AddCoarseTwice(Coarsen(s), Times(num - 1, x), x);
    }
  }

  lemma CoarsenUnchanged(s: seq<Span>, n: nat)
    requires n > 0
    ensures Coarsen(AddUnchanged(s, n)) == AddCoarse(Coarsen(s), Unchanged(n))
  {
    if s != [] && s[|s| - 1].Unchanged? {
      CoarsenFrame(AddUnchanged(s, n), s, |s| - 1);
      AddCoarseTwice(CoarsenFirst(s, |s| - 1), s[|s| - 1], Unchanged(n));
    } else {
      CoarsenSnoc(s, Unchanged(n));
    }
  }

  /** Reading records coarsely gives the maximal merges of reading them finely. */
  lemma {:induction false} CoarseIsCoarsened(recs: seq<Rec>, k: nat)
    requires AllValid(recs) && k <= |recs|
    ensures SpansFirst(recs, k, true) == Coarsen(SpansFirst(recs, k, false))
  {
    if k > 0 {
      CoarseIsCoarsened(recs, k - 1);
      var s := SpansFirst(recs, k - 1, false);
      match recs[k - 1]
      case Plain(n) => CoarsenUnchanged(s, n);
      case Short(o, n, num) => CoarsenCopies(s, Change(o, n), num);
      case Long(o, n) => CoarsenSnoc(s, Change(o, n));
    }
  }

  /** Whether records `r - 1` and `r` contribute to the same span. */
  predicate Joined(recs: seq<Rec>, r: nat, coarse: bool)
    requires r <= |recs|
  {
    && 0 < r < |recs|
    && recs[r - 1].Plain? == recs[r].Plain?
    && (coarse || recs[r].Plain?)
  }

  /** The last span has the kind of the last record. */
  lemma LastSpan(recs: seq<Rec>, k: nat, coarse: bool)
    requires AllValid(recs) && 0 < k <= |recs|
    ensures var s := SpansFirst(recs, k, coarse);
            s != [] && s[|s| - 1].Unchanged? == recs[k - 1].Plain?
  {}

  /** One more record changes at most the last span. */
  lemma ExtendKeepsPrefix(p: seq<Span>, s: seq<Span>, r: Rec, coarse: bool)
    requires p <= s && |p| < |s|
    ensures p <= Extend(s, r, coarse) && |p| < |Extend(s, r, coarse)|
  {}

  /** Up to a span boundary, the spans of a prefix of the records are a prefix of the spans. */
  lemma {:induction false} SpansPrefix(recs: seq<Rec>, r: nat, k: nat, coarse: bool)
    requires AllValid(recs) && r < k <= |recs| && !Joined(recs, r, coarse)
    ensures SpansFirst(recs, r, coarse) <= SpansFirst(recs, k, coarse)
    ensures |SpansFirst(recs, r, coarse)| < |SpansFirst(recs, k, coarse)|
  {
    if r < k - 1 {
      SpansPrefix(recs, r, k - 1, coarse);
      ExtendKeepsPrefix(SpansFirst(recs, r, coarse), SpansFirst(recs, k - 1, coarse), recs[k - 1], coarse);
    } else if r > 0 {
      LastSpan(recs, r, coarse);
    }
  }

  lemma {:induction false} FineNormal(recs: seq<Rec>, k: nat)
    requires AllValid(recs) && k <= |recs|
    ensures Normal(SpansFirst(recs, k, false))
  {
    if k > 0 { FineNormal(recs, k - 1); }
  }
}
