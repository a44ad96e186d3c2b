/**
 Composing two edit scripts: `MergeAndAppend` walks through the edits a->b and b->c in parallel
 and appends the edits a->c.
 */
module EditsMerge {
  import opened EditSpans
  import opened EditRecords
  import opened EditsRecorder
  import opened EditsIterator

  /** The unit of c at which unit `i` of a survives both scripts. */
  function Composition(ab: seq<Span>, bc: seq<Span>, i: int): Option<int> {
    match UnchangedAt(ab, i)
    case None => None
    case Some(j) => UnchangedAt(bc, j)
  }

  /** `acc` keeps what both scripts keep, as far as the first `n` units of a go. */
  ghost predicate Composed(ab: seq<Span>, bc: seq<Span>, acc: seq<Span>, n: int) {
    forall i :: 0 <= i < n ==> UnchangedAt(acc, i) == Composition(ab, bc, i)
  }

  lemma {:induction false} UnchangedInSpan(s: seq<Span>, k: nat, m: nat, i: int)
    requires Contains(s, k, i) && k < m <= |s|
    ensures UnchangedFirst(s, m, i) ==
            if s[k].Unchanged? then Some(PlaceAt(s, k).dest + (i - PlaceAt(s, k).src)) else None
  {
    if k + 1 < m {
      PlaceMonotone(s, k + 1, m - 1);
      UnchangedInSpan(s, k, m - 1, i);
    }
  }

  /** A span of one script that is being consumed: `oldRest` and `newRest` of it are left. */
  ghost predicate Rest(s: seq<Span>, k: nat, oldRest: nat, newRest: nat) {
    && 0 < k <= |s|
    && oldRest <= s[k - 1].Old() && newRest <= s[k - 1].New()
    && (s[k - 1].Unchanged? ==> oldRest == newRest)
  }

  /** The variables of the merge loop. */
  datatype State = State(
    p: nat,        // edits fetched from ab
    q: nat,        // edits fetched from bc
    a: nat,        // what is left of the current edit from ab
    abB: nat,
    bcB: nat,      // what is left of the current edit from bc
    c: nat,
    pendingA: nat, // the change that is being accumulated
    pendingC: nat,
    acc: seq<Span> // appended so far
  )

  /** What is left of the source side of the current ab edit; the variable is stale when the edit is done. */
  function LeftA(st: State): nat { if st.abB == 0 then 0 else st.a }

  function LeftC(st: State): nat { if st.bcB == 0 then 0 else st.c }

  ghost predicate Inv(ab: seq<Span>, bc: seq<Span>, st: State) {
    && st.p <= |ab| && st.q <= |bc|
    && (st.abB > 0 ==>
          Rest(ab, st.p, st.a, st.abB) && (ab[st.p - 1].Change? ==> st.a == 0 || st.a == ab[st.p - 1].Old()))
    && (st.bcB > 0 ==>
          Rest(bc, st.q, st.bcB, st.c) && (bc[st.q - 1].Change? ==> st.c == 0 || st.c == bc[st.q - 1].New()))
    && PlaceAt(ab, st.p).dest - st.abB == PlaceAt(bc, st.q).src - st.bcB
    && End(st.acc).src + st.pendingA + LeftA(st) == PlaceAt(ab, st.p).src
    && End(st.acc).dest + st.pendingC + LeftC(st) == PlaceAt(bc, st.q).dest
    && Composed(ab, bc, st.acc, End(st.acc).src + st.pendingA)
  }

  /** Appending a replacement keeps nothing, and so must the scripts. */
  lemma Emit(ab: seq<Span>, bc: seq<Span>, acc: seq<Span>, n: int, o: nat, c: nat)
    requires Composed(ab, bc, acc, n) && End(acc).src <= n <= End(acc).src + o
    requires forall i :: n <= i < End(acc).src + o ==> Composition(ab, bc, i) == None
    ensures End(acc + [Change(o, c)]) == End(acc).After(Change(o, c))
    ensures Composed(ab, bc, acc + [Change(o, c)], End(acc).src + o)
  {
    var x := Change(o, c);
    EndSnoc(acc, x);
    forall i | 0 <= i < End(acc).src + o
      ensures UnchangedAt(acc + [x], i) == Composition(ab, bc, i)
    {
      UnchangedAtSnoc(acc, x, i);
      if i >= End(acc).src { UnchangedAtPastEnd(acc, i); }
    }
  }

  /** Units of a inside a replacement of ab survive nowhere. */
  lemma ReplacedInAB(ab: seq<Span>, bc: seq<Span>, p: nat, left: nat, i: int)
    requires 0 < p <= |ab| && ab[p - 1].Change? && left <= ab[p - 1].Old()
    requires PlaceAt(ab, p).src - left <= i < PlaceAt(ab, p).src
    ensures Composition(ab, bc, i) == None
  {
    UnchangedInSpan(ab, p - 1, |ab|, i);
  }

  /** Where units of a inside unchanged text of ab go, given that b is in step. */
  lemma KeptInAB(ab: seq<Span>, bc: seq<Span>, st: State, i: int)
    requires Inv(ab, bc, st) && st.abB > 0 && ab[st.p - 1].Unchanged?
    requires PlaceAt(ab, st.p).src - st.a <= i < PlaceAt(ab, st.p).src
    ensures UnchangedAt(ab, i) == Some(PlaceAt(ab, st.p).dest - (PlaceAt(ab, st.p).src - i))
  {
    UnchangedInSpan(ab, st.p - 1, |ab|, i);
  }

  /** Unchanged text of ab that meets a replacement of bc. */
  lemma ReplacedInBC(ab: seq<Span>, bc: seq<Span>, st: State, i: int)
    requires Inv(ab, bc, st) && st.abB > 0 && st.bcB > 0 && ab[st.p - 1].Unchanged? && bc[st.q - 1].Change?
    requires PlaceAt(ab, st.p).src - st.a <= i < PlaceAt(ab, st.p).src - st.a + st.bcB
    requires i < PlaceAt(ab, st.p).src
    ensures Composition(ab, bc, i) == None
  {
    KeptInAB(ab, bc, st, i);
    UnchangedInSpan(bc, st.q - 1, |bc|, PlaceAt(ab, st.p).dest - (PlaceAt(ab, st.p).src - i));
  }

  // ---------------------------------------------------------------------------------------------
  // One lemma for each way through the loop.

  /** An insertion, emitted at once or accumulated. */
  lemma InsertStep(ab: seq<Span>, bc: seq<Span>, st: State, emit: bool)
    requires Inv(ab, bc, st) && st.bcB == 0 && st.q < |bc| && bc[st.q].Old() == 0
    ensures Inv(ab, bc, AfterInsert(bc, st, emit))
  {
    PlaceStep(bc, st.q);
    Emit(ab, bc, st.acc, End(st.acc).src + st.pendingA, st.pendingA, st.pendingC + bc[st.q].New());
  }

  function AfterInsert(bc: seq<Span>, st: State, emit: bool): State
    requires st.q < |bc|
  {
    var n := bc[st.q].New();
    if emit then
      st.(q := st.q + 1, c := n, pendingA := 0, pendingC := 0, acc := st.acc + [Change(st.pendingA, st.pendingC + n)])
    else
      st.(q := st.q + 1, c := n, pendingC := st.pendingC + n)
  }

  /** A new edit of bc. */
  lemma FetchBC(ab: seq<Span>, bc: seq<Span>, st: State)
    requires Inv(ab, bc, st) && st.bcB == 0 && st.q < |bc| && bc[st.q].Old() > 0
    ensures Inv(ab, bc, st.(q := st.q + 1, bcB := bc[st.q].Old(), c := bc[st.q].New()))
  {
    PlaceStep(bc, st.q);
  }

  /** A deletion, emitted at once or accumulated. */
  lemma DeleteStep(ab: seq<Span>, bc: seq<Span>, st: State, emit: bool)
    requires Inv(ab, bc, st) && st.abB == 0 && st.p < |ab| && ab[st.p].New() == 0
    requires Normal(ab)
    ensures Inv(ab, bc, AfterDelete(ab, st, emit))
  {
    PlaceStep(ab, st.p);
    var n := End(st.acc).src + st.pendingA;
    forall i | n <= i < n + ab[st.p].Old()
      ensures Composition(ab, bc, i) == None
    {
      ReplacedInAB(ab, bc, st.p + 1, ab[st.p].Old(), i);
    }
    Emit(ab, bc, st.acc, n, st.pendingA + ab[st.p].Old(), st.pendingC);
    forall i | n <= i < n + ab[st.p].Old()
      ensures UnchangedAt(st.acc, i) == None
    {
      UnchangedAtPastEnd(st.acc, i);
    }
  }

  function AfterDelete(ab: seq<Span>, st: State, emit: bool): State
    requires st.p < |ab|
  {
    var o := ab[st.p].Old();
    if emit then
      st.(p := st.p + 1, a := o, pendingA := 0, pendingC := 0, acc := st.acc + [Change(st.pendingA + o, st.pendingC)])
    else
      st.(p := st.p + 1, a := o, pendingA := st.pendingA + o)
  }

  /** A new edit of ab. */
  lemma FetchAB(ab: seq<Span>, bc: seq<Span>, st: State)
    requires Inv(ab, bc, st) && st.abB == 0 && st.p < |ab| && ab[st.p].New() > 0
    ensures Inv(ab, bc, st.(p := st.p + 1, a := ab[st.p].Old(), abB := ab[st.p].New()))
  {
    PlaceStep(ab, st.p);
  }

  /** Emits the accumulated change. */
  lemma FlushStep(ab: seq<Span>, bc: seq<Span>, st: State)
    requires Inv(ab, bc, st)
    ensures Inv(ab, bc, st.(pendingA := 0, pendingC := 0, acc := st.acc + [Change(st.pendingA, st.pendingC)]))
  {
    Emit(ab, bc, st.acc, End(st.acc).src + st.pendingA, st.pendingA, st.pendingC);
  }

  /** Where units of a inside unchanged text of both scripts go. */
  lemma KeptInBoth(ab: seq<Span>, bc: seq<Span>, st: State, i: int)
    requires Inv(ab, bc, st) && st.pendingA == 0 && st.pendingC == 0 && st.abB > 0 && st.bcB > 0
    requires ab[st.p - 1].Unchanged? && bc[st.q - 1].Unchanged?
    requires End(st.acc).src <= i < End(st.acc).src + st.a && i < End(st.acc).src + st.c
    ensures Composition(ab, bc, i) == Some(End(st.acc).dest + (i - End(st.acc).src))
  {
    KeptInAB(ab, bc, st, i);
    UnchangedInSpan(bc, st.q - 1, |bc|, PlaceAt(ab, st.p).dest - (PlaceAt(ab, st.p).src - i));
  }

  /** Unchanged all the way from a to c. */
  lemma KeepStep(ab: seq<Span>, bc: seq<Span>, st: State, n: nat)
    requires Inv(ab, bc, st) && st.pendingA == 0 && st.pendingC == 0 && st.abB > 0 && st.bcB > 0
    requires ab[st.p - 1].Unchanged? && bc[st.q - 1].Unchanged? && n <= st.a && n <= st.c
    ensures Inv(ab, bc, st.(a := st.a - n, abB := st.a - n, c := st.c - n, bcB := st.c - n,
                            acc := st.acc + [Unchanged(n)]))
  {
    var x := Unchanged(n);
    EndSnoc(st.acc, x);
    forall i | 0 <= i < End(st.acc).src + n
      ensures UnchangedAt(st.acc + [x], i) == Composition(ab, bc, i)
    {
      UnchangedAtSnoc(st.acc, x, i);
      if i >= End(st.acc).src { KeptInBoth(ab, bc, st, i); }
    }
  }

  /** Unchanged a->b, split where the change b->c ends. */
  lemma SplitABStep(ab: seq<Span>, bc: seq<Span>, st: State)
    requires Inv(ab, bc, st) && st.abB >= st.bcB > 0 && ab[st.p - 1].Unchanged? && bc[st.q - 1].Change?
    ensures Inv(ab, bc, st.(a := st.abB - st.bcB, abB := st.abB - st.bcB, bcB := 0, pendingA := 0, pendingC := 0,
                            acc := st.acc + [Change(st.pendingA + st.bcB, st.pendingC + st.c)]))
  {
    var n := End(st.acc).src + st.pendingA;
    forall i | n <= i < n + st.bcB
      ensures Composition(ab, bc, i) == None
    {
      ReplacedInBC(ab, bc, st, i);
    }
    Emit(ab, bc, st.acc, n, st.pendingA + st.bcB, st.pendingC + st.c);
  }

  /** Unchanged b->c, split where the change a->b ends. */
  lemma SplitBCStep(ab: seq<Span>, bc: seq<Span>, st: State)
    requires Inv(ab, bc, st) && 0 < st.abB <= st.bcB && ab[st.p - 1].Change? && bc[st.q - 1].Unchanged?
    ensures Inv(ab, bc, st.(c := st.bcB - st.abB, bcB := st.bcB - st.abB, abB := 0, pendingA := 0, pendingC := 0,
                            acc := st.acc + [Change(st.pendingA + st.a, st.pendingC + st.abB)]))
  {
    var n := End(st.acc).src + st.pendingA;
    forall i | n <= i < n + st.a
      ensures Composition(ab, bc, i) == None
    {
      ReplacedInAB(ab, bc, st.p, st.a, i);
    }
    Emit(ab, bc, st.acc, n, st.pendingA + st.a, st.pendingC + st.abB);
  }

  /** What the a side of the current step loses is replaced by one script or the other. */
  lemma LostUnits(ab: seq<Span>, bc: seq<Span>, st: State, i: int)
    requires Inv(ab, bc, st) && st.abB > 0 && st.bcB > 0
    requires ab[st.p - 1].Change? || (bc[st.q - 1].Change? && st.abB <= st.bcB)
    requires PlaceAt(ab, st.p).src - st.a <= i < PlaceAt(ab, st.p).src
    ensures Composition(ab, bc, i) == None
  {
    if ab[st.p - 1].Change? {
      ReplacedInAB(ab, bc, st.p, st.a, i);
    } else {
      ReplacedInBC(ab, bc, st, i);
    }
  }

  /** Two changes that replace the same end of b. */
  lemma MeetStep(ab: seq<Span>, bc: seq<Span>, st: State)
    requires Inv(ab, bc, st) && st.abB == st.bcB > 0 && ab[st.p - 1].Change? && bc[st.q - 1].Change?
    ensures Inv(ab, bc, st.(abB := 0, bcB := 0, pendingA := 0, pendingC := 0,
                            acc := st.acc + [Change(st.pendingA + st.a, st.pendingC + st.c)]))
  {
    var n := End(st.acc).src + st.pendingA;
    forall i | n <= i < n + st.a
      ensures Composition(ab, bc, i) == None
    {
      LostUnits(ab, bc, st, i);
    }
    Emit(ab, bc, st.acc, n, st.pendingA + st.a, st.pendingC + st.c);
  }

  /** Accumulates a change; the shorter side is used up, the longer one keeps a remainder. */
  lemma AccumulateStep(ab: seq<Span>, bc: seq<Span>, st: State)
    requires Inv(ab, bc, st) && st.abB > 0 && st.bcB > 0 && st.abB != st.bcB
    requires if st.abB < st.bcB then bc[st.q - 1].Change? else ab[st.p - 1].Change?
    ensures Inv(ab, bc, AfterAccumulate(st))
  {
    var n := End(st.acc).src + st.pendingA;
    forall i | n <= i < n + st.a
      ensures UnchangedAt(st.acc, i) == Composition(ab, bc, i)
    {
      UnchangedAtPastEnd(st.acc, i);
      LostUnits(ab, bc, st, i);
    }
  }

  function AfterAccumulate(st: State): State {
    var s := st.(pendingA := st.pendingA + st.a, pendingC := st.pendingC + st.c);
    if st.abB < st.bcB then s.(bcB := st.bcB - st.abB, c := 0, abB := 0)
    else if st.abB > st.bcB then s.(abB := st.abB - st.bcB, a := 0, bcB := 0)
    else s
  }

  // ---------------------------------------------------------------------------------------------
  // The loop.

  /** What the loop needs to know to go on. */
  lemma Facts(ab: seq<Span>, bc: seq<Span>, st: State)
    requires Inv(ab, bc, st)
    ensures st.p <= |ab| && st.q <= |bc|
    ensures st.abB > 0 ==> 0 < st.p && (ab[st.p - 1].Unchanged? ==> st.a == st.abB)
    ensures st.bcB > 0 ==> 0 < st.q && (bc[st.q - 1].Unchanged? ==> st.c == st.bcB)
    ensures End(st.acc).src + st.pendingA + LeftA(st) <= End(ab).src
    ensures End(st.acc).dest + st.pendingC + LeftC(st) <= End(bc).dest
    ensures st.p < |ab| ==> End(st.acc).src + st.pendingA + LeftA(st) + ab[st.p].Old() <= End(ab).src
    ensures st.q < |bc| ==> End(st.acc).dest + st.pendingC + LeftC(st) + bc[st.q].New() <= End(bc).dest
  {
    PlaceMonotone(ab, st.p, |ab|);
    PlaceMonotone(bc, st.q, |bc|);
    if st.p < |ab| { PlaceMonotone(ab, st.p + 1, |ab|); }
    if st.q < |bc| { PlaceMonotone(bc, st.q + 1, |bc|); }
  }

  /** What is left when both scripts are used up tells by how much their lengths of b differ. */
  lemma Finished(ab: seq<Span>, bc: seq<Span>, st: State)
    requires Inv(ab, bc, st) && st.p == |ab| && st.q == |bc|
    ensures End(ab).dest - st.abB == End(bc).src - st.bcB
    ensures st.abB == 0 && st.bcB == 0 ==>
              && End(st.acc).src + st.pendingA == End(ab).src
              && End(st.acc).dest + st.pendingC == End(bc).dest
              && Composed(ab, bc, st.acc, End(ab).src)
  {}

  /** A script that is used up before the other one. */
  lemma TooShort(ab: seq<Span>, bc: seq<Span>, st: State)
    requires Inv(ab, bc, st)
    ensures st.p == |ab| && st.abB == 0 && st.bcB > 0 ==> End(ab).dest < End(bc).src
    ensures st.q == |bc| && st.bcB == 0 && st.abB > 0 ==> End(bc).src < End(ab).dest
  {
    PlaceMonotone(ab, st.p, |ab|);
    PlaceMonotone(bc, st.q, |bc|);
  }

  /** The whole composition, beyond the end of a as well. */
  lemma ComposedEverywhere(ab: seq<Span>, bc: seq<Span>, acc: seq<Span>, i: int)
    requires Composed(ab, bc, acc, End(ab).src) && End(acc).src == End(ab).src
    ensures UnchangedAt(acc, i) == Composition(ab, bc, i)
  {
    if i >= End(ab).src {
      UnchangedAtPastEnd(acc, i);
      UnchangedAtPastEnd(ab, i);
    }
  }

  /** The iterator has delivered `p` spans. */
  ghost predicate Delivered(it: Iterator, spans: seq<Span>, p: nat)
    reads it, it.units
  {
    && it.Valid() && it.All() == spans
    && (if it.dir == 1 then it.current + 1 == p else it.dir == 0 && it.current == p)
  }

  /** Recording edits from `lenA` to `lenC` units after a delta of `d` cannot overflow. */
  predicate Fits(d: int, lenA: nat, lenC: nat) {
    INT32_MIN <= d - lenA && d + lenC <= INT32_MAX
  }

  /**
   The recorder holds the appended edits, or it has run into an error: the array is full or the
   delta may have got too large.
   */
  ghost predicate Appended(ac: Edits, before: seq<Span>, acc: seq<Span>, lenA: nat, lenC: nat)
    reads ac, ac.units
  {
    && (ac.errorCode == ZeroError ==> ac.spans == AddAll(before, acc))
    && (ac.errorCode != ZeroError ==>
          ac.errorCode == IndexOutOfBounds
          && (ac.Full() || !Fits(End(before).dest - End(before).src, lenA, lenC)))
  }

  method EmitChange(ac: Edits, o: nat, n: nat, ghost before: seq<Span>, ghost acc: seq<Span>,
                    ghost lenA: nat, ghost lenC: nat)
    requires ac.Valid() && Appended(ac, before, acc, lenA, lenC) && lenA <= INT32_MAX && lenC <= INT32_MAX
    requires End(acc).src + o <= lenA && End(acc).dest + n <= lenC
    modifies ac, ac.units
    ensures ac.Valid() && Appended(ac, before, acc + [Change(o, n)], lenA, lenC)
    ensures ac.units == old(ac.units) || fresh(ac.units)
  {
    hide EncodeAll, Fine, PlaceAt, AddFirst;
    AddAllSnoc(before, acc, Change(o, n));
    AddFirstMeaning(before, acc, |acc|, 0);
    ac.AddReplace(o, n);
  }

  method EmitUnchanged(ac: Edits, n: nat, ghost before: seq<Span>, ghost acc: seq<Span>, ghost lenA: nat, ghost lenC: nat)
    requires ac.Valid() && Appended(ac, before, acc, lenA, lenC) && n <= INT32_MAX
    modifies ac, ac.units
    ensures ac.Valid() && Appended(ac, before, acc + [Unchanged(n)], lenA, lenC)
    ensures ac.units == old(ac.units) || fresh(ac.units)
  {
    hide EncodeAll, Fine, PlaceAt, AddFirst;
    AddAllSnoc(before, acc, Unchanged(n));
    ac.AddUnchanged(n);
  }

  lemma Showing(it: Iterator)
    requires it.Valid() && it.dir == 1
    ensures it.current < |it.All()|
    ensures it.oldLength == it.All()[it.current].Old() && it.newLength == it.All()[it.current].New()
    ensures it.changed == it.All()[it.current].Change?
  {}

  lemma UpcomingSpan(it: Iterator)
    requires it.Valid()
    ensures it.rec <= |it.recs|
    ensures it.Upcoming() == if it.dir == 1 then it.current + 1 else it.current
  {}

  /** Fetches the next edit of one script. */
  method Fetch(it: Iterator, ghost spans: seq<Span>, ghost p: nat) returns (hasNext: bool, o: nat, n: nat)
    requires Delivered(it, spans, p)
    modifies it
    ensures hasNext <==> p < |spans|
    ensures hasNext ==> Delivered(it, spans, p + 1) && it.dir == 1 && o == spans[p].Old() && n == spans[p].New()
    ensures !hasNext ==> Delivered(it, spans, p)
  {
    hide Iterator.Valid, Iterator.All;
    UpcomingSpan(it);
    hasNext := it.Next(false);
    if hasNext { Showing(it); }
    o, n := it.oldLength, it.newLength;
  }

  lemma Kind(it: Iterator, spans: seq<Span>, p: nat)
    requires Delivered(it, spans, p) && it.dir == 1
    ensures 0 < p <= |spans| && it.changed == spans[p - 1].Change?
  {
    Showing(it);
  }

  /** Deals with an insertion, the edit of bc that comes next. */
  method Insert(ac: Edits, emit: bool, cLength: nat, pendingA: nat, pendingC: nat, ghost before: seq<Span>,
                ghost ab: seq<Span>, ghost bc: seq<Span>, ghost st: State)
    returns (pendingA': nat, pendingC': nat, ghost st': State)
    requires ac.Valid() && Inv(ab, bc, st) && Appended(ac, before, st.acc, End(ab).src, End(bc).dest)
    requires End(ab).src <= INT32_MAX && End(bc).dest <= INT32_MAX
    requires st.pendingA == pendingA && st.pendingC == pendingC && st.bcB == 0 && st.q < |bc|
    requires bc[st.q].Old() == 0 && bc[st.q].New() == cLength
    modifies ac, ac.units
    ensures ac.Valid() && Inv(ab, bc, st') && Appended(ac, before, st'.acc, End(ab).src, End(bc).dest)
    ensures ac.units == old(ac.units) || fresh(ac.units)
    ensures st' == st.(q := st.q + 1, c := cLength, pendingA := pendingA', pendingC := pendingC', acc := st'.acc)
  {
    hide Inv, PlaceAt, Appended, AddFirst, Composed, Edits.Valid;
    Facts(ab, bc, st);
    InsertStep(ab, bc, st, emit);
    st' := AfterInsert(bc, st, emit);
    if emit {
      EmitChange(ac, pendingA, pendingC + cLength, before, st.acc, End(ab).src, End(bc).dest);
      pendingA', pendingC' := 0, 0;
    } else {
      pendingA', pendingC' := pendingA, pendingC + cLength;
    }
  }

  /** Deals with a deletion, the edit of ab that comes next. */
  method Delete(ac: Edits, emit: bool, aLength: nat, pendingA: nat, pendingC: nat, ghost before: seq<Span>,
                ghost ab: seq<Span>, ghost bc: seq<Span>, ghost st: State)
    returns (pendingA': nat, pendingC': nat, ghost st': State)
    requires ac.Valid() && Inv(ab, bc, st) && Appended(ac, before, st.acc, End(ab).src, End(bc).dest) && Normal(ab)
    requires End(ab).src <= INT32_MAX && End(bc).dest <= INT32_MAX
    requires st.pendingA == pendingA && st.pendingC == pendingC && st.abB == 0 && st.p < |ab|
    requires ab[st.p].New() == 0 && ab[st.p].Old() == aLength
    modifies ac, ac.units
    ensures ac.Valid() && Inv(ab, bc, st') && Appended(ac, before, st'.acc, End(ab).src, End(bc).dest)
    ensures ac.units == old(ac.units) || fresh(ac.units)
    ensures st' == st.(p := st.p + 1, a := aLength, pendingA := pendingA', pendingC := pendingC', acc := st'.acc)
  {
    hide Inv, PlaceAt, Appended, AddFirst, Composed, Edits.Valid;
    Facts(ab, bc, st);
    DeleteStep(ab, bc, st, emit);
    st' := AfterDelete(ab, st, emit);
    if emit {
      EmitChange(ac, pendingA + aLength, pendingC, before, st.acc, End(ab).src, End(bc).dest);
      pendingA', pendingC' := 0, 0;
    } else {
      pendingA', pendingC' := pendingA + aLength, pendingC;
    }
  }

  /** Works off as much of the two current edits as can be done at once. */
  method Consume(ac: Edits, abChanged: bool, bcChanged: bool, aLength: nat, abLength: nat, bcLength: nat, cLength: nat,
                 pendingA: nat, pendingC: nat, ghost before: seq<Span>,
                 ghost ab: seq<Span>, ghost bc: seq<Span>, ghost st: State)
    returns (aLength': nat, abLength': nat, bcLength': nat, cLength': nat, pendingA': nat, pendingC': nat,
             ghost st': State)
    requires ac.Valid() && Inv(ab, bc, st) && Appended(ac, before, st.acc, End(ab).src, End(bc).dest)
    requires End(ab).src <= INT32_MAX && End(bc).dest <= INT32_MAX
    requires st == State(st.p, st.q, aLength, abLength, bcLength, cLength, pendingA, pendingC, st.acc)
    requires abLength > 0 && bcLength > 0
    requires 0 < st.p <= |ab| && abChanged == ab[st.p - 1].Change?
    requires 0 < st.q <= |bc| && bcChanged == bc[st.q - 1].Change?
    modifies ac, ac.units
    ensures ac.Valid() && Inv(ab, bc, st') && Appended(ac, before, st'.acc, End(ab).src, End(bc).dest)
    ensures ac.units == old(ac.units) || fresh(ac.units)
    ensures st' == State(st.p, st.q, aLength', abLength', bcLength', cLength', pendingA', pendingC', st'.acc)
    ensures abLength' + bcLength' < abLength + bcLength
  {
    hide Inv, PlaceAt, Appended, AddFirst, Composed, Edits.Valid;
    Facts(ab, bc, st);
    aLength', abLength', bcLength', cLength' := aLength, abLength, bcLength, cLength;
    pendingA', pendingC', st' := pendingA, pendingC, st;
    if !abChanged && !bcChanged {
      // What is unchanged in both stays unchanged, after what was pending.
      if pendingA != 0 || pendingC != 0 {
        FlushStep(ab, bc, st);
        EmitChange(ac, pendingA, pendingC, before, st.acc, End(ab).src, End(bc).dest);
        pendingA', pendingC' := 0, 0;
        st' := st.(pendingA := 0, pendingC := 0, acc := st.acc + [Change(pendingA, pendingC)]);
      }
      var unchangedLength := if aLength <= cLength then aLength else cLength;
      KeepStep(ab, bc, st', unchangedLength);
      EmitUnchanged(ac, unchangedLength, before, st'.acc, End(ab).src, End(bc).dest);
      aLength' := aLength - unchangedLength;
      abLength' := aLength';
      cLength' := cLength - unchangedLength;
      bcLength' := cLength';
      st' := st'.(a := aLength', abB := abLength', c := cLength', bcB := bcLength',
                  acc := st'.acc + [Unchanged(unchangedLength)]);
      return;
    }
    if !abChanged && bcChanged {
      if abLength >= bcLength {
        SplitABStep(ab, bc, st);
        EmitChange(ac, pendingA + bcLength, pendingC + cLength, before, st.acc, End(ab).src, End(bc).dest);
        pendingA', pendingC' := 0, 0;
        abLength' := abLength - bcLength;
        aLength' := abLength';
        bcLength' := 0;
        st' := st.(a := aLength', abB := abLength', bcB := 0, pendingA := 0, pendingC := 0,
                   acc := st.acc + [Change(pendingA + bcLength, pendingC + cLength)]);
        return;
      }
    } else if abChanged && !bcChanged {
      if abLength <= bcLength {
        SplitBCStep(ab, bc, st);
        EmitChange(ac, pendingA + aLength, pendingC + abLength, before, st.acc, End(ab).src, End(bc).dest);
        pendingA', pendingC' := 0, 0;
        bcLength' := bcLength - abLength;
        cLength' := bcLength';
        abLength' := 0;
        st' := st.(c := cLength', bcB := bcLength', abB := 0, pendingA := 0, pendingC := 0,
                   acc := st.acc + [Change(pendingA + aLength, pendingC + abLength)]);
        return;
      }
    } else {
      if abLength == bcLength {
        MeetStep(ab, bc, st);
        EmitChange(ac, pendingA + aLength, pendingC + cLength, before, st.acc, End(ab).src, End(bc).dest);
        pendingA', pendingC' := 0, 0;
        abLength', bcLength' := 0, 0;
        st' := st.(abB := 0, bcB := 0, pendingA := 0, pendingC := 0,
                   acc := st.acc + [Change(pendingA + aLength, pendingC + cLength)]);
        return;
      }
    }
    // One side is used up within the change of the other, which goes on.
    AccumulateStep(ab, bc, st);
    pendingA', pendingC' := pendingA + aLength, pendingC + cLength;
    if abLength < bcLength {
      bcLength' := bcLength - abLength;
      cLength', abLength' := 0, 0;
    } else {
      abLength' := abLength - bcLength;
      aLength', bcLength' := 0, 0;
    }
    st' := AfterAccumulate(st);
  }

  /** Fetches from bc if its current edit is done. An insertion is dealt with at once (`again`). */
  method FetchFromBC(ac: Edits, bcIter: Iterator, emit: bool, hasNext: bool, bcLength: nat, cLength: nat,
                     pendingA: nat, pendingC: nat, ghost before: seq<Span>, ghost ab: seq<Span>, ghost bc: seq<Span>,
                     ghost st: State)
    returns (again: bool, hasNext': bool, bcLength': nat, cLength': nat, pendingA': nat, pendingC': nat, ghost st': State)
    requires ac.Valid() && Inv(ab, bc, st) && Appended(ac, before, st.acc, End(ab).src, End(bc).dest) && Delivered(bcIter, bc, st.q)
    requires ac.units != bcIter.units
    requires End(ab).src <= INT32_MAX && End(bc).dest <= INT32_MAX
    requires st.pendingA == pendingA && st.pendingC == pendingC && st.bcB == bcLength && st.c == cLength
    requires bcLength > 0 ==> bcIter.dir == 1
    requires !hasNext ==> st.q == |bc|
    modifies ac, ac.units, bcIter
    ensures ac.Valid() && Inv(ab, bc, st') && Appended(ac, before, st'.acc, End(ab).src, End(bc).dest) && Delivered(bcIter, bc, st'.q)
    ensures ac.units == old(ac.units) || fresh(ac.units)
    ensures st' == State(st.p, st'.q, st.a, st.abB, bcLength', cLength', pendingA', pendingC', st'.acc)
    ensures bcLength' > 0 ==> bcIter.dir == 1
    ensures st.q <= st'.q <= |bc| && (st'.q == st.q ==> st' == st)
    ensures again ==> bcLength' == 0 && st.q < st'.q
    ensures !hasNext' ==> st'.q == |bc|
    ensures !again && bcLength' == 0 ==> st'.q == |bc|
  {
    hide Inv, PlaceAt, Appended, Iterator.Valid, Iterator.All, Edits.Valid;
    Facts(ab, bc, st);
    again, hasNext', bcLength', cLength' := false, hasNext, bcLength, cLength;
    pendingA', pendingC', st' := pendingA, pendingC, st;
    if bcLength == 0 && hasNext {
      var o, n;
      hasNext', o, n := Fetch(bcIter, bc, st.q);
      if hasNext' {
        bcLength', cLength' := o, n;
        if bcLength' == 0 {
          again := true;
          pendingA', pendingC', st' := Insert(ac, emit, cLength', pendingA, pendingC, before, ab, bc, st);
        } else {
          FetchBC(ab, bc, st);
          st' := st.(q := st.q + 1, bcB := bcLength', c := cLength');
        }
      }
    }
  }

  /** Fetches from ab if its current edit is done. A deletion is dealt with at once (`again`). */
  method FetchFromAB(ac: Edits, abIter: Iterator, emit: bool, hasNext: bool, aLength: nat, abLength: nat,
                     pendingA: nat, pendingC: nat, ghost before: seq<Span>, ghost ab: seq<Span>, ghost bc: seq<Span>,
                     ghost st: State)
    returns (again: bool, hasNext': bool, aLength': nat, abLength': nat, pendingA': nat, pendingC': nat, ghost st': State)
    requires ac.Valid() && Inv(ab, bc, st) && Appended(ac, before, st.acc, End(ab).src, End(bc).dest) && Delivered(abIter, ab, st.p)
    requires ac.units != abIter.units && Normal(ab)
    requires End(ab).src <= INT32_MAX && End(bc).dest <= INT32_MAX
    requires st.pendingA == pendingA && st.pendingC == pendingC && st.abB == abLength && st.a == aLength
    requires abLength > 0 ==> abIter.dir == 1
    requires !hasNext ==> st.p == |ab|
    modifies ac, ac.units, abIter
    ensures ac.Valid() && Inv(ab, bc, st') && Appended(ac, before, st'.acc, End(ab).src, End(bc).dest) && Delivered(abIter, ab, st'.p)
    ensures ac.units == old(ac.units) || fresh(ac.units)
    ensures st' == State(st'.p, st.q, aLength', abLength', st.bcB, st.c, pendingA', pendingC', st'.acc)
    ensures abLength' > 0 ==> abIter.dir == 1
    ensures st.p <= st'.p <= |ab| && (st'.p == st.p ==> st' == st)
    ensures again ==> abLength' == 0 && st.p < st'.p
    ensures !hasNext' ==> st'.p == |ab|
    ensures !again && abLength' == 0 ==> st'.p == |ab|
  {
    hide Inv, PlaceAt, Appended, Iterator.Valid, Iterator.All, Edits.Valid;
    Facts(ab, bc, st);
    again, hasNext', aLength', abLength' := false, hasNext, aLength, abLength;
    pendingA', pendingC', st' := pendingA, pendingC, st;
    if abLength == 0 && hasNext {
      var o, n;
      hasNext', o, n := Fetch(abIter, ab, st.p);
      if hasNext' {
        aLength', abLength' := o, n;
        if abLength' == 0 {
          again := true;
          pendingA', pendingC', st' := Delete(ac, emit, aLength', pendingA, pendingC, before, ab, bc, st);
        } else {
          FetchAB(ab, bc, st);
          st' := st.(p := st.p + 1, a := aLength', abB := abLength');
        }
      }
    }
  }

  /** Edits are fetched from both scripts in turn and consumed, until one or both of them are used up. */
  method MergeRounds(ac: Edits, abIter: Iterator, bcIter: Iterator, ghost before: seq<Span>, ghost A: seq<Span>,
                     ghost B: seq<Span>)
    returns (outCode: ErrorCode, pendingA: nat, pendingC: nat, ghost st: State)
    requires ac.Valid() && Inv(A, B, State(0, 0, 0, 0, 0, 0, 0, 0, [])) && Appended(ac, before, [], End(A).src, End(B).dest)
    requires abIter != bcIter && Delivered(abIter, A, 0) && Delivered(bcIter, B, 0)
    requires ac.units != abIter.units && ac.units != bcIter.units && Normal(A)
    requires End(A).src <= INT32_MAX && End(B).dest <= INT32_MAX
    modifies ac, ac.units, abIter, bcIter
    ensures ac.Valid() && (ac.units == old(ac.units) || fresh(ac.units))
    ensures outCode != ZeroError ==>
      && outCode == (if ac.errorCode != ZeroError then ac.errorCode else IllegalArgument)
      && (ac.errorCode != ZeroError ==>
            ac.errorCode == IndexOutOfBounds
            && (ac.Full() || !Fits(End(before).dest - End(before).src, End(A).src, End(B).dest)))
      && End(A).dest != End(B).src
    ensures outCode == ZeroError ==>
      && Inv(A, B, st) && Appended(ac, before, st.acc, End(A).src, End(B).dest)
      && st.pendingA == pendingA && st.pendingC == pendingC && st.p == |A| && st.q == |B| && st.abB == 0 && st.bcB == 0
  {
    hide Inv, PlaceAt, Appended, AddAll, Iterator.Valid, Iterator.All, Edits.Valid, Composed, Delivered, End, EncodeAll,
         Fine, Normal, Iterator.Upcoming, Fits, Edits.Full;
    var abHasNext, bcHasNext := true, true;
    var aLength: nat, abLength: nat, bcLength: nat, cLength: nat := 0, 0, 0, 0;
    pendingA, pendingC := 0, 0;
    st := State(0, 0, 0, 0, 0, 0, 0, 0, []);
    outCode := ZeroError;
    while true
      invariant st == State(st.p, st.q, aLength, abLength, bcLength, cLength, pendingA, pendingC, st.acc)
      invariant Inv(A, B, st) && ac.Valid() && Appended(ac, before, st.acc, End(A).src, End(B).dest)
      invariant ac.units == old(ac.units) || fresh(ac.units)
      invariant Delivered(abIter, A, st.p)
      invariant Delivered(bcIter, B, st.q)
      invariant abLength > 0 ==> abIter.dir == 1
      invariant bcLength > 0 ==> bcIter.dir == 1
      invariant !abHasNext ==> st.p == |A|
      invariant !bcHasNext ==> st.q == |B|
      invariant outCode == ZeroError
      decreases (|A| - st.p) + (|B| - st.q), abLength + bcLength
    {
      Facts(A, B, st);
      // Fetching from bc first puts its insertions before deletions of ab at the same place.
      var again;
      again, bcHasNext, bcLength, cLength, pendingA, pendingC, st :=
        FetchFromBC(ac, bcIter, abLength == 0 || !abIter.changed, bcHasNext, bcLength, cLength, pendingA, pendingC,
                    before, A, B, st);
      if again {
        continue;
      }
      again, abHasNext, aLength, abLength, pendingA, pendingC, st :=
        FetchFromAB(ac, abIter, bcLength == bcIter.oldLength || !bcIter.changed, abHasNext, aLength, abLength,
                    pendingA, pendingC, before, A, B, st);
      if again {
        continue;
      }
      TooShort(A, B, st);
      if abLength == 0 && bcLength == 0 {
        break;
      }
      if abLength == 0 || bcLength == 0 {
        // One script has more of b than the other.
        outCode := Mismatch(ac, before, st.acc, End(A).src, End(B).dest);
        return;
      }
      Kind(abIter, A, st.p);
      Kind(bcIter, B, st.q);
      aLength, abLength, bcLength, cLength, pendingA, pendingC, st :=
        Consume(ac, abIter.changed, bcIter.changed, aLength, abLength, bcLength, cLength, pendingA, pendingC, before,
                A, B, st);
    }
  }

  /**
   Merges the edits `ab` and `bc` and appends the result to `ac`. Unless an error is returned,
   `appended` is what `ac` has recorded in addition: it leads from a to c and keeps exactly the
   units that both scripts keep. If the intermediate lengths differ, that is an error, and the
   only one apart from those that occur while recording.
   */
  method MergeAndAppend(ac: Edits, ab: Edits, bc: Edits, errorCode: ErrorCode)
    returns (outCode: ErrorCode, ghost appended: seq<Span>)
    requires ac.Valid() && ab.Valid() && bc.Valid()
    requires ac != ab && ac != bc && ac.units != ab.units && ac.units != bc.units
    requires End(ab.spans).src <= INT32_MAX && End(bc.spans).dest <= INT32_MAX
    modifies ac, ac.units
    ensures ac.Valid()
    ensures errorCode != ZeroError ==> outCode == errorCode && unchanged(ac)
    ensures errorCode == ZeroError && old(ac.errorCode) != ZeroError ==> outCode == old(ac.errorCode) && unchanged(ac)
    ensures errorCode == ZeroError ==>
              outCode == if ac.errorCode != ZeroError then ac.errorCode
                         else if End(ab.spans).dest != End(bc.spans).src then IllegalArgument
                         else ZeroError
    ensures errorCode == ZeroError && old(ac.errorCode) == ZeroError && ac.errorCode != ZeroError ==>
              ac.errorCode == IndexOutOfBounds
              && (ac.Full() || !Fits(old(ac.delta), End(ab.spans).src, End(bc.spans).dest))
    ensures outCode == ZeroError ==>
              && ac.spans == AddAll(old(ac.spans), appended)
              && End(appended).src == End(ab.spans).src
              && End(appended).dest == End(bc.spans).dest
              && Composed(ab.spans, bc.spans, appended, End(ab.spans).src)
  {
    hide Inv, PlaceAt, Appended, AddAll, Iterator.Valid, Iterator.All, Edits.Valid, Composed, Delivered, End, EncodeAll,
         Fine, Normal, Iterator.Upcoming;
    appended := [];
    outCode := ac.CopyErrorTo(errorCode);
    if outCode != ZeroError {
      return;
    }
    ghost var A, B, before := ab.spans, bc.spans, ac.spans;
    Start(ac, ab, bc);
    var abIter := new Iterator(ab.units, ab.length, false, false, ab.recs);
    var bcIter := new Iterator(bc.units, bc.length, false, false, bc.recs);
    AtStart(abIter);
    AtStart(bcIter);
    var pendingA, pendingC;
    ghost var st;
    outCode, pendingA, pendingC, st := MergeRounds(ac, abIter, bcIter, before, A, B);
    if outCode == ZeroError {
      appended := Flush(ac, pendingA, pendingC, before, A, B, st);
      Recorded(ac, before, appended, End(A).src, End(B).dest);
      outCode := ac.CopyErrorTo(outCode);
    }
  }

  method Mismatch(ac: Edits, ghost before: seq<Span>, ghost acc: seq<Span>, ghost lenA: nat, ghost lenC: nat)
    returns (outCode: ErrorCode)
    requires Appended(ac, before, acc, lenA, lenC)
    ensures outCode == if ac.errorCode != ZeroError then ac.errorCode else IllegalArgument
    ensures ac.errorCode != ZeroError ==>
      ac.errorCode == IndexOutOfBounds && (ac.Full() || !Fits(End(before).dest - End(before).src, lenA, lenC))
  {
    outCode := ac.CopyErrorTo(ZeroError);
    if outCode == ZeroError {
      outCode := IllegalArgument;
    }
  }

  /** Both scripts are used up: the change that is still pending is appended. */
  method Flush(ac: Edits, pendingA: nat, pendingC: nat, ghost before: seq<Span>, ghost A: seq<Span>, ghost B: seq<Span>,
               ghost st0: State)
    returns (ghost appended: seq<Span>)
    requires ac.Valid() && Inv(A, B, st0) && Appended(ac, before, st0.acc, End(A).src, End(B).dest)
    requires st0.pendingA == pendingA && st0.pendingC == pendingC && st0.p == |A| && st0.q == |B|
    requires st0.abB == 0 && st0.bcB == 0
    requires End(A).src <= INT32_MAX && End(B).dest <= INT32_MAX
    modifies ac, ac.units
    ensures ac.Valid() && Appended(ac, before, appended, End(A).src, End(B).dest)
    ensures End(A).dest == End(B).src && End(appended).src == End(A).src && End(appended).dest == End(B).dest
    ensures Composed(A, B, appended, End(A).src)
  {
    hide Inv, PlaceAt, Appended, AddAll, Edits.Valid, Composed, End;
    ghost var st := st0;
    Facts(A, B, st);
    if pendingA != 0 || pendingC != 0 {
      FlushStep(A, B, st);
      EmitChange(ac, pendingA, pendingC, before, st.acc, End(A).src, End(B).dest);
      st := st.(pendingA := 0, pendingC := 0, acc := st.acc + [Change(pendingA, pendingC)]);
    }
    Finished(A, B, st);
    appended := st.acc;
  }

  lemma Start(ac: Edits, ab: Edits, bc: Edits)
    requires ac.Valid() && ab.Valid() && bc.Valid()
    ensures Inv(ab.spans, bc.spans, State(0, 0, 0, 0, 0, 0, 0, 0, []))
    ensures ac.errorCode == ZeroError ==>
              Appended(ac, ac.spans, [], End(ab.spans).src, End(bc.spans).dest)
              && ac.delta == End(ac.spans).dest - End(ac.spans).src
    ensures Normal(ab.spans)
    ensures ab.length <= ab.units.Length && AllValid(ab.recs) && ab.units[..ab.length] == EncodeAll(ab.recs)
    ensures bc.length <= bc.units.Length && AllValid(bc.recs) && bc.units[..bc.length] == EncodeAll(bc.recs)
    ensures ab.spans == Fine(ab.recs) && bc.spans == Fine(bc.recs)
  {
    FineNormal(ab.recs, |ab.recs|);
  }

  lemma Recorded(ac: Edits, before: seq<Span>, acc: seq<Span>, lenA: nat, lenC: nat)
    requires Appended(ac, before, acc, lenA, lenC)
    ensures ac.errorCode == ZeroError ==> ac.spans == AddAll(before, acc)
    ensures ac.errorCode != ZeroError ==>
      ac.errorCode == IndexOutOfBounds && (ac.Full() || !Fits(End(before).dest - End(before).src, lenA, lenC))
  {}

  lemma AtStart(it: Iterator)
    requires it.Valid() && !it.coarse && it.dir == 0 && it.current == 0
    ensures Delivered(it, Fine(it.recs), 0)
  {}
}