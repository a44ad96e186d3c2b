/** What a client sees: scripts that are recorded are read back, in both directions, and merged scripts compose. */
module EditsRoundTrip {
  import opened EditSpans
  import opened EditRecords
  import opened EditsRecorder
  import opened EditsIterator
  import opened EditsMerge

  /** All lengths are within 31 bits. */
  predicate Recordable(script: seq<Span>) {
    forall k :: 0 <= k < |script| ==> script[k].Old() <= INT32_MAX && script[k].New() <= INT32_MAX
  }

  /** After the first `k` spans, the new text is longer or shorter than the old one by a number of 32 bits. */
  predicate DeltaFits(script: seq<Span>, k: nat)
    requires k <= |script|
  {
    INT32_MIN <= PlaceAt(script, k).dest - PlaceAt(script, k).src <= INT32_MAX
  }

  ghost predicate DeltasFit(script: seq<Span>, k: nat)
    requires k <= |script|
  {
    forall j :: 0 <= j <= k ==> DeltaFits(script, j)
  }

  /** The units that it takes at most to record the first `k` spans. */
  function MaxLength(script: seq<Span>, k: nat): nat
    requires k <= |script|
  {
    if k == 0 then 0 else MaxLength(script, k - 1) + MaxUnits(script[k - 1])
  }

  lemma {:induction false} MaxLengthGrows(script: seq<Span>, j: nat, k: nat)
    requires j <= k <= |script|
    ensures MaxLength(script, j) <= MaxLength(script, k)
  {
    if j < k { MaxLengthGrows(script, j, k - 1); }
  }

  lemma {:induction false} RecordedEnd(script: seq<Span>, k: nat)
    requires k <= |script|
    ensures End(AddFirst([], script, k)) == PlaceAt(script, k) && End(script) == PlaceAt(script, |script|)
  {
    hide Add, Place.After;
    if k > 0 {
      RecordedEnd(script, k - 1);
      AddEnd(AddFirst([], script, k - 1), script[k - 1]);
    }
  }

  lemma {:induction false} RecordedNormal(script: seq<Span>, k: nat)
    requires k <= |script|
    ensures Normal(AddFirst([], script, k))
  {
    if k > 0 {
      RecordedNormal(script, k - 1);
      AddNormal(AddFirst([], script, k - 1), script[k - 1]);
    }
  }

  lemma {:induction false} RecordedChanges(script: seq<Span>, k: nat)
    requires k <= |script|
    ensures Changes(AddFirst([], script, k), |AddFirst([], script, k)|) == Changes(script, k)
  {
    hide Add;
    if k > 0 {
      RecordedChanges(script, k - 1);
      AddKeepsChanges(AddFirst([], script, k - 1), script[k - 1]);
    }
  }

  /**
   The recording is free of errors if and only if no delta on the way leaves 32 bits, as long as the array, whose
   length has 31 bits, cannot get full.
   */
  method Record(script: seq<Span>) returns (e: Edits)
    requires Recordable(script)
    ensures fresh(e) && fresh(e.units) && e.Valid()
    ensures e.errorCode == ZeroError ==>
      && e.spans == AddAll([], script)
      && e.delta == End(script).dest - End(script).src && e.numChanges == End(script).changes
    ensures e.errorCode == ZeroError ==> DeltasFit(script, |script|)
    ensures e.errorCode != ZeroError ==> e.errorCode == IndexOutOfBounds
    ensures DeltasFit(script, |script|) && MaxLength(script, |script|) + 5 <= INT32_MAX ==> e.errorCode == ZeroError
  {
    hide Edits.Layout, PlaceAt, End, AddFirst;
    e := new Edits();
    assert AddFirst([], script, 0) == [] && PlaceAt(script, 0) == Origin by { Nothing(script); }
    for k := 0 to |script|
      invariant fresh(e) && fresh(e.units) && e.Valid()
      invariant e.errorCode == ZeroError ==> e.spans == AddFirst([], script, k) && DeltasFit(script, k)
      invariant e.errorCode == ZeroError || e.errorCode == IndexOutOfBounds
      invariant e.length <= MaxLength(script, k)
      invariant e.errorCode != ZeroError && DeltasFit(script, k) ==> MaxLength(script, k) + 5 > INT32_MAX
    {
      RecordedEnd(script, k);
      RecordedEnd(script, k + 1);
      MaxLengthGrows(script, k, k + 1);
      NextDelta(script, k);
      ghost var was := e.spans;
      match script[k] {
        case Unchanged(n) => e.AddUnchanged(n);
        case Change(o, n) => e.AddReplace(o, n);
      }
      assert e.errorCode == ZeroError ==> e.spans == Add(was, script[k]);
    }
    RecordedEnd(script, |script|);
  }

  lemma Nothing(script: seq<Span>)
    ensures AddFirst([], script, 0) == [] && PlaceAt(script, 0) == Origin
  {
  }

  lemma NextDelta(script: seq<Span>, k: nat)
    requires k < |script|
    ensures DeltasFit(script, k + 1) <==> DeltasFit(script, k) && DeltaFits(script, k + 1)
    ensures PlaceAt(script, k + 1) == PlaceAt(script, k).After(script[k])
    ensures AddFirst([], script, k + 1) == Add(AddFirst([], script, k), script[k])
  {
  }

  method ReadForward(e: Edits, coarse: bool) returns (read: seq<Span>)
    requires e.Valid()
    ensures read == Spans(e.recs, coarse)
  {
    hide EncodeAll, Spans, Iterator.Readable, Iterator.AtRecord, Iterator.AtPlace;
    var it := new Iterator(e.units, e.length, false, coarse, e.recs);
    read := [];
    ghost var all := it.All();
    var more := it.Next(false);
    while more
      invariant it.Valid() && fresh(it) && it.All() == all && it.current <= |all|
      invariant more <==> it.current < |all|
      invariant it.dir == if more then 1 else 0
      invariant read == all[..it.current]
      invariant it.recs == e.recs && it.coarse == coarse
      decreases |all| - it.current
    {
      Delivers(it);
      read := read + [if it.changed then Change(it.oldLength, it.newLength) else Unchanged(it.oldLength)];
      more := it.Next(false);
    }
  }

  /** The iterator shows the span that it stands on. */
  lemma Delivers(it: Iterator)
    requires it.Valid() && it.dir == 1 && it.current < |it.All()|
    ensures it.All()[it.current] == if it.changed then Change(it.oldLength, it.newLength) else Unchanged(it.oldLength)
    ensures it.Upcoming() == it.current + 1
  {
  }

  /** From the end of the script back to its start: the same spans in reverse. */
  method ReadBackward(e: Edits, coarse: bool) returns (read: seq<Span>)
    requires e.Valid()
    ensures |read| == |Spans(e.recs, coarse)|
    ensures forall k :: 0 <= k < |read| ==> read[k] == Spans(e.recs, coarse)[|read| - 1 - k]
  {
    hide EncodeAll, Spans, Iterator.Readable, Iterator.AtRecord, Iterator.AtPlace;
    var it := new Iterator(e.units, e.length, false, coarse, e.recs);
    ghost var all := it.All();
    var more := it.Next(false);
    while more
      invariant it.Valid() && fresh(it) && it.All() == all && it.current <= |all|
      invariant more <==> it.current < |all|
      invariant it.dir == if more then 1 else 0
      invariant it.recs == e.recs && it.coarse == coarse
      decreases |all| - it.current
    {
      Delivers(it);
      more := it.Next(false);
    }
    read := [];
    more := it.Previous();
    while more
      invariant it.Valid() && fresh(it) && it.All() == all && it.recs == e.recs && it.coarse == coarse
      invariant more ==> it.dir == -1 && it.current < |all| && |read| == |all| - 1 - it.current
      invariant !more ==> |read| == |all|
      invariant forall k :: 0 <= k < |read| ==> read[k] == all[|all| - 1 - k]
      decreases if more then it.current + 1 else 0
    {
      DeliversBackward(it);
      read := read + [if it.changed then Change(it.oldLength, it.newLength) else Unchanged(it.oldLength)];
      more := it.Previous();
    }
  }

  lemma DeliversBackward(it: Iterator)
    requires it.Valid() && it.dir == -1 && it.current < |it.All()|
    ensures it.All()[it.current] == if it.changed then Change(it.oldLength, it.newLength) else Unchanged(it.oldLength)
  {
  }

  /**
   There is no error exactly if no delta leaves 32 bits, as long as the array cannot get full. Then the fine spans are
   those that were recorded, neighbouring unchanged ones joined and empty ones left out, and the coarse spans are these
   with neighbouring changes joined.
   */
  method RoundTrip(script: seq<Span>) returns (errorCode: ErrorCode, fine: seq<Span>, coarse: seq<Span>)
    requires Recordable(script)
    ensures errorCode == ZeroError ==> fine == AddAll([], script) && coarse == Coarsen(AddAll([], script)) && Normal(fine)
    ensures errorCode == ZeroError ==> Changes(fine, |fine|) == Changes(script, |script|) && End(fine) == End(script)
    ensures errorCode == ZeroError ==> DeltasFit(script, |script|)
    ensures DeltasFit(script, |script|) && MaxLength(script, |script|) + 5 <= INT32_MAX ==> errorCode == ZeroError
  {
    hide EncodeAll, SpansFirst;
    var e := Record(script);
    errorCode := e.errorCode;
    fine := ReadForward(e, false);
    coarse := ReadForward(e, true);
    CoarseIsCoarsened(e.recs, |e.recs|);
    RecordedNormal(script, |script|);
    RecordedChanges(script, |script|);
    RecordedEnd(script, |script|);
  }

  /** The indexes at a span tell a client what to copy: the new text comes together from the old one and the replacements. */
  method Rebuild<T>(e: Edits, text: seq<T>, replacement: seq<T>) returns (r: seq<T>)
    requires e.Valid() && |text| == End(e.spans).src && |replacement| == End(e.spans).repl
    ensures r == NewText(e.spans, 0, text, replacement) && |r| == End(e.spans).dest
  {
    hide EncodeAll, Spans, Iterator.Readable, Iterator.AtRecord, Iterator.AtPlace, PlaceAt, End, NewText, Rebuilt;
    var it := new Iterator(e.units, e.length, false, false, e.recs);
    r := [];
    ghost var all := it.All();
    NothingRebuilt(all, text, replacement);
    var more := it.Next(false);
    while more
      invariant it.Valid() && fresh(it) && it.All() == all == e.spans && it.current <= |all|
      invariant more <==> it.current < |all|
      invariant it.dir == if more then 1 else 0
      invariant it.recs == e.recs && it.coarse == false
      invariant Rebuilt(all, it.current, text, replacement, r)
      decreases |all| - it.current
    {
      Delivers(it);
      IndexesDelivered(it);
      PieceInside(all, it.current, text, replacement);
      ghost var k, before := it.current, r;
      if it.changed {
        r := r + replacement[it.replIndex..it.replIndex + it.newLength];
      } else {
        r := r + text[it.srcIndex..it.srcIndex + it.oldLength];
      }
      MoreRebuilt(all, k, text, replacement, before);
      more := it.Next(false);
    }
    AllRebuilt(all, text, replacement, r);
  }

  /** The spans before `k` have made `r`. */
  ghost predicate Rebuilt<T>(s: seq<Span>, k: nat, text: seq<T>, replacement: seq<T>, r: seq<T>) {
    && k <= |s| && |r| == PlaceAt(s, k).dest && PlaceAt(s, k).src <= |text| && PlaceAt(s, k).repl <= |replacement|
    && NewText(s, 0, text, replacement)
       == r + NewText(s, k, text[PlaceAt(s, k).src..], replacement[PlaceAt(s, k).repl..])
  }

  lemma NothingRebuilt<T>(s: seq<Span>, text: seq<T>, replacement: seq<T>)
    ensures Rebuilt(s, 0, text, replacement, [])
  {
    hide NewText;
    assert text[0..] == text && replacement[0..] == replacement;
  }

  /** What span `k` adds. */
  ghost function Piece<T>(s: seq<Span>, k: nat, text: seq<T>, replacement: seq<T>): seq<T>
    requires k < |s| && PlaceAt(s, k).src + s[k].Old() <= |text|
    requires s[k].Change? ==> PlaceAt(s, k).repl + s[k].New() <= |replacement|
  {
    var p := PlaceAt(s, k);
    if s[k].Change? then replacement[p.repl..p.repl + s[k].New()] else text[p.src..p.src + s[k].Old()]
  }

  lemma PieceInside<T>(s: seq<Span>, k: nat, text: seq<T>, replacement: seq<T>)
    requires k < |s| && End(s).src <= |text| && End(s).repl <= |replacement|
    ensures PlaceAt(s, k).src + s[k].Old() <= |text|
    ensures s[k].Change? ==> PlaceAt(s, k).repl + s[k].New() <= |replacement|
  {
    NewTextStep(s, k, text, replacement);
  }

  lemma MoreRebuilt<T>(s: seq<Span>, k: nat, text: seq<T>, replacement: seq<T>, r: seq<T>)
    requires Rebuilt(s, k, text, replacement, r) && k < |s| && End(s).src <= |text| && End(s).repl <= |replacement|
    ensures PlaceAt(s, k).src + s[k].Old() <= |text|
    ensures s[k].Change? ==> PlaceAt(s, k).repl + s[k].New() <= |replacement|
    ensures Rebuilt(s, k + 1, text, replacement, r + Piece(s, k, text, replacement))
  {
    hide NewText, PlaceAt, End;
    NewTextStep(s, k, text, replacement);
    PlaceAfter(s, k);
    PlaceMonotone(s, k + 1, |s|);
    ToTheEnd(s);
    var q := PlaceAt(s, k + 1);
    Associate(r, Piece(s, k, text, replacement), NewText(s, k + 1, text[q.src..], replacement[q.repl..]));
  }

  lemma Associate<T>(a: seq<T>, b: seq<T>, c: seq<T>)
    ensures a + (b + c) == (a + b) + c
  {
  }

  lemma ToTheEnd(s: seq<Span>)
    ensures End(s) == PlaceAt(s, |s|)
  {
  }

  lemma PlaceAfter(s: seq<Span>, k: nat)
    requires k < |s|
    ensures PlaceAt(s, k + 1) == PlaceAt(s, k).After(s[k])
  {
  }

  lemma AllRebuilt<T>(s: seq<Span>, text: seq<T>, replacement: seq<T>, r: seq<T>)
    requires Rebuilt(s, |s|, text, replacement, r)
    ensures r == NewText(s, 0, text, replacement) && |r| == End(s).dest
  {
  }

  lemma IndexesDelivered(it: Iterator)
    requires it.Valid() && it.dir == 1 && it.current < |it.All()|
    ensures it.srcIndex == PlaceAt(it.All(), it.current).src && it.replIndex == PlaceAt(it.All(), it.current).repl
    ensures it.destIndex == PlaceAt(it.All(), it.current).dest
  {
  }

  /**
   Edits from a to b, merged with edits from b to c into new edits: these lead from a to c, and a unit is unchanged in
   them exactly if it is unchanged in both, at the unit of c that the unit of b is kept at.
   */
  method Merge(ab: Edits, bc: Edits) returns (outCode: ErrorCode, ac: Edits)
    requires ab.Valid() && bc.Valid() && End(ab.spans).src <= INT32_MAX && End(bc.spans).dest <= INT32_MAX
    ensures fresh(ac) && ac.Valid()
    ensures outCode == ZeroError ==>
      && End(ac.spans).src == End(ab.spans).src && End(ac.spans).dest == End(bc.spans).dest
      && forall i :: UnchangedAt(ac.spans, i) == Composition(ab.spans, bc.spans, i)
    ensures outCode == IllegalArgument <==> ac.errorCode == ZeroError && End(ab.spans).dest != End(bc.spans).src
    ensures outCode == ZeroError <==> ac.errorCode == ZeroError && End(ab.spans).dest == End(bc.spans).src
  {
    hide Edits.Layout, Edits.Full, PlaceAt, Composed, AddAll, UnchangedAt, Fits, Edits.Valid;
    ac := new Edits();
    ghost var appended;
    outCode, appended := MergeAndAppend(ac, ab, bc, ZeroError);
    if outCode == ZeroError {
      MergedScript(ab.spans, bc.spans, appended);
    }
  }

  lemma MergedScript(ab: seq<Span>, bc: seq<Span>, appended: seq<Span>)
    requires Composed(ab, bc, appended, End(ab).src) && End(appended).src == End(ab).src
    ensures End(AddAll([], appended)) .src == End(appended).src && End(AddAll([], appended)).dest == End(appended).dest
    ensures forall i :: UnchangedAt(AddAll([], appended), i) == Composition(ab, bc, i)
  {
    AddFirstMeaning([], appended, |appended|, 0);
    forall i ensures UnchangedAt(AddAll([], appended), i) == Composition(ab, bc, i) {
      AddFirstMeaning([], appended, |appended|, i);
      ComposedEverywhere(ab, bc, appended, i);
    }
  }
}
