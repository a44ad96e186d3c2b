/**
 Edit scripts as the user of `Edits` sees them: a list of spans, each either unchanged text
 or a replacement, and the meaning of such a list as an index mapping.
 */
module EditSpans {

  type int32 = x: int | -0x8000_0000 <= x <= 0x7fff_ffff

  const INT32_MAX := 0x7fff_ffff
  const INT32_MIN := -0x8000_0000

  datatype Option<+T> = None | Some(value: T)

  datatype Span = Unchanged(length: nat) | Change(oldLength: nat, newLength: nat) {
    /** Units covered in the source text. */
    function Old(): nat { if Unchanged? then length else oldLength }

    /** Units covered in the destination text. */
    function New(): nat { if Unchanged? then length else newLength }

    predicate Empty() { Old() == 0 && New() == 0 }

    /** The same span of the script read in the other direction. */
    function Swap(): Span {
      match this
      case Unchanged(n) => Unchanged(n)
      case Change(o, n) => Change(n, o)
    }
  }

  /**
   A place in a script: an index into the source text, into the destination text, and into
   the text that consists of the replacements only, and how many changes lie before it.
   */
  datatype Place = Place(src: nat, dest: nat, repl: nat, changes: nat) {
    function After(x: Span): Place {
      Place(src + x.Old(), dest + x.New(),
            repl + (if x.Change? then x.New() else 0),
            changes + if x.Change? && !x.Empty() then 1 else 0)
    }
  }

  const Origin := Place(0, 0, 0, 0)

  /** The place where span `k` starts. */
  function PlaceAt(s: seq<Span>, k: nat): Place
    requires k <= |s|
  {
    if k == 0 then Origin else PlaceAt(s, k - 1).After(s[k - 1])
  }

  function End(s: seq<Span>): Place { PlaceAt(s, |s|) }

  lemma {:induction false} PlaceFrame(s: seq<Span>, t: seq<Span>, k: nat)
    requires k <= |s| && k <= |t|
    requires forall i :: 0 <= i < k ==> s[i] == t[i]
    ensures PlaceAt(s, k) == PlaceAt(t, k)
  {
    if k > 0 { PlaceFrame(s, t, k - 1); }
  }

  lemma {:induction false} PlaceMonotone(s: seq<Span>, j: nat, k: nat)
    requires j <= k <= |s|
    ensures PlaceAt(s, j).src <= PlaceAt(s, k).src
    ensures PlaceAt(s, j).dest <= PlaceAt(s, k).dest
    ensures PlaceAt(s, j).repl <= PlaceAt(s, k).repl
  {
    if j < k { PlaceMonotone(s, j, k - 1); }
  }

  lemma EndSnoc(s: seq<Span>, x: Span)
    ensures End(s + [x]) == End(s).After(x)
  {
    PlaceFrame(s + [x], s, |s|);
  }

  // ---------------------------------------------------------------------------------------------
  // Recording: how one more call extends the list.

  /** Appends `n` unchanged units; they join a preceding unchanged span. */
  function AddUnchanged(s: seq<Span>, n: nat): seq<Span> {
    if n == 0 then s
    else if s != [] && s[|s| - 1].Unchanged? then s[|s| - 1 := Unchanged(s[|s| - 1].length + n)]
    else s + [Unchanged(n)]
  }

  /** Appends one replacement; an empty one leaves no trace. */
  function AddChange(s: seq<Span>, o: nat, n: nat): seq<Span> {
    if o == 0 && n == 0 then s else s + [Change(o, n)]
  }

  /** Appends an arbitrary span through the recording functions. */
  function Add(s: seq<Span>, x: Span): seq<Span> {
    match x
    case Unchanged(n) => AddUnchanged(s, n)
    case Change(o, n) => AddChange(s, o, n)
  }

  /** Appends the first `k` spans of `t` one by one. */
  function AddFirst(s: seq<Span>, t: seq<Span>, k: nat): seq<Span>
    requires k <= |t|
  {
    if k == 0 then s else Add(AddFirst(s, t, k - 1), t[k - 1])
  }

  function AddAll(s: seq<Span>, t: seq<Span>): seq<Span> { AddFirst(s, t, |t|) }

  lemma {:induction false} AddFirstFrame(s: seq<Span>, t: seq<Span>, u: seq<Span>, k: nat)
    requires k <= |t| && k <= |u|
    requires forall i :: 0 <= i < k ==> t[i] == u[i]
    ensures AddFirst(s, t, k) == AddFirst(s, u, k)
  {
    if k > 0 { AddFirstFrame(s, t, u, k - 1); }
  }

  lemma AddAllSnoc(s: seq<Span>, t: seq<Span>, x: Span)
    ensures AddAll(s, t + [x]) == Add(AddAll(s, t), x)
  {
    AddFirstFrame(s, t + [x], t, |t|);
  }

  /** Adding unchanged text in two portions. */
  lemma AddUnchangedTwice(s: seq<Span>, a: nat, b: nat, c: nat)
    requires c == a + b
    ensures AddUnchanged(AddUnchanged(s, a), b) == AddUnchanged(s, c)
  {}

  /** No empty span, and no two unchanged spans next to each other. */
  ghost predicate Normal(s: seq<Span>) {
    && (forall i :: 0 <= i < |s| ==> !s[i].Empty())
    && (forall i :: 0 < i < |s| ==> s[i - 1].Change? || s[i].Change?)
  }

  lemma AddNormal(s: seq<Span>, x: Span)
    requires Normal(s)
    ensures Normal(Add(s, x))
  {}

  lemma EndReplaceLast(s: seq<Span>, y: Span)
    requires s != []
    ensures End(s) == PlaceAt(s, |s| - 1).After(s[|s| - 1])
    ensures End(s[|s| - 1 := y]) == PlaceAt(s, |s| - 1).After(y)
  {
    PlaceFrame(s[|s| - 1 := y], s, |s| - 1);
  }

  lemma AddEnd(s: seq<Span>, x: Span)
    ensures End(Add(s, x)) == End(s).After(x)
  {
    if x.Empty() {
      assert Add(s, x) == s;
    } else if x.Unchanged? && s != [] && s[|s| - 1].Unchanged? {
      EndReplaceLast(s, Unchanged(s[|s| - 1].length + x.length));
    } else {
      EndSnoc(s, x);
    }
  }

  /** The replacements among the first `k` spans, empty ones left out. */
  ghost function Changes(s: seq<Span>, k: nat): seq<Span>
    requires k <= |s|
  {
    if k == 0 then [] else Changes(s, k - 1) + if s[k - 1].Change? && !s[k - 1].Empty() then [s[k - 1]] else []
  }

  lemma {:induction false} ChangesFrame(s: seq<Span>, t: seq<Span>, k: nat)
    requires k <= |s| && k <= |t| && forall i :: 0 <= i < k ==> s[i] == t[i]
    ensures Changes(s, k) == Changes(t, k)
  {
    if k > 0 { ChangesFrame(s, t, k - 1); }
  }

  lemma AddKeepsChanges(s: seq<Span>, x: Span)
    ensures Changes(Add(s, x), |Add(s, x)|) == Changes(s, |s|) + if x.Change? && !x.Empty() then [x] else []
  {
    if x.Unchanged? && x.length > 0 && s != [] && s[|s| - 1].Unchanged? {
      ChangesFrame(Add(s, x), s, |s| - 1);
    } else {
      ChangesFrame(Add(s, x), s, |s|);
    }
  }

  // ---------------------------------------------------------------------------------------------
  // The two index mappings.

  function SwapAll(s: seq<Span>): (r: seq<Span>)
    ensures |r| == |s|
    ensures forall i :: 0 <= i < |s| ==> r[i] == s[i].Swap()
  {
    seq(|s|, i requires 0 <= i < |s| => s[i].Swap())
  }

  lemma {:induction false} SwapPlace(s: seq<Span>, k: nat)
    requires k <= |s|
    ensures PlaceAt(SwapAll(s), k).src == PlaceAt(s, k).dest
    ensures PlaceAt(SwapAll(s), k).dest == PlaceAt(s, k).src
  {
    if k > 0 { SwapPlace(s, k - 1); }
  }

  /** Span `k` is the one that contains source unit `i`. */
  ghost predicate Contains(s: seq<Span>, k: nat, i: int) {
    k < |s| && PlaceAt(s, k).src <= i < PlaceAt(s, k).src + s[k].Old()
  }

  /** Where source index `i` lands if span `x`, starting at `p`, contains it. */
  function MapWithin(x: Span, p: Place, i: int): int {
    if i == p.src then p.dest
    else if x.Change? then p.dest + x.New()
    else p.dest + (i - p.src)
  }

  /** `Dest` over the first `k` spans. */
  function DestFirst(s: seq<Span>, k: nat, i: int): int
    requires k <= |s|
  {
    if i < 0 || k == 0 then 0
    else if i < PlaceAt(s, k - 1).src then DestFirst(s, k - 1, i)
    else if i < PlaceAt(s, k).src then MapWithin(s[k - 1], PlaceAt(s, k - 1), i)
    else PlaceAt(s, k).dest
  }

  /**
   The destination index of source index `i`: the start of a span maps to its start, the
   inside of a replacement to its end, the inside of unchanged text one to one, and everything
   from the end of the source on to the end of the destination.
   */
  function Dest(s: seq<Span>, i: int): int { DestFirst(s, |s|, i) }

  /** The source index of destination index `j`. */
  function Source(s: seq<Span>, j: int): int { Dest(SwapAll(s), j) }

  lemma {:induction false} DestFirstOfContaining(s: seq<Span>, k: nat, i: int, m: nat)
    requires Contains(s, k, i) && k < m <= |s|
    ensures DestFirst(s, m, i) == MapWithin(s[k], PlaceAt(s, k), i)
  {
    if k + 1 < m {
      PlaceMonotone(s, k + 1, m - 1);
      DestFirstOfContaining(s, k, i, m - 1);
    }
  }

  lemma DestOfContaining(s: seq<Span>, k: nat, i: int)
    requires Contains(s, k, i)
    ensures Dest(s, i) == MapWithin(s[k], PlaceAt(s, k), i)
  {
    DestFirstOfContaining(s, k, i, |s|);
  }

  lemma DestPastEnd(s: seq<Span>, i: int)
    requires i >= End(s).src
    ensures Dest(s, i) == End(s).dest
  {
    if s != [] { PlaceMonotone(s, |s| - 1, |s|); }
  }

  lemma {:induction false} DestBounds(s: seq<Span>, k: nat, i: int)
    requires k <= |s|
    ensures 0 <= DestFirst(s, k, i) <= PlaceAt(s, k).dest
  {
    if i >= 0 && k > 0 && i < PlaceAt(s, k - 1).src { DestBounds(s, k - 1, i); }
  }

  lemma {:induction false} DestFirstMonotone(s: seq<Span>, k: nat, i: int, j: int)
    requires k <= |s| && i <= j
    ensures DestFirst(s, k, i) <= DestFirst(s, k, j)
  {
    DestBounds(s, k, j);
    if i >= 0 && k > 0 && i < PlaceAt(s, k - 1).src {
      DestFirstMonotone(s, k - 1, i, j);
      DestBounds(s, k - 1, i);
    }
  }

  /** Both index mappings are monotone. */
  lemma MappingsMonotone(s: seq<Span>, i: int, j: int)
    requires i <= j
    ensures Dest(s, i) <= Dest(s, j)
    ensures Source(s, i) <= Source(s, j)
  {
    DestFirstMonotone(s, |s|, i, j);
    DestFirstMonotone(SwapAll(s), |s|, i, j);
  }

  /** The start of a span maps to its start, the inside of a replacement to its end, that of unchanged text one to one. */
  lemma DestMeaning(s: seq<Span>, k: nat, i: int)
    requires k < |s|
    ensures i == PlaceAt(s, k).src < PlaceAt(s, k + 1).src ==> Dest(s, i) == PlaceAt(s, k).dest
    ensures s[k].Change? && PlaceAt(s, k).src < i < PlaceAt(s, k + 1).src ==> Dest(s, i) == PlaceAt(s, k + 1).dest
    ensures s[k].Unchanged? && PlaceAt(s, k).src <= i < PlaceAt(s, k + 1).src ==>
      Dest(s, i) - PlaceAt(s, k).dest == i - PlaceAt(s, k).src
  {
    if PlaceAt(s, k).src <= i < PlaceAt(s, k + 1).src { DestOfContaining(s, k, i); }
  }

  /** The same for the other direction. */
  lemma SourceMeaning(s: seq<Span>, k: nat, j: int)
    requires k < |s|
    ensures j == PlaceAt(s, k).dest < PlaceAt(s, k + 1).dest ==> Source(s, j) == PlaceAt(s, k).src
    ensures s[k].Change? && PlaceAt(s, k).dest < j < PlaceAt(s, k + 1).dest ==> Source(s, j) == PlaceAt(s, k + 1).src
    ensures s[k].Unchanged? && PlaceAt(s, k).dest <= j < PlaceAt(s, k + 1).dest ==>
      Source(s, j) - PlaceAt(s, k).src == j - PlaceAt(s, k).dest
  {
    SwapPlace(s, k);
    SwapPlace(s, k + 1);
    DestMeaning(SwapAll(s), k, j);
  }

  /** Before the text is 0, and from its end on is the end of the other text. */
  lemma MappingsOutside(s: seq<Span>, i: int)
    ensures i < 0 ==> Dest(s, i) == 0 == Source(s, i)
    ensures i >= End(s).src ==> Dest(s, i) == End(s).dest
    ensures i >= End(s).dest ==> Source(s, i) == End(s).src
  {
    SwapPlace(s, |s|);
    if i >= End(s).src { DestPastEnd(s, i); }
    if i >= End(s).dest { DestPastEnd(SwapAll(s), i); }
  }

  // ---------------------------------------------------------------------------------------------
  // The new text.

  function Take<T>(t: seq<T>, n: nat): seq<T> { if n <= |t| then t[..n] else t }

  function Drop<T>(t: seq<T>, n: nat): seq<T> { if n <= |t| then t[n..] else [] }

  /**
   What spans `k` and after make of the old text that is left: unchanged text is kept, and for old text that is
   replaced, the next of the replacement text is taken.
   */
  ghost function NewText<T>(s: seq<Span>, k: nat, text: seq<T>, replacement: seq<T>): seq<T>
    decreases |s| - k
  {
    if k >= |s| then []
    else
      match s[k]
      case Unchanged(n) => Take(text, n) + NewText(s, k + 1, Drop(text, n), replacement)
      case Change(o, n) => Take(replacement, n) + NewText(s, k + 1, Drop(text, o), Drop(replacement, n))
  }

  /** At each span, the place says where in the old text and in the replacement text the new text goes on. */
  lemma NewTextStep<T>(s: seq<Span>, k: nat, text: seq<T>, replacement: seq<T>)
    requires k < |s| && End(s).src <= |text| && End(s).repl <= |replacement|
    ensures PlaceAt(s, k).src + s[k].Old() <= |text|
    ensures s[k].Change? ==> PlaceAt(s, k).repl + s[k].New() <= |replacement|
    ensures PlaceAt(s, k).repl <= PlaceAt(s, k + 1).repl <= |replacement|
    ensures
      var p, q := PlaceAt(s, k), PlaceAt(s, k + 1);
      NewText(s, k, text[p.src..], replacement[p.repl..]) ==
        (if s[k].Change? then replacement[p.repl..p.repl + s[k].New()] else text[p.src..p.src + s[k].Old()])
        + NewText(s, k + 1, text[q.src..], replacement[q.repl..])
  {
    PlaceMonotone(s, k + 1, |s|);
    PlaceMonotone(s, k, k + 1);
    var p, q := PlaceAt(s, k), PlaceAt(s, k + 1);
    assert Drop(text[p.src..], s[k].Old()) == text[q.src..];
    assert Take(text[p.src..], s[k].Old()) == text[p.src..q.src];
    if s[k].Change? {
      assert Drop(replacement[p.repl..], s[k].New()) == replacement[q.repl..];
      assert Take(replacement[p.repl..], s[k].New()) == replacement[p.repl..q.repl];
    }
  }

  // ---------------------------------------------------------------------------------------------
  // Which units survive.

  /** `UnchangedAt` over the first `k` spans. */
  function UnchangedFirst(s: seq<Span>, k: nat, i: int): Option<int>
    requires k <= |s|
  {
    if i < 0 || k == 0 then None
    else if i < PlaceAt(s, k - 1).src then UnchangedFirst(s, k - 1, i)
    else if i < PlaceAt(s, k).src && s[k - 1].Unchanged? then
      Some(PlaceAt(s, k - 1).dest + (i - PlaceAt(s, k - 1).src))
    else None
  }

  /**
   The destination unit at which source unit `i` survives, or `None` if it is replaced or
   there is no such unit. This, together with the two lengths, is what an edit script means.
   */
  function UnchangedAt(s: seq<Span>, i: int): Option<int> { UnchangedFirst(s, |s|, i) }

  /** Units of an unchanged span are kept, one to one; those of a replacement are not, and there are no others. */
  lemma UnchangedMeaning(s: seq<Span>, k: nat, i: int)
    requires k < |s|
    ensures s[k].Unchanged? && PlaceAt(s, k).src <= i < PlaceAt(s, k + 1).src ==>
      UnchangedAt(s, i) == Some(PlaceAt(s, k).dest + (i - PlaceAt(s, k).src))
    ensures s[k].Change? && PlaceAt(s, k).src <= i < PlaceAt(s, k + 1).src ==> UnchangedAt(s, i) == None
    ensures i < 0 || i >= End(s).src ==> UnchangedAt(s, i) == None
  {
    if PlaceAt(s, k).src <= i < PlaceAt(s, k + 1).src { UnchangedUpTo(s, k, i, |s|); }
    if i >= End(s).src { UnchangedAtPastEnd(s, i); }
  }

  lemma {:induction false} UnchangedUpTo(s: seq<Span>, k: nat, i: int, m: nat)
    requires k < m <= |s| && PlaceAt(s, k).src <= i < PlaceAt(s, k + 1).src
    ensures UnchangedFirst(s, m, i) ==
      if s[k].Unchanged? then Some(PlaceAt(s, k).dest + (i - PlaceAt(s, k).src)) else None
  {
    if k + 1 < m {
      PlaceMonotone(s, k + 1, m - 1);
      UnchangedUpTo(s, k, i, m - 1);
    }
  }

  lemma {:induction false} UnchangedFrame(s: seq<Span>, t: seq<Span>, k: nat, i: int)
    requires k <= |s| && k <= |t|
    requires forall j :: 0 <= j < k ==> s[j] == t[j]
    ensures UnchangedFirst(s, k, i) == UnchangedFirst(t, k, i)
  {
    PlaceFrame(s, t, k);
    if k > 0 {
      PlaceFrame(s, t, k - 1);
      UnchangedFrame(s, t, k - 1, i);
    }
  }

  /** What appending span `x` does to the units that survive. */
  function UnchangedSnoc(before: Option<int>, src: nat, dest: nat, x: Span, i: int): Option<int> {
    if i < src then before
    else if x.Unchanged? && i < src + x.length then Some(dest + (i - src))
    else None
  }

  lemma UnchangedAtSnoc(s: seq<Span>, x: Span, i: int)
    ensures UnchangedAt(s + [x], i) == UnchangedSnoc(UnchangedAt(s, i), End(s).src, End(s).dest, x, i)
  {
    PlaceFrame(s + [x], s, |s|);
    UnchangedFrame(s + [x], s, |s|, i);
  }

  lemma UnchangedAtPastEnd(s: seq<Span>, i: int)
    requires i >= End(s).src
    ensures UnchangedAt(s, i) == None
  {
    if s != [] { PlaceMonotone(s, |s| - 1, |s|); }
  }

  /** Joining a span with the last one, both of the same kind, keeps the same units. */
  lemma UnchangedAtJoin(s: seq<Span>, x: Span, y: Span, i: int)
    requires s != [] && s[|s| - 1].Change? == x.Change? == y.Change?
    requires y.Old() == s[|s| - 1].Old() + x.Old()
    ensures UnchangedAt(s[|s| - 1 := y], i) == UnchangedSnoc(UnchangedAt(s, i), End(s).src, End(s).dest, x, i)
  {
    var t := s[|s| - 1 := y];
    EndReplaceLast(s, y);
    UnchangedFrame(t, s, |s| - 1, i);
    PlaceFrame(t, s, |s| - 1);
  }

  lemma UnchangedAtAdd(s: seq<Span>, x: Span, i: int)
    ensures UnchangedAt(Add(s, x), i) == UnchangedSnoc(UnchangedAt(s, i), End(s).src, End(s).dest, x, i)
  {
    if Add(s, x) == s {
      if i >= End(s).src { UnchangedAtPastEnd(s, i); }
    } else if x.Unchanged? && s != [] && s[|s| - 1].Unchanged? {
      UnchangedAtJoin(s, x, Unchanged(s[|s| - 1].length + x.length), i);
    } else {
      UnchangedAtSnoc(s, x, i);
    }
  }

  /** A script recorded after `s` shifts to where `s` ends. */
  function UnchangedShifted(before: Option<int>, src: nat, dest: nat, after: Option<int>, i: int): Option<int> {
    if i < src then before
    else match after
      case None => None
      case Some(j) => Some(dest + j)
  }

  lemma ShiftedSnoc(before: Option<int>, src: nat, dest: nat, mid: Option<int>, q: Place, x: Span, i: int)
    ensures UnchangedSnoc(UnchangedShifted(before, src, dest, mid, i), src + q.src, dest + q.dest, x, i) ==
            UnchangedShifted(before, src, dest, UnchangedSnoc(mid, q.src, q.dest, x, i - src), i)
  {}

  lemma UnchangedFirstStep(s: seq<Span>, k: nat, i: int)
    requires 0 < k <= |s| && i >= 0
    ensures UnchangedFirst(s, k, i) ==
            UnchangedSnoc(UnchangedFirst(s, k - 1, i), PlaceAt(s, k - 1).src, PlaceAt(s, k - 1).dest, s[k - 1], i)
  {}

  /**
   Recording the spans of `t` after `s`, joined or not, covers the lengths of both and keeps
   exactly the units that `s` and `t` keep.
   */
  lemma {:induction false} AddFirstMeaning(s: seq<Span>, t: seq<Span>, k: nat, i: int)
    requires k <= |t|
    ensures End(AddFirst(s, t, k)).src == End(s).src + PlaceAt(t, k).src
    ensures End(AddFirst(s, t, k)).dest == End(s).dest + PlaceAt(t, k).dest
    ensures UnchangedAt(AddFirst(s, t, k), i) ==
            UnchangedShifted(UnchangedAt(s, i), End(s).src, End(s).dest, UnchangedFirst(t, k, i - End(s).src), i)
  {
    if k == 0 {
      if i >= End(s).src { UnchangedAtPastEnd(s, i); }
    } else {
      AddFirstMeaning(s, t, k - 1, i);
      AddFirstStep(s, t, k, i);
    }
  }

  lemma AddFirstStep(s: seq<Span>, t: seq<Span>, k: nat, i: int)
    requires 0 < k <= |t|
    requires End(AddFirst(s, t, k - 1)).src == End(s).src + PlaceAt(t, k - 1).src
    requires End(AddFirst(s, t, k - 1)).dest == End(s).dest + PlaceAt(t, k - 1).dest
    requires UnchangedAt(AddFirst(s, t, k - 1), i) ==
             UnchangedShifted(UnchangedAt(s, i), End(s).src, End(s).dest, UnchangedFirst(t, k - 1, i - End(s).src), i)
    ensures End(AddFirst(s, t, k)).src == End(s).src + PlaceAt(t, k).src
    ensures End(AddFirst(s, t, k)).dest == End(s).dest + PlaceAt(t, k).dest
    ensures UnchangedAt(AddFirst(s, t, k), i) ==
            UnchangedShifted(UnchangedAt(s, i), End(s).src, End(s).dest, UnchangedFirst(t, k, i - End(s).src), i)
  {
    hide Add, UnchangedAt, End, UnchangedFirst, UnchangedSnoc;
    var u, j := AddFirst(s, t, k - 1), i - End(s).src;
    AddEnd(u, t[k - 1]);
    UnchangedAtAdd(u, t[k - 1], i);
    if j >= 0 {
      UnchangedFirstStep(t, k, j);
      ShiftedSnoc(UnchangedAt(s, i), End(s).src, End(s).dest, UnchangedFirst(t, k - 1, j), PlaceAt(t, k - 1),
                  t[k - 1], i);
    } else {
      BeforeKept(UnchangedAt(u, i), End(u).src, End(u).dest, t[k - 1], i);
    }
  }

  lemma BeforeKept(before: Option<int>, src: nat, dest: nat, x: Span, i: int)
    requires i < src
    ensures UnchangedSnoc(before, src, dest, x, i) == before
  {}

  lemma {:induction false} UnchangedInside(s: seq<Span>, k: nat, i: int)
    requires k <= |s| && UnchangedFirst(s, k, i).Some?
    ensures 0 <= i < PlaceAt(s, k).src
    ensures 0 <= UnchangedFirst(s, k, i).value < PlaceAt(s, k).dest
    ensures DestFirst(s, k, i) == UnchangedFirst(s, k, i).value
    ensures DestFirst(SwapAll(s), k, UnchangedFirst(s, k, i).value) == i
  {
    SwapPlace(s, k);
    SwapPlace(s, k - 1);
    PlaceMonotone(s, k - 1, k);
    if i < PlaceAt(s, k - 1).src { UnchangedInside(s, k - 1, i); }
  }

  /** Mapping there and back again is exact on the units that survive. */
  lemma UnchangedRoundTrip(s: seq<Span>, i: int)
    requires UnchangedAt(s, i).Some?
    ensures Dest(s, i) == UnchangedAt(s, i).value
    ensures Source(s, Dest(s, i)) == i
  {
    UnchangedInside(s, |s|, i);
  }

  // ---------------------------------------------------------------------------------------------
  // Coarse spans.

  /** The span that two adjacent spans of the same kind make up. */
  function Join(x: Span, y: Span): Span
    requires x.Change? == y.Change?
  {
    if x.Change? then Change(x.Old() + y.Old(), x.New() + y.New()) else Unchanged(x.length + y.length)
  }

  /** Appends a span and joins it with a preceding span of the same kind. */
  function AddCoarse(s: seq<Span>, x: Span): seq<Span> {
    if s != [] && s[|s| - 1].Change? == x.Change? then s[|s| - 1 := Join(s[|s| - 1], x)]
    else s + [x]
  }

  function CoarsenFirst(s: seq<Span>, k: nat): seq<Span>
    requires k <= |s|
  {
    if k == 0 then [] else AddCoarse(CoarsenFirst(s, k - 1), s[k - 1])
  }

  /** The maximal merges of adjacent spans of the same kind. */
  function Coarsen(s: seq<Span>): seq<Span> { CoarsenFirst(s, |s|) }

  lemma {:induction false} CoarsenFrame(s: seq<Span>, t: seq<Span>, k: nat)
    requires k <= |s| && k <= |t|
    requires forall i :: 0 <= i < k ==> s[i] == t[i]
    ensures CoarsenFirst(s, k) == CoarsenFirst(t, k)
  {
    if k > 0 { CoarsenFrame(s, t, k - 1); }
  }

  lemma CoarsenSnoc(s: seq<Span>, x: Span)
    ensures Coarsen(s + [x]) == AddCoarse(Coarsen(s), x)
  {
    CoarsenFrame(s + [x], s, |s|);
  }

  lemma AddCoarseMeaning(s: seq<Span>, x: Span, i: int)
    ensures End(AddCoarse(s, x)).src == End(s).src + x.Old()
    ensures End(AddCoarse(s, x)).dest == End(s).dest + x.New()
    ensures UnchangedAt(AddCoarse(s, x), i) == UnchangedSnoc(UnchangedAt(s, i), End(s).src, End(s).dest, x, i)
  {
    if s != [] && s[|s| - 1].Change? == x.Change? {
      var y := Join(s[|s| - 1], x);
      EndReplaceLast(s, y);
      UnchangedAtJoin(s, x, y, i);
    } else {
      EndSnoc(s, x);
      UnchangedAtSnoc(s, x, i);
    }
  }

  ghost predicate Alternating(s: seq<Span>) {
    forall k :: 0 < k < |s| ==> s[k - 1].Change? != s[k].Change?
  }

  lemma AddCoarseAlternates(s: seq<Span>, x: Span)
    requires Alternating(s)
    ensures Alternating(AddCoarse(s, x))
  {}

  /**
   Coarse spans alternate between unchanged text and replacements, cover the same text, and
   keep the same units unchanged: they are the maximal merges, and nothing else.
   */
  lemma {:induction false} CoarsenMeaning(s: seq<Span>, k: nat, i: int)
    requires k <= |s|
    ensures End(CoarsenFirst(s, k)).src == PlaceAt(s, k).src
    ensures End(CoarsenFirst(s, k)).dest == PlaceAt(s, k).dest
    ensures Alternating(CoarsenFirst(s, k))
    ensures UnchangedAt(CoarsenFirst(s, k), i) == UnchangedFirst(s, k, i)
  {
    if k > 0 {
      CoarsenMeaning(s, k - 1, i);
      AddCoarseMeaning(CoarsenFirst(s, k - 1), s[k - 1], i);
      AddCoarseAlternates(CoarsenFirst(s, k - 1), s[k - 1]);
      if i >= 0 { UnchangedFirstStep(s, k, i); }
    }
  }
}
