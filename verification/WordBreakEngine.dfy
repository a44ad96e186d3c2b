/**
 The division of Thai, Lao, Burmese and Khmer text into words: a word is taken if up to two more
 dictionary words follow it, text without words is passed over to a plausible boundary.
 */
module WordBreakEngine {
  import opened DictionaryBreaks

  const LOOKAHEAD := 3
  const ROOT_COMBINE_THRESHOLD := 3
  const PREFIX_COMBINE_THRESHOLD := 3
  const MIN_WORD_SPAN := 4
  const POSSIBLE_WORD_LIST_MAX := 20
  const THAI_PAIYANNOI := 0x0e2f
  const THAI_MAIYAMOK := 0x0e46
  const U_SENTINEL := -1

  /** The words that start at a position, shortest first: their lengths in code units and in code points. */
  datatype Matches = Matches(cuLengths: seq<nat>, cpLengths: seq<nat>, prefix: nat)

  /** What the dictionary finds at each position of a text before `rangeEnd`. */
  datatype Dictionary = Dictionary(found: seq<Matches>, rangeEnd: nat) {
    function MatchesAt(pos: nat): Matches {
      if pos < |found| then found[pos] else Matches([], [], 0)
    }

    ghost predicate Valid() {
      forall pos: nat :: pos < rangeEnd ==> ValidAt(pos)
    }

    ghost predicate ValidAt(pos: nat) {
      var m := MatchesAt(pos);
      && |m.cuLengths| == |m.cpLengths| <= POSSIBLE_WORD_LIST_MAX
      && (forall k :: 0 <= k < |m.cuLengths| ==> 0 < m.cuLengths[k] && pos + m.cuLengths[k] <= rangeEnd)
      && (forall j, k :: 0 <= j < k < |m.cuLengths| ==> m.cuLengths[j] < m.cuLengths[k])
    }

    ghost predicate HasWord(pos: nat) { MatchesAt(pos).cuLengths != [] }

    /** Where word `k` at a position ends. */
    ghost function End(pos: nat, k: nat): nat
      requires k < |MatchesAt(pos).cuLengths|
    {
      pos + MatchesAt(pos).cuLengths[k]
    }

    ghost function LongestEnd(pos: nat): nat
      requires HasWord(pos)
    {
      End(pos, |MatchesAt(pos).cuLengths| - 1)
    }

    /** Word `i` is followed by another word. */
    ghost predicate Followed(pos: nat, i: nat) {
      i < |MatchesAt(pos).cuLengths| && End(pos, i) < rangeEnd && HasWord(End(pos, i))
    }

    /** Word `i` is followed by two more words, or by one whose longest form ends the range. */
    ghost predicate WellFollowed(pos: nat, i: nat) {
      && Followed(pos, i)
      && var next := End(pos, i);
         LongestEnd(next) >= rangeEnd || exists j :: Followed(next, j)
    }

    /**
     The word that is taken: the longest one if it ends the range; else the longest one that is well followed;
     else the shortest one that is followed; else the longest one.
     */
    ghost predicate Choice(pos: nat, m: nat) {
      var n := |MatchesAt(pos).cuLengths|;
      && m < n
      && if LongestEnd(pos) >= rangeEnd then m == n - 1
         else if exists i :: WellFollowed(pos, i) then WellFollowed(pos, m) && forall i :: m < i < n ==> !WellFollowed(pos, i)
         else if exists i :: Followed(pos, i) then Followed(pos, m) && forall i :: 0 <= i < m ==> !Followed(pos, i)
         else m == n - 1
    }
  }

  /** The sets of characters of a script, and whether it is Thai, which has suffixes that belong to the word before them. */
  datatype Rules = Rules(markSet: set<int>, endWordSet: set<int>, beginWordSet: set<int>, thai: bool)

  /** A text and a position in it. */
  class UText {
    const chars: seq<int>
    var index: nat

    constructor (chars: seq<int>)
      ensures this.chars == chars && index == 0
    {
      this.chars := chars;
      index := 0;
    }

    function Current32(): int
      reads this
    {
      if index < |chars| then chars[index] else U_SENTINEL
    }

    method Next32() returns (c: int)
      modifies this
      ensures index == if old(index) < |chars| then old(index) + 1 else old(index)
      ensures c == old(Current32())
    {
      c := Current32();
      if index < |chars| {
        index := index + 1;
      }
    }

    method Previous32() returns (c: int)
      modifies this
      ensures index == if old(index) > 0 then old(index) - 1 else 0
      ensures c == if old(index) > 0 then Current32() else U_SENTINEL
    {
      if index > 0 {
        index := index - 1;
        return Current32();
      }
      return U_SENTINEL;
    }

    method SetNativeIndex(i: nat)
      modifies this
      ensures index == i
    {
      index := i;
    }
  }

  /** The candidates for a word at one position, kept for when the position is looked at again. */
  class PossibleWord {
    var count: int
    var prefix: nat
    var offset: int
    var mark: int
    var current: int
    var cuLengths: seq<nat>
    var cpLengths: seq<nat>

    constructor ()
      ensures offset == -1
    {
      count, prefix, offset, mark, current := 0, 0, -1, 0, 0;
      cuLengths, cpLengths := [], [];
    }

    /** What is kept is what the dictionary finds. */
    ghost predicate Cached(d: Dictionary)
      reads this
    {
      offset >= 0 ==>
        && count == |d.MatchesAt(offset).cuLengths| && prefix == d.MatchesAt(offset).prefix
        && cuLengths == d.MatchesAt(offset).cuLengths && cpLengths == d.MatchesAt(offset).cpLengths
    }

    /** The candidates at a position, one of them current and one of them marked. */
    ghost predicate At(d: Dictionary, pos: nat, current: int, mark: int)
      reads this
    {
      Cached(d) && offset == pos && this.current == current && this.mark == mark
    }

    /** The candidates at the position of the text, the longest of them current and marked; the text is moved after it. */
    method Candidates(text: UText, d: Dictionary) returns (n: int)
      requires Cached(d) && d.Valid() && text.index < d.rangeEnd
      modifies this, text
      ensures At(d, old(text.index), n - 1, n - 1) && n == |d.MatchesAt(old(text.index)).cuLengths|
      ensures text.index == if n > 0 then d.LongestEnd(old(text.index)) else old(text.index)
    {
      var start := text.index;
      assert d.ValidAt(start);
      if start != offset {
        offset := start;
        var m := d.MatchesAt(start);
        count, cuLengths, cpLengths, prefix := |m.cuLengths|, m.cuLengths, m.cpLengths, m.prefix;
        // The dictionary leaves the text after the longest prefix.
        text.index := start + m.prefix;
        if count <= 0 {
          text.SetNativeIndex(start);
        }
      }
      if count > 0 {
        text.SetNativeIndex(start + cuLengths[count - 1]);
      }
      current := count - 1;
      mark := current;
      n := count;
    }

    method AcceptMarked(text: UText, ghost d: Dictionary) returns (length: nat)
      requires Cached(d) && offset >= 0 && 0 <= mark < count
      modifies text
      ensures length == cuLengths[mark] && text.index == offset + length
    {
      text.SetNativeIndex(offset + cuLengths[mark]);
      length := cuLengths[mark];
    }

    method BackUp(text: UText, ghost d: Dictionary) returns (more: bool)
      requires Cached(d) && offset >= 0 && current < count
      modifies `current, text
      ensures more <==> old(current) > 0
      ensures more ==> current == old(current) - 1 && text.index == offset + cuLengths[current]
      ensures !more ==> current == old(current) && text.index == old(text.index)
    {
      if current > 0 {
        current := current - 1;
        text.SetNativeIndex(offset + cuLengths[current]);
        return true;
      }
      return false;
    }

    method MarkCurrent()
      modifies `mark
      ensures mark == current
    {
      mark := current;
    }
  }

  // ---------------------------------------------------------------------------------------------
  // Looking ahead.

  /** Whether another word follows one of the words at `pos`. */
  method FollowedByThird(text: UText, second: PossibleWord, third: PossibleWord, d: Dictionary, ghost pos: nat) returns (found: bool)
    requires d.Valid() && second != third && third.Cached(d) && pos < d.rangeEnd && d.HasWord(pos)
    requires second.At(d, pos, second.current, second.mark) && second.current == second.count - 1
    requires text.index == d.LongestEnd(pos) < d.rangeEnd
    modifies text, second`current, third
    ensures found <==> exists j :: d.Followed(pos, j)
    ensures second.Cached(d) && third.Cached(d)
  {
    while true
      invariant second.Cached(d) && third.Cached(d) && second.offset == pos && 0 <= second.current < second.count
      invariant text.index == d.End(pos, second.current) < d.rangeEnd
      invariant forall j :: second.current < j < second.count ==> !d.Followed(pos, j)
      decreases second.current
    {
      ghost var i := second.current;
      var n := third.Candidates(text, d);
      if n > 0 {
        assert d.Followed(pos, i);
        return true;
      }
      var more := second.BackUp(text, d);
      if !more {
        return false;
      }
      assert d.ValidAt(pos);
    }
  }

  /** The mark while words shorter than `i` have not been looked at: on the shortest followed one, or else on the longest. */
  ghost predicate Marks(d: Dictionary, pos: nat, i: nat, mark: int) {
    var n := |d.MatchesAt(pos).cuLengths|;
    && 0 <= mark < n
    && if exists k :: i <= k && d.Followed(pos, k)
       then i <= mark && d.Followed(pos, mark) && forall k :: i <= k < mark ==> !d.Followed(pos, k)
       else mark == n - 1
  }

  lemma MarksFollowed(d: Dictionary, pos: nat, i: nat)
    requires d.Followed(pos, i)
    ensures Marks(d, pos, i, i)
  {
  }

  lemma MarksNext(d: Dictionary, pos: nat, i: nat, mark: int)
    requires Marks(d, pos, i + 1, mark) && !d.Followed(pos, i)
    ensures Marks(d, pos, i, mark)
  {
    if k :| i <= k && d.Followed(pos, k) {
      assert i + 1 <= k;
    }
  }

  lemma ChoiceWell(d: Dictionary, pos: nat, i: nat)
    requires d.WellFollowed(pos, i) && forall k :: i < k < |d.MatchesAt(pos).cuLengths| ==> !d.WellFollowed(pos, k)
    requires d.LongestEnd(pos) < d.rangeEnd
    ensures d.Choice(pos, i)
  {
  }

  lemma ChoiceMarked(d: Dictionary, pos: nat, mark: nat)
    requires Marks(d, pos, 0, mark) && d.HasWord(pos) && d.LongestEnd(pos) < d.rangeEnd
    requires forall k :: 0 <= k < |d.MatchesAt(pos).cuLengths| ==> !d.WellFollowed(pos, k)
    ensures d.Choice(pos, mark)
  {
  }

  /** Whether two more words follow word `i`, or one that ends the range. */
  method IsWellFollowed(text: UText, second: PossibleWord, third: PossibleWord, d: Dictionary, ghost pos: nat, ghost i: nat)
    returns (well: bool)
    requires d.Valid() && second != third && third.Cached(d) && d.Followed(pos, i)
    requires second.At(d, d.End(pos, i), second.count - 1, second.count - 1) && text.index == d.LongestEnd(d.End(pos, i))
    modifies text, second`current, third
    ensures well <==> d.WellFollowed(pos, i)
    ensures second.Cached(d) && third.Cached(d)
  {
    hide Dictionary.WellFollowed, Dictionary.Valid;
    if text.index >= d.rangeEnd {
      WellByEnd(d, pos, i);
      return true;
    }
    well := FollowedByThird(text, second, third, d, d.End(pos, i));
    WellByThird(d, pos, i);
  }

  /** Of several words at a position, one is marked by looking at what follows each. */
  method MarkBest(text: UText, first: PossibleWord, second: PossibleWord, third: PossibleWord, d: Dictionary, ghost pos: nat)
    requires d.Valid() && first != second && first != third && second != third && pos < d.rangeEnd && d.HasWord(pos)
    requires second.Cached(d) && third.Cached(d) && first.At(d, pos, first.count - 1, first.count - 1)
    requires text.index == d.LongestEnd(pos)
    modifies text, first`current, first`mark, second, third
    ensures first.Cached(d) && second.Cached(d) && third.Cached(d)
    ensures first.offset == pos && 0 <= first.mark < first.count && d.Choice(pos, first.mark)
  {
    if text.index >= d.rangeEnd {
      return;
    }
    hide Dictionary.Choice, Dictionary.WellFollowed, Marks, Dictionary.Valid;
    MarksNone(d, pos);
    while true
      invariant first.Cached(d) && second.Cached(d) && third.Cached(d)
      invariant first.offset == pos && 0 <= first.current < first.count && first.count == |d.MatchesAt(pos).cuLengths|
      invariant text.index == d.End(pos, first.current) < d.rangeEnd
      invariant Marks(d, pos, first.current + 1, first.mark)
      invariant forall k :: first.current < k < first.count ==> !d.WellFollowed(pos, k)
      decreases first.current
    {
      ghost var i, next := first.current, text.index;
      var n := second.Candidates(text, d);
      if n > 0 {
        // A word follows: the first word is a good candidate.
        first.MarkCurrent();
        MarksFollowed(d, pos, i);
        var well := IsWellFollowed(text, second, third, d, pos, i);
        if well {
          first.MarkCurrent();
          ChoiceWell(d, pos, i);
          return;
        }
      } else {
        MarksNext(d, pos, i, first.mark);
        NotWell(d, pos, i);
      }
      var more := first.BackUp(text, d);
      if !more {
        ChoiceMarked(d, pos, first.mark);
        return;
      }
      Shorter(d, pos, i);
    }
  }

  lemma MarksNone(d: Dictionary, pos: nat)
    requires d.HasWord(pos)
    ensures Marks(d, pos, |d.MatchesAt(pos).cuLengths|, |d.MatchesAt(pos).cuLengths| - 1)
  {
  }

  lemma Shorter(d: Dictionary, pos: nat, i: nat)
    requires d.Valid() && pos < d.rangeEnd && 0 < i < |d.MatchesAt(pos).cuLengths|
    ensures d.End(pos, i - 1) < d.End(pos, i)
  {
    assert d.ValidAt(pos);
  }

  lemma WellByEnd(d: Dictionary, pos: nat, i: nat)
    requires d.Followed(pos, i) && d.LongestEnd(d.End(pos, i)) >= d.rangeEnd
    ensures d.WellFollowed(pos, i)
  {
  }

  lemma WellByThird(d: Dictionary, pos: nat, i: nat)
    requires d.Followed(pos, i) && d.LongestEnd(d.End(pos, i)) < d.rangeEnd
    ensures d.WellFollowed(pos, i) <==> exists j :: d.Followed(d.End(pos, i), j)
  {
  }

  lemma NotWell(d: Dictionary, pos: nat, i: nat)
    requires !d.Followed(pos, i)
    ensures !d.WellFollowed(pos, i)
  {
  }

  // ---------------------------------------------------------------------------------------------
  // Where a word ends. This depends on the text and the dictionary alone.

  /** The word that is taken at `pos` ends at `e`, and has `cp` code points; there may be none. */
  ghost predicate Picked(d: Dictionary, pos: nat, e: nat, cp: nat) {
    if d.HasWord(pos) then
      |d.MatchesAt(pos).cpLengths| == |d.MatchesAt(pos).cuLengths|
      && exists m: nat :: d.Choice(pos, m) && e == d.End(pos, m) && cp == d.MatchesAt(pos).cpLengths[m]
    else e == pos && cp == 0
  }

  /** A word can start at `p`, by the characters around it and by the dictionary. */
  ghost predicate Plausible(d: Dictionary, r: Rules, chars: seq<int>, p: nat) {
    0 < p < |chars| && chars[p - 1] in r.endWordSet && chars[p] in r.beginWordSet && d.HasWord(p)
  }

  /** Text that is no word is joined to a short word before it, up to the first plausible boundary. */
  ghost predicate Joined(d: Dictionary, r: Rules, chars: seq<int>, pos: nat, e: nat, cp: nat, f: nat) {
    if e < d.rangeEnd && cp < ROOT_COMBINE_THRESHOLD && !d.HasWord(e)
       && (e == pos || d.MatchesAt(e).prefix < PREFIX_COMBINE_THRESHOLD)
    then Resynchronized(d, r, chars, e, f)
    else f == e
  }

  ghost predicate Resynchronized(d: Dictionary, r: Rules, chars: seq<int>, e: nat, f: nat) {
    && e < f <= d.rangeEnd && (f == d.rangeEnd || Plausible(d, r, chars, f))
    && forall p :: e < p < f ==> !Plausible(d, r, chars, p)
  }

  ghost predicate MarksOnly(d: Dictionary, r: Rules, chars: seq<int>, f: nat, g: nat) {
    forall k :: f <= k < g ==> k < d.rangeEnd && k < |chars| && chars[k] in r.markSet
  }

  /** Combining marks are joined to what is before them. */
  ghost predicate PastMarks(d: Dictionary, r: Rules, chars: seq<int>, f: nat, g: nat) {
    && f <= g && MarksOnly(d, r, chars, f, g)
    && (g < d.rangeEnd && g < |chars| ==> chars[g] !in r.markSet)
  }

  predicate IsSuffix(c: int) { c == THAI_PAIYANNOI || c == THAI_MAIYAMOK }

  /** Suffixes are joined to what is before them, unless that is a suffix already. */
  ghost function PastSuffixes(d: Dictionary, r: Rules, chars: seq<int>, g: nat): (h: nat)
    ensures g <= h <= g + 2 && (h > g ==> h <= |chars| && IsSuffix(chars[h - 1]))
  {
    if r.thai && 0 < g < d.rangeEnd && g < |chars| && !d.HasWord(g) && IsSuffix(chars[g]) then
      var h := if chars[g] == THAI_PAIYANNOI && !IsSuffix(chars[g - 1]) then g + 1 else g;
      assert h > 0;
      if h < |chars| && chars[h] == THAI_MAIYAMOK && chars[h - 1] != THAI_MAIYAMOK then h + 1 else h
    else g
  }

  ghost predicate WordParts(d: Dictionary, r: Rules, chars: seq<int>, pos: nat, e: nat, cp: nat, f: nat, g: nat, end: nat) {
    && Picked(d, pos, e, cp) && Joined(d, r, chars, pos, e, cp, f) && PastMarks(d, r, chars, f, g)
    && end == PastSuffixes(d, r, chars, g)
  }

  /** The division goes on from `pos` to `end`. */
  ghost predicate Word(d: Dictionary, r: Rules, chars: seq<int>, pos: nat, end: nat) {
    exists e, cp, f, g :: WordParts(d, r, chars, pos, e, cp, f, g, end)
  }

  lemma JoinedProgress(d: Dictionary, r: Rules, chars: seq<int>, pos: nat, e: nat, cp: nat, f: nat)
    requires d.Valid() && pos < d.rangeEnd && Picked(d, pos, e, cp) && Joined(d, r, chars, pos, e, cp, f)
    ensures f > pos
  {
    assert d.ValidAt(pos);
    if d.HasWord(pos) {
      var m: nat :| d.Choice(pos, m) && e == d.End(pos, m);
    } else {
      assert Resynchronized(d, r, chars, e, f);
    }
  }

  /** Every step makes progress. */
  lemma WordProgress(d: Dictionary, r: Rules, chars: seq<int>, pos: nat, end: nat)
    requires d.Valid() && pos < d.rangeEnd && Word(d, r, chars, pos, end)
    ensures end > pos
  {
    hide Picked, Joined;
    var e, cp, f, g :| WordParts(d, r, chars, pos, e, cp, f, g, end);
    JoinedProgress(d, r, chars, pos, e, cp, f);
  }

  /** No word ends before a combining mark, except in Thai right after a suffix. */
  lemma NoBreakBeforeMark(d: Dictionary, r: Rules, chars: seq<int>, pos: nat, end: nat)
    requires Word(d, r, chars, pos, end) && end < d.rangeEnd && end < |chars|
    ensures chars[end] in r.markSet ==> r.thai && end > 0 && IsSuffix(chars[end - 1])
  {
  }

  lemma ChoiceUnique(d: Dictionary, pos: nat, m: nat, n: nat)
    requires d.Choice(pos, m) && d.Choice(pos, n)
    ensures m == n
  {
  }

  lemma PickedUnique(d: Dictionary, pos: nat, e: nat, cp: nat, e': nat, cp': nat)
    requires Picked(d, pos, e, cp) && Picked(d, pos, e', cp')
    ensures e == e' && cp == cp'
  {
    hide Dictionary.WellFollowed, Dictionary.Followed;
    if d.HasWord(pos) {
      var m: nat :| d.Choice(pos, m) && e == d.End(pos, m) && cp == d.MatchesAt(pos).cpLengths[m];
      var n: nat :| d.Choice(pos, n) && e' == d.End(pos, n) && cp' == d.MatchesAt(pos).cpLengths[n];
      ChoiceUnique(d, pos, m, n);
    }
  }

  lemma JoinedUnique(d: Dictionary, r: Rules, chars: seq<int>, pos: nat, e: nat, cp: nat, f: nat, f': nat)
    requires Joined(d, r, chars, pos, e, cp, f) && Joined(d, r, chars, pos, e, cp, f')
    ensures f == f'
  {
    hide Plausible;
  }

  lemma PastMarksUnique(d: Dictionary, r: Rules, chars: seq<int>, f: nat, g: nat, g': nat)
    requires PastMarks(d, r, chars, f, g) && PastMarks(d, r, chars, f, g')
    ensures g == g'
  {
  }

  /** There is only one end for a word that starts at a position. */
  lemma WordUnique(d: Dictionary, r: Rules, chars: seq<int>, pos: nat, end: nat, end': nat)
    requires Word(d, r, chars, pos, end) && Word(d, r, chars, pos, end')
    ensures end == end'
  {
    hide Picked, Joined, PastMarks, PastSuffixes;
    var e, cp, f, g :| WordParts(d, r, chars, pos, e, cp, f, g, end);
    var e', cp', f', g' :| WordParts(d, r, chars, pos, e', cp', f', g', end');
    PickedUnique(d, pos, e, cp, e', cp');
    JoinedUnique(d, r, chars, pos, e, cp, f, f');
    PastMarksUnique(d, r, chars, f, g, g');
  }

  /**
   Of the words at `pos`, the longest is taken if it ends the range or if no word is followed by another; the shortest that
   is followed, if no word is followed by two, or by one that ends the range.
   */
  lemma WordTaken(d: Dictionary, pos: nat, m: nat)
    requires d.Choice(pos, m)
    ensures
      var n, ends := |d.MatchesAt(pos).cuLengths|, d.MatchesAt(pos).cuLengths;
      && (pos + ends[n - 1] >= d.rangeEnd ==> m == n - 1)
      && ((forall i :: 0 <= i < n && pos + ends[i] < d.rangeEnd ==> d.MatchesAt(pos + ends[i]).cuLengths == []) ==> m == n - 1)
      && (pos + ends[n - 1] < d.rangeEnd && (forall i: nat :: !d.WellFollowed(pos, i)) ==>
            forall i :: 0 <= i < m ==> pos + ends[i] >= d.rangeEnd || d.MatchesAt(pos + ends[i]).cuLengths == [])
  {
    var n, ends := |d.MatchesAt(pos).cuLengths|, d.MatchesAt(pos).cuLengths;
    if forall i :: 0 <= i < n && pos + ends[i] < d.rangeEnd ==> d.MatchesAt(pos + ends[i]).cuLengths == [] {
      NoneFollowed(d, pos);
    }
    if pos + ends[n - 1] < d.rangeEnd && (forall i: nat :: !d.WellFollowed(pos, i)) {
      forall i | 0 <= i < m ensures pos + ends[i] >= d.rangeEnd || d.MatchesAt(pos + ends[i]).cuLengths == [] {
        assert !d.Followed(pos, i);
      }
    }
  }

  /** No word is taken that is shorter than one that two more words follow, or one that ends the range. */
  lemma NotShorterThanWellFollowed(d: Dictionary, pos: nat, m: nat, i: nat)
    requires d.Choice(pos, m) && i < |d.MatchesAt(pos).cuLengths|
    requires
      var next := pos + d.MatchesAt(pos).cuLengths[i];
      var ends := d.MatchesAt(next).cuLengths;
      && next < d.rangeEnd && ends != []
      && (next + ends[|ends| - 1] >= d.rangeEnd
          || exists j :: 0 <= j < |ends| && next + ends[j] < d.rangeEnd && d.MatchesAt(next + ends[j]).cuLengths != [])
    ensures i <= m
  {
    var next := pos + d.MatchesAt(pos).cuLengths[i];
    var ends := d.MatchesAt(next).cuLengths;
    if next + ends[|ends| - 1] < d.rangeEnd {
      var j: nat :| j < |ends| && next + ends[j] < d.rangeEnd && d.MatchesAt(next + ends[j]).cuLengths != [];
      assert d.Followed(next, j);
    }
    assert d.WellFollowed(pos, i);
  }

  lemma NoneFollowed(d: Dictionary, pos: nat)
    requires
      var ends := d.MatchesAt(pos).cuLengths;
      forall i :: 0 <= i < |ends| && pos + ends[i] < d.rangeEnd ==> d.MatchesAt(pos + ends[i]).cuLengths == []
    ensures forall i: nat :: !d.Followed(pos, i) && !d.WellFollowed(pos, i)
  {
  }

  /** Word `l` is the longest one that is followed. */
  ghost predicate LongestFollowed(d: Dictionary, pos: nat, l: nat) {
    d.Followed(pos, l) && forall i: nat :: d.Followed(pos, i) ==> i <= l
  }

  /** The longest followed word is taken if and only if two more words follow it, or no other word is followed. */
  lemma LongestFollowedIsTaken(d: Dictionary, pos: nat, m: nat, l: nat)
    requires d.Choice(pos, m) && LongestFollowed(d, pos, l) && d.LongestEnd(pos) < d.rangeEnd
    ensures m == l <==> d.WellFollowed(pos, l) || forall i: nat :: d.Followed(pos, i) ==> i == l
  {
    if i: nat :| d.WellFollowed(pos, i) {
      assert d.Followed(pos, i) && d.Followed(pos, m);
    }
  }

  /** Of two words that are followed by one more word only, the shorter one is taken. */
  lemma ShorterFollowedIsTaken()
    ensures
      var none, one, two := Matches([], [], 0), Matches([2], [2], 2), Matches([1, 2], [1, 2], 2);
      var d := Dictionary([two, one, one, none, none, none], 6);
      d.Valid() && d.Followed(0, 0) && d.Followed(0, 1) && d.Choice(0, 0)
  {
    var none, one, two := Matches([], [], 0), Matches([2], [2], 2), Matches([1, 2], [1, 2], 2);
    var d := Dictionary([two, one, one, none, none, none], 6);
    assert d.MatchesAt(0) == two && d.MatchesAt(1) == one && d.MatchesAt(2) == one;
    assert d.MatchesAt(3) == none && d.MatchesAt(4) == none && d.MatchesAt(5) == none;
    assert d.End(0, 0) == 1 && d.End(0, 1) == 2 && d.End(1, 0) == 3 && d.End(2, 0) == 4;
    assert d.ValidAt(0) && d.ValidAt(1) && d.ValidAt(2) && d.ValidAt(3) && d.ValidAt(4) && d.ValidAt(5);
    assert d.Valid();
    hide Dictionary.Valid, Dictionary.ValidAt;
    assert d.Followed(0, 0) && d.Followed(0, 1);
    forall j ensures !d.Followed(1, j) && !d.Followed(2, j) {
    }
    assert forall i :: !d.WellFollowed(0, i);
    assert d.LongestEnd(0) == 2;
    assert d.Choice(0, 0);
  }

  // ---------------------------------------------------------------------------------------------
  // The engine.

  class BreakEngine {
    const d: Dictionary
    const r: Rules

    constructor (d: Dictionary, r: Rules)
      ensures this.d == d && this.r == r
    {
      this.d := d;
      this.r := r;
    }

    /** The word that is taken at the position of the text. */
    method PickWord(text: UText, first: PossibleWord, second: PossibleWord, third: PossibleWord)
      returns (cuWordLength: nat, cpWordLength: nat)
      requires d.Valid() && first != second && first != third && second != third && text.index < d.rangeEnd
      requires first.Cached(d) && second.Cached(d) && third.Cached(d)
      modifies text, first, second, third
      ensures first.Cached(d) && second.Cached(d) && third.Cached(d)
      ensures text.index == old(text.index) + cuWordLength <= d.rangeEnd
      ensures Picked(d, old(text.index), text.index, cpWordLength)
      ensures cuWordLength > 0 <==> d.HasWord(old(text.index))
    {
      ghost var pos := text.index;
      cuWordLength, cpWordLength := 0, 0;
      hide Dictionary.Choice, Dictionary.Valid;
      var candidates := first.Candidates(text, d);
      MatchesValid(d, pos);
      if candidates >= 1 {
        if candidates > 1 {
          MarkBest(text, first, second, third, d, pos);
        } else {
          OnlyChoice(d, pos);
        }
        assert d.Choice(pos, first.mark);
        cuWordLength := first.AcceptMarked(text, d);
        cpWordLength := first.cpLengths[first.mark];
      }
    }

    /** From text that is no word on to the first plausible boundary, or to the end of the range. */
    method Resynchronize(text: UText, other: PossibleWord) returns (chars: nat)
      requires d.Valid() && other.Cached(d) && text.index < d.rangeEnd <= |text.chars|
      modifies text, other
      ensures other.Cached(d) && text.index == old(text.index) + chars
      ensures Resynchronized(d, r, text.chars, old(text.index), text.index)
    {
      hide Dictionary.Valid;
      var start := text.index;
      var remaining: int := d.rangeEnd - text.index;
      chars := 0;
      while true
        invariant text.index == start + chars && remaining == d.rangeEnd - text.index > 0
        invariant other.Cached(d)
        invariant forall p :: start < p <= text.index ==> !Plausible(d, r, text.chars, p)
        decreases remaining
      {
        var pcIndex := text.index;
        var pc := text.Next32();
        var pcSize := text.index - pcIndex;
        chars := chars + pcSize;
        remaining := remaining - pcSize;
        if remaining <= 0 {
          break;
        }
        var uc := text.Current32();
        if pc in r.endWordSet && uc in r.beginWordSet {
          var candidates := other.Candidates(text, d);
          text.SetNativeIndex(start + chars);
          if candidates > 0 {
            break;
          }
        }
      }
    }

    /** The text is moved past combining marks. */
    method SkipMarks(text: UText) returns (length: nat)
      requires d.rangeEnd <= |text.chars|
      modifies text
      ensures text.index == old(text.index) + length && PastMarks(d, r, text.chars, old(text.index), text.index)
      ensures old(text.index) <= d.rangeEnd ==> text.index <= d.rangeEnd
    {
      ghost var f, chars := text.index, text.chars;
      length := 0;
      while text.index < d.rangeEnd && text.Current32() in r.markSet
        invariant text.index == f + length && (f <= d.rangeEnd ==> text.index <= d.rangeEnd)
        invariant MarksOnly(d, r, chars, f, f + length)
        decreases d.rangeEnd - text.index
      {
        var currPos := text.index;
        var c := text.Next32();
        length := length + (text.index - currPos);
      }
    }

    /** The text is moved past suffixes. */
    method TakeSuffixes(text: UText, next: PossibleWord) returns (length: nat)
      requires d.Valid() && next.Cached(d) && 0 < text.index < d.rangeEnd <= |text.chars| && r.thai
      modifies text, next
      ensures next.Cached(d)
      ensures text.index == old(text.index) + length == PastSuffixes(d, r, text.chars, old(text.index))
    {
      hide Dictionary.Valid;
      ghost var g := text.index;
      length := 0;
      var start := text.index;
      var n := next.Candidates(text, d);
      if n <= 0 && IsSuffix(text.Current32()) {
        var uc := text.Current32();
        if uc == THAI_PAIYANNOI {
          var p := text.Previous32();
          if !IsSuffix(p) {
            var c := text.Next32();
            var paiyannoiIndex := text.index;
            c := text.Next32();
            length := length + (text.index - paiyannoiIndex);
            uc := text.Current32();
          } else {
            var c := text.Next32();
          }
        }
        if uc == THAI_MAIYAMOK {
          var p := text.Previous32();
          if p != THAI_MAIYAMOK {
            var c := text.Next32();
            var maiyamokIndex := text.index;
            c := text.Next32();
            length := length + (text.index - maiyamokIndex);
          } else {
            var c := text.Next32();
          }
        }
      } else {
        text.SetNativeIndex(start);
      }
    }

    /** One word: where the text goes on, and what was kept of candidates. There is always progress. */
    method NextWord(text: UText, words: seq<PossibleWord>, wordsFound: nat) returns (cuWordLength: nat)
      requires d.Valid() && Ready(words, d) && text.index < d.rangeEnd <= |text.chars|
      modifies text, words
      ensures Ready(words, d)
      ensures text.index == old(text.index) + cuWordLength && cuWordLength > 0
      ensures Word(d, r, text.chars, old(text.index), text.index)
    {
      hide Dictionary.Valid, Picked, Joined, PastMarks, PastSuffixes, Word, Dictionary.HasWord, PossibleWord.Cached, Ready;
      ghost var pos, chars := text.index, text.chars;
      var current := text.index;
      var cpWordLength;
      cuWordLength, cpWordLength := PickInTurn(text, words, wordsFound);
      ghost var e := text.index;
      var n := JoinInTurn(text, words, wordsFound, current, cuWordLength, cpWordLength);
      cuWordLength := cuWordLength + n;
      ghost var f := text.index;
      n := SkipMarks(text);
      cuWordLength := cuWordLength + n;
      ghost var g := text.index;
      JoinedProgress(d, r, chars, pos, e, cpWordLength, f);
      n := SuffixesInTurn(text, words, wordsFound + 1, cuWordLength);
      cuWordLength := cuWordLength + n;
      IsWord(d, r, chars, pos, e, cpWordLength, f, g, text.index);
      WordProgress(d, r, chars, pos, text.index);
    }

    method PickInTurn(text: UText, words: seq<PossibleWord>, wordsFound: nat) returns (cuWordLength: nat, cpWordLength: nat)
      requires d.Valid() && Ready(words, d) && text.index < d.rangeEnd
      modifies text, words
      ensures Ready(words, d) && text.index == old(text.index) + cuWordLength <= d.rangeEnd
      ensures Picked(d, old(text.index), text.index, cpWordLength)
    {
      InTurn(words, d, wordsFound);
      hide Dictionary.Valid, Picked, Dictionary.HasWord, PossibleWord.Cached;
      cuWordLength, cpWordLength := PickWord(text, words[wordsFound % LOOKAHEAD], words[(wordsFound + 1) % LOOKAHEAD],
                                             words[(wordsFound + 2) % LOOKAHEAD]);
      InTurn(words, d, wordsFound);
    }

    /** The candidates for the next word are kept in the next place, if a word was found. */
    method JoinInTurn(text: UText, words: seq<PossibleWord>, wordsFound: nat, current: nat, cuWordLength: nat, cpWordLength: nat)
      returns (chars: nat)
      requires d.Valid() && Ready(words, d) && d.rangeEnd <= |text.chars|
      requires text.index == current + cuWordLength <= d.rangeEnd && current < d.rangeEnd
      modifies text, words
      ensures Ready(words, d) && text.index == old(text.index) + chars <= d.rangeEnd
      ensures Joined(d, r, text.chars, current, current + cuWordLength, cpWordLength, text.index)
    {
      var place := wordsFound + if cuWordLength > 0 then 1 else 0;
      InTurn(words, d, place);
      hide Dictionary.Valid, Joined, PossibleWord.Cached;
      chars := JoinRest(text, words[place % LOOKAHEAD], words[(place + 1) % LOOKAHEAD], current, cuWordLength, cpWordLength);
      InTurn(words, d, place);
    }

    method SuffixesInTurn(text: UText, words: seq<PossibleWord>, place: nat, cuWordLength: nat) returns (length: nat)
      requires d.Valid() && Ready(words, d) && d.rangeEnd <= |text.chars| && cuWordLength <= text.index
      requires cuWordLength > 0
      modifies text, words
      ensures Ready(words, d)
      ensures text.index == old(text.index) + length == PastSuffixes(d, r, text.chars, old(text.index))
    {
      InTurn(words, d, place);
      length := 0;
      if r.thai && text.index < d.rangeEnd && cuWordLength > 0 {
        hide Dictionary.Valid, PastSuffixes, PossibleWord.Cached;
        length := TakeSuffixes(text, words[place % LOOKAHEAD]);
        InTurn(words, d, place);
      }
    }

    /** Text that is no word is joined to a short word before it. */
    method JoinRest(text: UText, next: PossibleWord, other: PossibleWord, current: nat, cuWordLength: nat, cpWordLength: nat)
      returns (chars: nat)
      requires d.Valid() && next != other && next.Cached(d) && other.Cached(d) && d.rangeEnd <= |text.chars|
      requires text.index == current + cuWordLength <= d.rangeEnd && current < d.rangeEnd
      modifies text, next, other
      ensures next.Cached(d) && other.Cached(d) && text.index == old(text.index) + chars <= d.rangeEnd
      ensures Joined(d, r, text.chars, current, current + cuWordLength, cpWordLength, text.index)
    {
      hide Dictionary.Valid, Resynchronized;
      chars := 0;
      if text.index < d.rangeEnd && cpWordLength < ROOT_COMBINE_THRESHOLD {
        var n := next.Candidates(text, d);
        if n <= 0 && (cuWordLength == 0 || next.prefix < PREFIX_COMBINE_THRESHOLD) {
          chars := Resynchronize(text, other);
          ResynchronizedInRange(d, r, text.chars, current + cuWordLength, text.index);
        } else {
          text.SetNativeIndex(current + cuWordLength);
        }
      }
    }

    /**
     The division of a range: break after break, each where the word after the one before it ends, up to the end of the
     range. The breaks that are left are in ascending order and strictly within the range, as many as are counted,
     and they depend on the text and the dictionary alone.
     */
    method DivideUpDictionaryRange(text: UText, rangeStart: nat, foundBreaks: FoundBreaks)
      returns (wordsFound: int, ghost ends: seq<nat>)
      requires d.Valid() && rangeStart <= d.rangeEnd <= |text.chars|
      modifies text, foundBreaks
      ensures TooShort(d, r, rangeStart) ==> wordsFound == 0 && ends == [] && foundBreaks.breaks == old(foundBreaks.breaks)
      ensures rangeStart + MIN_WORD_SPAN <= d.rangeEnd ==>
        (ends == [] <==> r.thai && d.rangeEnd == rangeStart + MIN_WORD_SPAN)
      ensures !TooShort(d, r, rangeStart) ==>
        && Division(d, r, text.chars, rangeStart, ends) && |ends| > 0 && ends[|ends| - 1] >= d.rangeEnd
        && foundBreaks.breaks == old(foundBreaks.breaks) + ends[..|ends| - 1] && wordsFound == |ends| - 1
    {
      wordsFound, ends := 0, [];
      if r.thai {
        if (if rangeStart + MIN_WORD_SPAN <= |text.chars| then rangeStart + MIN_WORD_SPAN else |text.chars|) >= d.rangeEnd {
          return;
        }
      } else {
        if d.rangeEnd - rangeStart < MIN_WORD_SPAN {
          return;
        }
      }
      hide Dictionary.Valid, Word, EndsWord, PossibleWord.Cached, Dictionary.HasWord;
      var w0 := new PossibleWord();
      var w1 := new PossibleWord();
      var w2 := new PossibleWord();
      var words := [w0, w1, w2];
      text.SetNativeIndex(rangeStart);
      while text.index < d.rangeEnd
        invariant Ready(words, d) && fresh(w0) && fresh(w1) && fresh(w2) && words == [w0, w1, w2]
        invariant Division(d, r, text.chars, rangeStart, ends) && wordsFound == |ends|
        invariant text.index == if |ends| == 0 then rangeStart else ends[|ends| - 1]
        invariant foundBreaks.breaks == old(foundBreaks.breaks) + ends
        decreases d.rangeEnd - text.index
      {
        var current := text.index;
        var cuWordLength := NextWord(text, words, wordsFound);
        wordsFound := wordsFound + 1;
        foundBreaks.Push(current + cuWordLength);
        DivisionGrows(d, r, text.chars, rangeStart, ends, text.index);
        ends := ends + [text.index];
      }
      // The end of the range is not a break.
      if foundBreaks.Peek() >= d.rangeEnd {
        var last := foundBreaks.Pop();
        wordsFound := wordsFound - 1;
      }
    }
  }

  /** Three places for candidates, all different. */
  ghost predicate Places(words: seq<PossibleWord>) {
    |words| == LOOKAHEAD && words[0] != words[1] && words[0] != words[2] && words[1] != words[2]
  }

  ghost predicate Ready(words: seq<PossibleWord>, d: Dictionary)
    reads words
  {
    Places(words) && words[0].Cached(d) && words[1].Cached(d) && words[2].Cached(d)
  }

  lemma Mod3(n: nat)
    ensures (n + 1) % LOOKAHEAD == if n % LOOKAHEAD == 2 then 0 else n % LOOKAHEAD + 1
    ensures (n + 2) % LOOKAHEAD == if n % LOOKAHEAD == 0 then 2 else n % LOOKAHEAD - 1
  {
  }

  /** The places are used in turn. */
  lemma InTurn(words: seq<PossibleWord>, d: Dictionary, n: nat)
    requires Places(words)
    ensures
      var a, b, c := words[n % LOOKAHEAD], words[(n + 1) % LOOKAHEAD], words[(n + 2) % LOOKAHEAD];
      && a != b && a != c && b != c
      && (Ready(words, d) <==> a.Cached(d) && b.Cached(d) && c.Cached(d))
  {
    Mod3(n);
    if n % LOOKAHEAD == 0 {
      assert (n + 1) % LOOKAHEAD == 1 && (n + 2) % LOOKAHEAD == 2;
    } else if n % LOOKAHEAD == 1 {
      assert (n + 1) % LOOKAHEAD == 2 && (n + 2) % LOOKAHEAD == 0;
    } else {
      assert (n + 1) % LOOKAHEAD == 0 && (n + 2) % LOOKAHEAD == 1;
    }
  }

  lemma IsWord(d: Dictionary, r: Rules, chars: seq<int>, pos: nat, e: nat, cp: nat, f: nat, g: nat, end: nat)
    requires Picked(d, pos, e, cp) && Joined(d, r, chars, pos, e, cp, f) && PastMarks(d, r, chars, f, g)
    requires end == PastSuffixes(d, r, chars, g)
    ensures Word(d, r, chars, pos, end)
  {
    assert WordParts(d, r, chars, pos, e, cp, f, g, end);
  }

  lemma ResynchronizedInRange(d: Dictionary, r: Rules, chars: seq<int>, e: nat, f: nat)
    requires Resynchronized(d, r, chars, e, f)
    ensures e < f <= d.rangeEnd
  {
  }

  /** A range that is not divided. Four characters are too few for Thai, and enough for the other scripts. */
  predicate TooShort(d: Dictionary, r: Rules, rangeStart: nat) {
    if r.thai then d.rangeEnd <= rangeStart + MIN_WORD_SPAN else d.rangeEnd < rangeStart + MIN_WORD_SPAN
  }

  /** The word that starts where the one before it ends, or at the start of the range, ends at `ends[k]`. */
  ghost predicate EndsWord(d: Dictionary, r: Rules, chars: seq<int>, rangeStart: nat, ends: seq<nat>, k: nat) {
    k < |ends| && Word(d, r, chars, if k == 0 then rangeStart else ends[k - 1], ends[k])
  }

  /** Each position is where the word at the position before it ends; only the last may be beyond the range. */
  ghost predicate Division(d: Dictionary, r: Rules, chars: seq<int>, rangeStart: nat, ends: seq<nat>) {
    && (forall k :: 0 <= k < |ends| ==> EndsWord(d, r, chars, rangeStart, ends, k))
    && Ascending(ends)
    && (forall k :: 0 <= k < |ends| ==> rangeStart < ends[k])
    && (forall k :: 0 <= k < |ends| - 1 ==> ends[k] < d.rangeEnd)
  }

  lemma DivisionGrows(d: Dictionary, r: Rules, chars: seq<int>, rangeStart: nat, ends: seq<nat>, end: nat)
    requires Division(d, r, chars, rangeStart, ends)
    requires
      var pos := if |ends| == 0 then rangeStart else ends[|ends| - 1];
      pos < end && pos < d.rangeEnd && Word(d, r, chars, pos, end)
    ensures Division(d, r, chars, rangeStart, ends + [end])
  {
    hide Word;
    var all := ends + [end];
    forall k | 0 <= k < |all| ensures EndsWord(d, r, chars, rangeStart, all, k) {
      assert k < |ends| ==> EndsWord(d, r, chars, rangeStart, ends, k);
    }
  }

  /** As many as there are of the ends of two divisions, whole or in part, are the same. */
  lemma {:induction false} DivisionsAgree(d: Dictionary, r: Rules, chars: seq<int>, rangeStart: nat, a: seq<nat>, b: seq<nat>, k: nat)
    requires Division(d, r, chars, rangeStart, a) && Division(d, r, chars, rangeStart, b) && k < |a| && k < |b|
    ensures a[k] == b[k]
  {
    hide Word;
    if k > 0 { DivisionsAgree(d, r, chars, rangeStart, a, b, k - 1); }
    assert EndsWord(d, r, chars, rangeStart, a, k) && EndsWord(d, r, chars, rangeStart, b, k);
    WordUnique(d, r, chars, if k == 0 then rangeStart else a[k - 1], a[k], b[k]);
  }

  /** The division is determined by the text and the dictionary. */
  lemma DivisionUnique(d: Dictionary, r: Rules, chars: seq<int>, rangeStart: nat, a: seq<nat>, b: seq<nat>)
    requires Division(d, r, chars, rangeStart, a) && Division(d, r, chars, rangeStart, b)
    requires |a| > 0 && |b| > 0 && a[|a| - 1] >= d.rangeEnd && b[|b| - 1] >= d.rangeEnd
    ensures a == b
  {
    hide EndsWord;
    forall k | 0 <= k < |a| && k < |b| ensures a[k] == b[k] {
      DivisionsAgree(d, r, chars, rangeStart, a, b, k);
    }
  }

  // ---------------------------------------------------------------------------------------------
  // Where words end, in terms of the characters and the dictionary.

  /**
   Text where no word starts goes on to the first position `p` where one can: after a character that ends words, at
   one that begins words, and with a word of the dictionary. If there is none, it goes on to the end of the range.
   */
  lemma TextWithoutWordEnds(d: Dictionary, r: Rules, chars: seq<int>, pos: nat, p: nat)
    requires d.Valid() && pos < p <= d.rangeEnd <= |chars| && d.MatchesAt(pos).cuLengths == []
    requires p < d.rangeEnd ==>
      chars[p - 1] in r.endWordSet && chars[p] in r.beginWordSet && d.MatchesAt(p).cuLengths != [] && chars[p] !in r.markSet
    requires forall q :: pos < q < p ==>
      !(chars[q - 1] in r.endWordSet && chars[q] in r.beginWordSet && d.MatchesAt(q).cuLengths != [])
    ensures forall end :: Word(d, r, chars, pos, end) <==> end == p
  {
    NoneAtTheEnd(d, r, chars, p);
    assert Picked(d, pos, pos, 0) && Joined(d, r, chars, pos, pos, 0, p) && PastMarks(d, r, chars, p, p);
    IsWord(d, r, chars, pos, pos, 0, p, p, p);
    EndsThere(d, r, chars, pos, p);
  }

  lemma NoneAtTheEnd(d: Dictionary, r: Rules, chars: seq<int>, p: nat)
    requires p < d.rangeEnd ==> d.MatchesAt(p).cuLengths != []
    ensures PastSuffixes(d, r, chars, p) == p
  {
  }

  lemma EndsThere(d: Dictionary, r: Rules, chars: seq<int>, pos: nat, p: nat)
    requires Word(d, r, chars, pos, p)
    ensures forall end :: Word(d, r, chars, pos, end) <==> end == p
  {
    hide Word;
    forall end | Word(d, r, chars, pos, end) ensures end == p {
      WordUnique(d, r, chars, pos, end, p);
    }
  }

  /**
   A word of one or two characters, the only one at `pos`, that no word follows, nor three characters or more of one:
   it goes on to the first position where a word can start, or to the end of the range.
   */
  lemma ShortWordEnds(d: Dictionary, r: Rules, chars: seq<int>, pos: nat, e: nat, p: nat)
    requires d.Valid() && pos < e < p <= d.rangeEnd <= |chars|
    requires d.MatchesAt(pos).cuLengths == [e - pos] && |d.MatchesAt(pos).cpLengths| == 1 && d.MatchesAt(pos).cpLengths[0] <= 2
    requires d.MatchesAt(e).cuLengths == [] && d.MatchesAt(e).prefix <= 2
    requires p < d.rangeEnd ==>
      chars[p - 1] in r.endWordSet && chars[p] in r.beginWordSet && d.MatchesAt(p).cuLengths != [] && chars[p] !in r.markSet
    requires forall q :: e < q < p ==>
      !(chars[q - 1] in r.endWordSet && chars[q] in r.beginWordSet && d.MatchesAt(q).cuLengths != [])
    ensures forall end :: Word(d, r, chars, pos, end) <==> end == p
  {
    MatchesValid(d, pos);
    var cp := d.MatchesAt(pos).cpLengths[0];
    NoneAtTheEnd(d, r, chars, p);
    OnlyChoice(d, pos);
    assert Picked(d, pos, e, cp) && Joined(d, r, chars, pos, e, cp, p) && PastMarks(d, r, chars, p, p);
    IsWord(d, r, chars, pos, e, cp, p, p, p);
    EndsThere(d, r, chars, pos, p);
  }

  /**
   A word, the only one at `pos`, to which no text is joined: it has three characters or more, or a word follows it, or
   three characters or more of one. It ends after the combining marks, and in Thai after PAIYANNOI, MAIYAMOK or both,
   unless a word follows, or a suffix comes before them.
   */
  lemma WordEnds(d: Dictionary, r: Rules, chars: seq<int>, pos: nat, e: nat, g: nat)
    requires d.Valid() && pos < e <= g <= d.rangeEnd <= |chars|
    requires d.MatchesAt(pos).cuLengths == [e - pos] && |d.MatchesAt(pos).cpLengths| == 1
    requires e == d.rangeEnd || d.MatchesAt(pos).cpLengths[0] >= 3 || d.MatchesAt(e).cuLengths != [] || d.MatchesAt(e).prefix >= 3
    requires (forall k :: e <= k < g ==> chars[k] in r.markSet) && (g < d.rangeEnd ==> chars[g] !in r.markSet)
    ensures
      var after := g < d.rangeEnd && r.thai && d.MatchesAt(g).cuLengths == [];
      var both := after && g + 1 < |chars| && chars[g..g + 2] == [0x0e2f, 0x0e46] && chars[g - 1] !in {0x0e2f, 0x0e46};
      var first := after && chars[g] == 0x0e2f && chars[g - 1] !in {0x0e2f, 0x0e46};
      var second := after && chars[g] == 0x0e46 && chars[g - 1] != 0x0e46;
      forall end :: Word(d, r, chars, pos, end) <==> end == if both then g + 2 else if first || second then g + 1 else g
  {
    MatchesValid(d, pos);
    SuffixesAt(d, r, chars, g);
    var cp := d.MatchesAt(pos).cpLengths[0];
    OnlyChoice(d, pos);
    hide Dictionary.Valid, Dictionary.ValidAt, Word, PastSuffixes;
    assert Picked(d, pos, e, cp) && Joined(d, r, chars, pos, e, cp, e) && PastMarks(d, r, chars, e, g);
    var end := PastSuffixes(d, r, chars, g);
    IsWord(d, r, chars, pos, e, cp, e, g, end);
    EndsThere(d, r, chars, pos, end);
  }

  lemma SuffixesAt(d: Dictionary, r: Rules, chars: seq<int>, g: nat)
    requires 0 < g <= d.rangeEnd <= |chars|
    ensures
      var after := g < d.rangeEnd && r.thai && d.MatchesAt(g).cuLengths == [];
      var both := after && g + 1 < |chars| && chars[g..g + 2] == [0x0e2f, 0x0e46] && chars[g - 1] !in {0x0e2f, 0x0e46};
      var first := after && chars[g] == 0x0e2f && chars[g - 1] !in {0x0e2f, 0x0e46};
      var second := after && chars[g] == 0x0e46 && chars[g - 1] != 0x0e46;
      PastSuffixes(d, r, chars, g) == if both then g + 2 else if first || second then g + 1 else g
  {
  }

  /** One word of five characters: the one character before it is passed over, and a break is left there. */
  method TextBeforeWord() returns (wordsFound: int, foundBreaks: FoundBreaks)
    ensures foundBreaks.breaks == [1] && wordsFound == 1
  {
    hide *;
    var none, five := Matches([], [], 0), Matches([5], [5], 5);
    var d, r := Dictionary([none, five, none, none, none, none], 6), Rules({}, {1}, {2}, true);
    var text := new UText([1, 2, 3, 4, 5, 6]);
    foundBreaks := new FoundBreaks();
    ghost var ends;
    FiveAtOne(d, r);
    var engine := new BreakEngine(d, r);
    wordsFound, ends := engine.DivideUpDictionaryRange(text, 0, foundBreaks);
    DivisionUnique(d, r, [1, 2, 3, 4, 5, 6], 0, ends, [1, 6]);
  }

  lemma FiveAtOneIsValid(d: Dictionary)
    requires d == Dictionary([Matches([], [], 0), Matches([5], [5], 5), Matches([], [], 0), Matches([], [], 0),
                              Matches([], [], 0), Matches([], [], 0)], 6)
    ensures d.Valid() && d.MatchesAt(0).cuLengths == [] && d.MatchesAt(1) == Matches([5], [5], 5)
  {
    forall pos: nat | pos < 6 ensures d.ValidAt(pos) {
      assert pos == 0 || pos == 1 || pos == 2 || pos == 3 || pos == 4 || pos == 5;
    }
  }

  lemma FiveAtOne(d: Dictionary, r: Rules)
    requires d == Dictionary([Matches([], [], 0), Matches([5], [5], 5), Matches([], [], 0), Matches([], [], 0),
                              Matches([], [], 0), Matches([], [], 0)], 6)
    requires r == Rules({}, {1}, {2}, true)
    ensures d.Valid() && !TooShort(d, r, 0) && Division(d, r, [1, 2, 3, 4, 5, 6], 0, [1, 6])
  {
    var chars := [1, 2, 3, 4, 5, 6];
    FiveAtOneIsValid(d);
    hide Dictionary.Valid, Dictionary.ValidAt, Dictionary.MatchesAt, Word;
    TextWithoutWordEnds(d, r, chars, 0, 1);
    WordEnds(d, r, chars, 1, 6, 6);
    DivisionGrows(d, r, chars, 0, [], 1);
    DivisionGrows(d, r, chars, 0, [] + [1 as nat], 6);
    assert [] + [1 as nat] + [6] == [1, 6];
  }

  // ---------------------------------------------------------------------------------------------
  // Breaks before combining marks.

  /** Some break within the range comes before a combining mark. */
  ghost predicate BreaksBeforeMark(d: Dictionary, r: Rules, chars: seq<int>, rangeStart: nat) {
    exists ends, k :: BreakBeforeMark(d, r, chars, rangeStart, ends, k)
  }

  ghost predicate BreakBeforeMark(d: Dictionary, r: Rules, chars: seq<int>, rangeStart: nat, ends: seq<nat>, k: nat) {
    && Division(d, r, chars, rangeStart, ends) && k < |ends|
    && ends[k] < d.rangeEnd && ends[k] < |chars| && chars[ends[k]] in r.markSet
  }

  /** Where suffixes at `g` end that belong to the word before them. */
  function SuffixesEnd(chars: seq<int>, g: nat): (h: nat)
    requires 0 < g < |chars|
    ensures g <= h <= g + 2 && h <= |chars|
  {
    var h := if chars[g] == THAI_PAIYANNOI && !IsSuffix(chars[g - 1]) then g + 1 else g;
    if h < |chars| && chars[h] == THAI_MAIYAMOK && chars[h - 1] != THAI_MAIYAMOK then h + 1 else h
  }

  /** Suffixes at `g` belong to the word before them, and a combining mark follows them. */
  predicate MarkAfterSuffix(r: Rules, chars: seq<int>, rangeEnd: nat, g: nat)
    requires rangeEnd <= |chars| && 0 < g < rangeEnd
  {
    var h := SuffixesEnd(chars, g);
    chars[g] !in r.markSet && IsSuffix(chars[g]) && g < h < rangeEnd && chars[h] in r.markSet
  }

  lemma SuffixesPassed(d: Dictionary, r: Rules, chars: seq<int>, g: nat)
    requires r.thai && 0 < g < d.rangeEnd <= |chars| && !d.HasWord(g) && IsSuffix(chars[g])
    ensures PastSuffixes(d, r, chars, g) == SuffixesEnd(chars, g)
  {
  }

  lemma WordBeforeMark(d: Dictionary, r: Rules, chars: seq<int>, pos: nat, end: nat) returns (g: nat)
    requires d.Valid() && pos < d.rangeEnd <= |chars| && Word(d, r, chars, pos, end)
    requires end < d.rangeEnd && chars[end] in r.markSet
    ensures r.thai && pos < g < d.rangeEnd && MarkAfterSuffix(r, chars, d.rangeEnd, g)
  {
    hide Picked, Joined, SuffixesEnd;
    var e, cp, f, g' :| WordParts(d, r, chars, pos, e, cp, f, g', end);
    JoinedProgress(d, r, chars, pos, e, cp, f);
    g := g';
    if PastSuffixes(d, r, chars, g) > g { SuffixesPassed(d, r, chars, g); }
  }

  /** A dictionary with one word, from `pos` to `g`; at `g` begins a word that is not complete before the end of the range. */
  function OneWord(pos: nat, g: nat, rangeEnd: nat): Dictionary
    requires pos < g < rangeEnd
  {
    Dictionary(seq(rangeEnd, i =>
      if i == pos then Matches([g - pos], [g - pos], g - pos)
      else if i == g then Matches([], [], rangeEnd - g)
      else Matches([], [], 0)), rangeEnd)
  }

  lemma OneWordIsValid(pos: nat, g: nat, rangeEnd: nat)
    requires pos < g < rangeEnd
    ensures OneWord(pos, g, rangeEnd).Valid()
  {
    var d := OneWord(pos, g, rangeEnd);
    forall i: nat | i < rangeEnd ensures d.ValidAt(i) {
    }
  }

  lemma OneWordDivides(r: Rules, chars: seq<int>, rangeStart: nat, rangeEnd: nat, g: nat)
    requires r.thai && rangeStart + MIN_WORD_SPAN < rangeEnd <= |chars| && rangeStart < g < rangeEnd
    requires MarkAfterSuffix(r, chars, rangeEnd, g)
    ensures Word(OneWord(rangeStart, g, rangeEnd), r, chars, rangeStart, SuffixesEnd(chars, g))
  {
    hide SuffixesEnd;
    var d := OneWord(rangeStart, g, rangeEnd);
    SuffixesPassed(d, r, chars, g);
    OnlyChoice(d, rangeStart);
    assert Picked(d, rangeStart, g, g - rangeStart);
    assert Joined(d, r, chars, rangeStart, g, g - rangeStart, g);
    assert PastMarks(d, r, chars, g, g);
    IsWord(d, r, chars, rangeStart, g, g - rangeStart, g, g, SuffixesEnd(chars, g));
  }

  /**
   A text may be broken before a combining mark, by some dictionary, if and only if it is Thai, and holds suffixes
   that belong to the word before them and are followed by a combining mark.
   */
  lemma MarksAreKept(r: Rules, chars: seq<int>, rangeStart: nat, rangeEnd: nat)
    requires rangeStart + MIN_WORD_SPAN < rangeEnd <= |chars|
    ensures (exists d: Dictionary :: d.Valid() && d.rangeEnd == rangeEnd && BreaksBeforeMark(d, r, chars, rangeStart))
      <==> r.thai && exists g :: rangeStart < g < rangeEnd && MarkAfterSuffix(r, chars, rangeEnd, g)
  {
    hide Word, MarkAfterSuffix;
    if d: Dictionary :| d.Valid() && d.rangeEnd == rangeEnd && BreaksBeforeMark(d, r, chars, rangeStart) {
      var ends, k :| BreakBeforeMark(d, r, chars, rangeStart, ends, k);
      assert EndsWord(d, r, chars, rangeStart, ends, k);
      var g := WordBeforeMark(d, r, chars, if k == 0 then rangeStart else ends[k - 1], ends[k]);
    }
    if r.thai {
      if g :| rangeStart < g < rangeEnd && MarkAfterSuffix(r, chars, rangeEnd, g) {
        SomeDictionaryBreaks(r, chars, rangeStart, rangeEnd, g);
      }
    }
  }

  lemma SomeDictionaryBreaks(r: Rules, chars: seq<int>, rangeStart: nat, rangeEnd: nat, g: nat)
    requires r.thai && rangeStart + MIN_WORD_SPAN < rangeEnd <= |chars| && rangeStart < g < rangeEnd
    requires MarkAfterSuffix(r, chars, rangeEnd, g)
    ensures var d := OneWord(rangeStart, g, rangeEnd); d.Valid() && BreaksBeforeMark(d, r, chars, rangeStart)
  {
    hide Word, Dictionary.Valid;
    var d, h := OneWord(rangeStart, g, rangeEnd), SuffixesEnd(chars, g);
    OneWordIsValid(rangeStart, g, rangeEnd);
    OneWordDivides(r, chars, rangeStart, rangeEnd, g);
    DivisionGrows(d, r, chars, rangeStart, [], h);
    assert [] + [h] == [h];
    assert BreakBeforeMark(d, r, chars, rangeStart, [h], 0);
  }

  /** A word of three characters and MAIYAMOK: the break after it comes before a combining mark. */
  lemma MarkIsCutOff()
    ensures
      var r := Rules({9}, {}, {}, true);
      var chars := [1, 2, 3, THAI_MAIYAMOK, 9, 4];
      var d := OneWord(0, 3, 6);
      d.Valid() && !TooShort(d, r, 0) && BreakBeforeMark(d, r, chars, 0, [4], 0)
  {
    var r, chars, d := Rules({9}, {}, {}, true), [1, 2, 3, THAI_MAIYAMOK, 9, 4], OneWord(0, 3, 6);
    OneWordIsValid(0, 3, 6);
    OneWordDivides(r, chars, 0, 6, 3);
    DivisionGrows(d, r, chars, 0, [], 4);
    assert [] + [4 as nat] == [4];
  }

  /** The breaks within the range come before no combining mark, except in Thai right after a suffix. */
  lemma DivisionKeepsMarks(d: Dictionary, r: Rules, chars: seq<int>, rangeStart: nat, ends: seq<nat>, k: nat)
    requires Division(d, r, chars, rangeStart, ends) && k + 1 < |ends| && d.rangeEnd <= |chars|
    ensures chars[ends[k]] in r.markSet ==> r.thai && IsSuffix(chars[ends[k] - 1])
  {
    hide Word;
    assert EndsWord(d, r, chars, rangeStart, ends, k);
    NoBreakBeforeMark(d, r, chars, if k == 0 then rangeStart else ends[k - 1], ends[k]);
  }

  // ---------------------------------------------------------------------------------------------
  // Short ranges.

  /** Four characters of Thai, two words of two: they would be divided in the middle, and are not. */
  method FourCharactersOfThai() returns (wordsFound: int, foundBreaks: FoundBreaks)
    ensures
      var two, none := Matches([2], [2], 2), Matches([], [], 0);
      var d, r := Dictionary([two, none, two, none], 4), Rules({}, {}, {}, true);
      d.Valid() && Division(d, r, [1, 2, 3, 4], 0, [2, 4])
    ensures wordsFound == 0 && foundBreaks.breaks == []
  {
    var two, none := Matches([2], [2], 2), Matches([], [], 0);
    var d, r, chars := Dictionary([two, none, two, none], 4), Rules({}, {}, {}, true), [1, 2, 3, 4];
    TwoAndTwo();
    foundBreaks := new FoundBreaks();
    var text := new UText(chars);
    var engine := new BreakEngine(d, r);
    ghost var ends;
    wordsFound, ends := engine.DivideUpDictionaryRange(text, 0, foundBreaks);
  }

  lemma TwoAndTwoIsValid(d: Dictionary)
    requires d == Dictionary([Matches([2], [2], 2), Matches([], [], 0), Matches([2], [2], 2), Matches([], [], 0)], 4)
    ensures d.Valid() && d.MatchesAt(0) == d.MatchesAt(2) == Matches([2], [2], 2)
  {
    forall pos: nat | pos < 4 ensures d.ValidAt(pos) {
      assert pos == 0 || pos == 1 || pos == 2 || pos == 3;
    }
  }

  lemma TwoAndTwo()
    ensures
      var two, none := Matches([2], [2], 2), Matches([], [], 0);
      var d, r := Dictionary([two, none, two, none], 4), Rules({}, {}, {}, true);
      d.Valid() && Division(d, r, [1, 2, 3, 4], 0, [2, 4])
  {
    var two, none := Matches([2], [2], 2), Matches([], [], 0);
    var d, r, chars := Dictionary([two, none, two, none], 4), Rules({}, {}, {}, true), [1, 2, 3, 4];
    TwoAndTwoIsValid(d);
    hide Dictionary.Valid, Dictionary.ValidAt, Dictionary.MatchesAt, Word;
    WordEnds(d, r, chars, 0, 2, 2);
    WordEnds(d, r, chars, 2, 4, 4);
    DivisionGrows(d, r, chars, 0, [], 2);
    DivisionGrows(d, r, chars, 0, [] + [2 as nat], 4);
    assert [] + [2 as nat] + [4] == [2, 4];
  }

  lemma MatchesValid(d: Dictionary, pos: nat)
    requires d.Valid() && pos < d.rangeEnd
    ensures d.ValidAt(pos)
  {
  }

  lemma OnlyChoice(d: Dictionary, pos: nat)
    requires |d.MatchesAt(pos).cuLengths| == 1
    ensures d.Choice(pos, 0)
  {
  }
}
