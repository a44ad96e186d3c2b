/**
 The dictionary segmentation of Chinese and Japanese text: a shortest path from the start to
 the end of the text, found by dynamic programming.
 */
module CjkBreakEngine {
  import opened DictionaryBreaks

  /** A dictionary word that starts at some position: its length in code points, and its cost. */
  datatype Word = Word(length: nat, cost: nat)

  const MAX_SNLP := 255
  const KUINT32_MAX := 0xffff_ffff
  const MAX_KATAKANA_LENGTH := 8
  const MAX_KATAKANA_GROUP_LENGTH := 20
  const KATAKANA_COST := [8192, 984, 408, 240, 204, 252, 300, 372, 480]

  function KatakanaCost(wordLength: nat): (c: nat)
    ensures c <= 8192
  {
    if wordLength > MAX_KATAKANA_LENGTH then 8192 else KATAKANA_COST[wordLength]
  }

  predicate IsKatakana(c: int) {
    (0x30a1 <= c <= 0x30fe && c != 0x30fb) || 0xff66 <= c <= 0xff9f
  }

  predicate IsHangul(c: int) { 0xac00 <= c <= 0xd7a3 }

  /** The code points of a text, and the dictionary words that start at each of them, shortest first. */
  datatype Text = Text(chars: seq<int>, words: seq<seq<Word>>) {
    predicate Valid() {
      && |words| == |chars|
      && (forall i, m :: 0 <= i < |words| && 0 <= m < |words[i]| ==>
            words[i][m].length > 0 && i + words[i][m].length <= |chars|)
      && (forall i, l, m :: 0 <= i < |words| && 0 <= l < m < |words[i]| ==> words[i][l].length < words[i][m].length)
    }

    /** The index in UTF-16 code units of code point `i`. */
    function UnitIndex(i: nat): (u: nat)
      requires i <= |chars|
      ensures u >= i
    {
      if i == 0 then 0 else UnitIndex(i - 1) + if chars[i - 1] >= 0x10000 then 2 else 1
    }

    /** No supplementary character comes before Katakana. */
    predicate Straight() {
      forall i, k :: 0 <= k < i < |chars| && IsKatakana(chars[i]) ==> chars[k] < 0x10000
    }

    /** The words that are tried at `i`: if none has length 1, the single character is one, at the highest cost. */
    function Candidates(i: nat): (c: seq<Word>)
      requires Valid() && i < |chars|
      ensures forall m :: 0 <= m < |c| ==> c[m].length > 0 && i + c[m].length <= |chars|
    {
      if (words[i] == [] || words[i][0].length != 1) && !IsHangul(chars[i]) then
        words[i] + [Word(1, MAX_SNLP)]
      else words[i]
    }

    /** The length of the run of Katakana at `i`, as far as `max`. */
    function Run(i: nat, max: nat): (r: nat)
      requires i <= |chars|
      ensures r <= max && i + r <= |chars|
      ensures forall k :: i <= k < i + r ==> IsKatakana(chars[k])
      ensures r < max && i + r < |chars| ==> !IsKatakana(chars[i + r])
      decreases max
    {
      if max == 0 || i == |chars| || !IsKatakana(chars[i]) then 0 else 1 + Run(i + 1, max - 1)
    }

    /** Whether the last position before `i` that was reached holds Katakana. */
    predicate PrevKatakana(reached: seq<bool>, i: nat)
      requires i <= |reached| && i <= |chars|
      decreases i
    {
      i > 0 && if reached[i - 1] then IsKatakana(chars[i - 1]) else PrevKatakana(reached, i - 1)
    }

    /** Whether a whole Katakana run is a candidate at `i`; it is lost if its end falls outside of the table. */
    predicate KatakanaWord(reached: seq<bool>, i: nat)
      requires i < |chars| && i <= |reached|
    {
      && IsKatakana(chars[i]) && !PrevKatakana(reached, i)
      && Run(i, MAX_KATAKANA_GROUP_LENGTH) < MAX_KATAKANA_GROUP_LENGTH
      && UnitIndex(i) + Run(i, MAX_KATAKANA_GROUP_LENGTH) <= |chars|
    }

    /** All the ways to go on from `i`, Katakana runs included. */
    function Hops(reached: seq<bool>, i: nat): (h: seq<Word>)
      requires Valid() && i < |chars| && i <= |reached|
      ensures forall m :: 0 <= m < |h| ==> h[m].length > 0 && i + h[m].length <= |chars|
    {
      if KatakanaWord(reached, i) then
        var run := Run(i, MAX_KATAKANA_GROUP_LENGTH);
        Candidates(i) + [Word(UnitIndex(i) + run - i, KatakanaCost(run))]
      else Candidates(i)
    }

    lemma {:induction false} PrevKatakanaFrame(a: seq<bool>, b: seq<bool>, i: nat)
      requires i <= |a| && i <= |b| && i <= |chars| && forall k :: 0 <= k < i ==> a[k] == b[k]
      ensures PrevKatakana(a, i) == PrevKatakana(b, i)
      decreases i
    {
      if i > 0 { PrevKatakanaFrame(a, b, i - 1); }
    }

    lemma HopsFrame(a: seq<bool>, b: seq<bool>, i: nat)
      requires Valid() && i < |chars| && i <= |a| && i <= |b| && forall k :: 0 <= k < i ==> a[k] == b[k]
      ensures Hops(a, i) == Hops(b, i)
    {
      PrevKatakanaFrame(a, b, i);
    }

    lemma UnitIndexStraight(i: nat)
      requires Straight() && i < |chars| && IsKatakana(chars[i])
      ensures UnitIndex(i) == i
    {
      UnitIndexExceeds(i);
    }

    /** There is always a way on from a character that is not Hangul. */
    lemma SingleHop(reached: seq<bool>, i: nat) returns (m: nat)
      requires Valid() && i < |chars| && i <= |reached| && !IsHangul(chars[i])
      ensures m < |Hops(reached, i)| && Hops(reached, i)[m].length == 1
    {
      m := if words[i] != [] && words[i][0].length == 1 then 0 else |words[i]|;
      assert m < |Candidates(i)| && Candidates(i)[m].length == 1;
    }

    /** The units before `i` exceed the code points exactly if a supplementary character is among them. */
    lemma {:induction false} UnitIndexExceeds(i: nat)
      requires i <= |chars|
      ensures UnitIndex(i) == i <==> forall k :: 0 <= k < i ==> chars[k] < 0x10000
    {
      if i > 0 { UnitIndexExceeds(i - 1); }
    }

    /**
     The hop for a Katakana run ends where the run ends if and only if no supplementary character comes
     before it: its end is a code unit index that is used as a code point index.
     */
    lemma KatakanaHopEndsWithRun(reached: seq<bool>, i: nat)
      requires Valid() && i < |chars| && i <= |reached| && KatakanaWord(reached, i)
      ensures
        var h := Hops(reached, i);
        h[|h| - 1].length == Run(i, MAX_KATAKANA_GROUP_LENGTH) <==> forall k :: 0 <= k < i ==> chars[k] < 0x10000
    {
      UnitIndexExceeds(i);
    }
  }

  /** The words of the dictionary are tried, and the character at 255, unless it is Hangul or a word of its own. */
  lemma CandidatesMeaning(t: Text, i: nat, w: Word)
    requires t.Valid() && i < |t.chars|
    ensures w in t.Candidates(i) <==>
      || w in t.words[i]
      || (w == Word(1, 255) && !(0xac00 <= t.chars[i] <= 0xd7a3) && forall v :: v in t.words[i] ==> v.length != 1)
  {
    if t.words[i] != [] && t.words[i][0].length == 1 { assert t.words[i][0] in t.words[i]; }
    if t.words[i] != [] && t.words[i][0].length != 1 { assert t.words[i][0].length > 1; }
  }

  /** Three ranges: the middle dot and what lies before the small letters do not belong to a run. */
  lemma KatakanaRanges(c: int)
    ensures IsKatakana(c) <==> 0x30a1 <= c <= 0x30fa || 0x30fc <= c <= 0x30fe || 0xff66 <= c <= 0xff9f
  {
  }

  /** Position `j` is the last one before `i` that was reached. */
  ghost predicate LastReached(reached: seq<bool>, j: nat, i: nat) {
    j < i <= |reached| && reached[j] && forall l :: j < l < i ==> !reached[l]
  }

  lemma {:induction false} PrevKatakanaMeaning(t: Text, reached: seq<bool>, i: nat)
    requires i <= |reached| && i <= |t.chars|
    ensures t.PrevKatakana(reached, i) <==> exists j: nat :: LastReached(reached, j, i) && IsKatakana(t.chars[j])
    decreases i
  {
    hide IsKatakana;
    if i > 0 {
      PrevKatakanaMeaning(t, reached, i - 1);
      LastReachedStep(reached, i);
    }
  }

  lemma LastReachedStep(reached: seq<bool>, i: nat)
    requires 0 < i <= |reached|
    ensures reached[i - 1] ==> forall j: nat :: LastReached(reached, j, i) <==> j == i - 1
    ensures !reached[i - 1] ==> forall j: nat :: LastReached(reached, j, i) <==> LastReached(reached, j, i - 1)
  {
    forall j: nat
      ensures if reached[i - 1] then LastReached(reached, j, i) <==> j == i - 1
              else LastReached(reached, j, i) <==> LastReached(reached, j, i - 1)
    {
      if reached[i - 1] && j < i - 1 { assert !LastReached(reached, j, i); }
    }
  }

  /** The characters from `i` on are `r` Katakana, no more and no less. */
  ghost predicate KatakanaFor(t: Text, i: nat, r: nat) {
    && i + r <= |t.chars| && (forall k :: i <= k < i + r ==> IsKatakana(t.chars[k]))
    && (i + r < |t.chars| ==> !IsKatakana(t.chars[i + r]))
  }

  lemma RunMeaning(t: Text, i: nat, r: nat)
    requires i < |t.chars|
    ensures 1 <= r <= 19 && KatakanaFor(t, i, r) <==>
      IsKatakana(t.chars[i]) && r == t.Run(i, MAX_KATAKANA_GROUP_LENGTH) < MAX_KATAKANA_GROUP_LENGTH
  {
    hide IsKatakana, Text.Run;
    if 1 <= r <= 19 && KatakanaFor(t, i, r) { RunIs(t, i, MAX_KATAKANA_GROUP_LENGTH, r); }
    RunStarts(t, i);
  }

  lemma RunStarts(t: Text, i: nat)
    requires i < |t.chars|
    ensures IsKatakana(t.chars[i]) <==> t.Run(i, MAX_KATAKANA_GROUP_LENGTH) > 0
  {
    hide IsKatakana;
  }

  lemma WordAdded(c: seq<Word>, h: seq<Word>, w: Word)
    requires |h| <= |c| + 1 && |c| <= |h| && forall k :: 0 <= k < |c| ==> h[k] == c[k]
    ensures w in h <==> w in c || (|h| == |c| + 1 && w == h[|c|])
  {
    if |h| == |c| { assert h == c; } else { assert h == c + [h[|c|]]; }
  }

  lemma RunOrNot(t: Text, reached: seq<bool>, i: nat, w: Word)
    requires t.Valid() && t.Straight() && i < |t.chars| && i <= |reached|
    ensures
      var run := t.Run(i, MAX_KATAKANA_GROUP_LENGTH);
      w in t.Hops(reached, i) <==>
        || w in t.Candidates(i)
        || (IsKatakana(t.chars[i]) && !t.PrevKatakana(reached, i) && run < MAX_KATAKANA_GROUP_LENGTH
            && w == Word(run, KatakanaCost(run)))
  {
    KatakanaHop(t, reached, i);
    if IsKatakana(t.chars[i]) { t.UnitIndexStraight(i); }
    hide Text.Candidates, Text.Hops, Text.Valid, Text.Straight, KatakanaCost, IsKatakana, Text.PrevKatakana, Text.Run,
      Text.UnitIndex;
    forall m | 0 <= m < |t.Candidates(i)| ensures m < |t.Hops(reached, i)| && t.Hops(reached, i)[m] == t.Candidates(i)[m] {
      HopIsCandidate(t, reached, i, m);
    }
    WordAdded(t.Candidates(i), t.Hops(reached, i), w);
  }

  /** In text in which no supplementary character is before Katakana, so is a run of up to 19 Katakana as a whole. */
  lemma HopsMeaning(t: Text, reached: seq<bool>, i: nat, w: Word)
    requires t.Valid() && t.Straight() && i < |t.chars| && i <= |reached|
    ensures w in t.Hops(reached, i) <==>
      || w in t.Candidates(i)
      || ((forall j: nat :: LastReached(reached, j, i) ==> !IsKatakana(t.chars[j]))
          && exists r: nat :: 1 <= r <= 19 && KatakanaFor(t, i, r) && w == Word(r, KatakanaCost(r)))
  {
    hide Text.Candidates, Text.Hops, Text.Valid, Text.Straight, KatakanaCost, IsKatakana, LastReached, Text.PrevKatakana,
      KatakanaFor, Text.Run;
    PrevKatakanaMeaning(t, reached, i);
    RunOrNot(t, reached, i, w);
    forall r: nat ensures 1 <= r <= 19 && KatakanaFor(t, i, r) <==>
      IsKatakana(t.chars[i]) && r == t.Run(i, MAX_KATAKANA_GROUP_LENGTH) < MAX_KATAKANA_GROUP_LENGTH
    {
      RunMeaning(t, i, r);
    }
  }

  /** An ideograph beyond the BMP, two Katakana, an ideograph: the run of two is taken to end after the last ideograph. */
  lemma KatakanaHopOvershoots()
    ensures
      var t := Text([0x20000, 0x30a2, 0x30a2, 0x4e00], [[], [], [], []]);
      t.Valid() && t.Run(1, MAX_KATAKANA_GROUP_LENGTH) == 2 && t.Hops([true], 1) == [Word(1, MAX_SNLP), Word(3, 408)]
  {
    var t := Text([0x20000, 0x30a2, 0x30a2, 0x4e00], [[], [], [], []]);
    assert t.Run(3, 18) == 0 && t.Run(2, 19) == 1;
    assert t.UnitIndex(0) == 0 && t.UnitIndex(1) == 2;
    assert t.PrevKatakana([true], 1) == IsKatakana(0x20000);
  }

  // ---------------------------------------------------------------------------------------------
  // Segmentations.

  /** A way from the start of the text: hop `m` of those at position `at`, after the way to `at`. */
  datatype Path = Start | Then(before: Path, at: nat, m: nat)

  /** The path leads from 0 to `to`, by hops from positions that were reached. */
  ghost predicate Leads(t: Text, reached: seq<bool>, path: Path, to: nat)
    requires t.Valid() && |reached| <= |t.chars|
  {
    match path
    case Start => to == 0
    case Then(before, at, m) =>
      && at < |reached|
      && m < |t.Hops(reached, at)|
      && to == at + t.Hops(reached, at)[m].length
      && Leads(t, reached, before, at)
  }

  ghost function Cost(t: Text, reached: seq<bool>, path: Path, to: nat): nat
    requires t.Valid() && |reached| <= |t.chars| && Leads(t, reached, path, to)
  {
    match path
    case Start => 0
    case Then(before, at, m) => Cost(t, reached, before, at) + t.Hops(reached, at)[m].cost
  }

  /** The ends of the words of a path, last word first. */
  ghost function Ends(path: Path, to: nat): seq<nat> {
    match path
    case Start => []
    case Then(before, at, m) => [to] + Ends(before, at)
  }

  /** There is a segmentation up to `to`. */
  ghost predicate HasPath(t: Text, reached: seq<bool>, to: nat)
    requires t.Valid() && |reached| <= |t.chars|
  {
    exists path :: Leads(t, reached, path, to)
  }

  /** A position counts as reached if and only if there is a segmentation up to it. */
  ghost predicate Reachable(t: Text, reached: seq<bool>)
    requires t.Valid() && |reached| == |t.chars|
  {
    forall k :: 0 <= k < |reached| ==> (reached[k] <==> HasPath(t, reached, k))
  }

  /** Every segmentation costs less than 2^32 - 1, whichever positions count as reached. */
  ghost predicate SumsFit(t: Text)
    requires t.Valid()
  {
    forall reached, path, to :: |reached| <= |t.chars| && Leads(t, reached, path, to) ==>
      Cost(t, reached, path, to) < KUINT32_MAX
  }

  /** What `n` characters cost at `dear` each. */
  ghost function Total(dear: nat, n: nat): nat { dear * n }

  /** No word costs more than `dear` for each of its characters. */
  ghost predicate Cheap(t: Text, dear: nat) {
    && 984 <= dear
    && forall i, l :: 0 <= i < |t.words| && 0 <= l < |t.words[i]| ==>
         t.words[i][l].cost <= Total(dear, t.words[i][l].length)
  }

  lemma {:induction false} TotalGrows(dear: nat, n: nat, k: nat)
    ensures Total(dear, n + k) == Total(dear, n) + Total(dear, k)
  {
    assert dear * (n + k) == dear * n + dear * k;
  }

  lemma KatakanaIsCheap(dear: nat, run: nat, length: nat)
    requires 984 <= dear && 0 < run <= length
    ensures KatakanaCost(run) <= Total(dear, length)
  {
    var d, n := dear - 984, length - run;
    assert Total(dear, length) == 984 * run + 984 * n + d * length;
    assert d * length >= 0;
  }

  lemma HopIsCheap(t: Text, dear: nat, reached: seq<bool>, i: nat, l: nat)
    requires t.Valid() && Cheap(t, dear) && i < |t.chars| && i <= |reached| && l < |t.Hops(reached, i)|
    ensures t.Hops(reached, i)[l].cost <= Total(dear, t.Hops(reached, i)[l].length)
  {
    hide Text.UnitIndex, Text.Run, Text.PrevKatakana, Total;
    var h := t.Hops(reached, i)[l];
    if l < |t.words[i]| {
      assert h == t.words[i][l];
    } else if l < |t.Candidates(i)| {
      KatakanaIsCheap(dear, 1, 1);
      assert KatakanaCost(1) == 984;
    } else {
      KatakanaIsCheap(dear, t.Run(i, MAX_KATAKANA_GROUP_LENGTH), h.length);
    }
  }

  lemma {:induction false} PathIsCheap(t: Text, dear: nat, reached: seq<bool>, path: Path, to: nat)
    requires t.Valid() && Cheap(t, dear) && |reached| <= |t.chars| && Leads(t, reached, path, to)
    ensures to <= |t.chars| && Cost(t, reached, path, to) <= Total(dear, to)
  {
    hide Text.Valid, Text.Hops, Total, Cheap;
    if path.Then? {
      PathIsCheap(t, dear, reached, path.before, path.at);
      HopIsCheap(t, dear, reached, path.at, path.m);
      TotalGrows(dear, path.at, to - path.at);
    }
  }

  /** Sums fit if `dear` for each character does. Katakana runs allow for 984 or more, so for four million characters. */
  lemma CheapTextFits(t: Text, dear: nat)
    requires t.Valid() && Cheap(t, dear) && dear * |t.chars| < KUINT32_MAX
    ensures SumsFit(t)
  {
    hide Text.Valid, Text.Hops, Cheap;
    forall reached, path, to | |reached| <= |t.chars| && Leads(t, reached, path, to)
      ensures Cost(t, reached, path, to) < KUINT32_MAX
    {
      PathIsCheap(t, dear, reached, path, to);
      TotalGrows(dear, to, |t.chars| - to);
    }
  }

  // ---------------------------------------------------------------------------------------------
  // The table of best costs.

  /** How a position was last reached at less cost: by hop `m` at `at`. */
  datatype Step = Step(at: nat, m: nat)

  /** Hop `l` from `k` does not lead to less cost than is on record. */
  ghost predicate Tried(t: Text, reached: seq<bool>, best: seq<nat>, k: nat, l: nat)
    requires t.Valid() && k < |reached| <= |t.chars| && |best| == |t.chars| + 1 && l < |t.Hops(reached, k)|
  {
    best[k + t.Hops(reached, k)[l].length] <= best[k] + t.Hops(reached, k)[l].cost
  }

  /** Of the positions in `reached`, all hops have been tried, of the last one only the first `m`. */
  ghost predicate Relaxed(t: Text, reached: seq<bool>, best: seq<nat>, m: nat)
    requires t.Valid() && |reached| <= |t.chars| && |best| == |t.chars| + 1
  {
    forall k, l :: 0 <= k < |reached| && reached[k] && 0 <= l < |t.Hops(reached, k)| && (k + 1 < |reached| || l < m) ==>
      Tried(t, reached, best, k, l)
  }

  /** The step recorded for `j` accounts for its cost. */
  ghost predicate Justified(t: Text, reached: seq<bool>, best: seq<nat>, steps: seq<Step>, j: nat)
    requires t.Valid() && |reached| <= |t.chars| && j < |best| == |steps| == |t.chars| + 1
  {
    var s := steps[j];
    && s.at < j && s.at < |reached| && reached[s.at]
    && s.m < |t.Hops(reached, s.at)|
    && j == s.at + t.Hops(reached, s.at)[s.m].length
    && best[j] == best[s.at] + t.Hops(reached, s.at)[s.m].cost
  }

  ghost predicate Inv(t: Text, reached: seq<bool>, best: seq<nat>, steps: seq<Step>, m: nat)
    requires t.Valid()
  {
    && |reached| <= |t.chars| && |best| == |steps| == |t.chars| + 1
    && best[0] == 0
    && (forall k :: 0 <= k < |reached| ==> (reached[k] <==> best[k] != KUINT32_MAX))
    && (forall j :: 0 <= j <= |t.chars| ==> best[j] <= KUINT32_MAX)
    && (forall j :: 0 < j <= |t.chars| && best[j] != KUINT32_MAX ==> Justified(t, reached, best, steps, j))
    && Relaxed(t, reached, best, m)
  }

  lemma Begins(t: Text, best: seq<nat>, steps: seq<Step>)
    requires t.Valid() && |best| == |steps| == |t.chars| + 1
    requires best[0] == 0 && forall j :: 0 < j <= |t.chars| ==> best[j] == KUINT32_MAX
    ensures Inv(t, [], best, steps, 0)
  {
  }

  /** What is known of a position stays so when more positions are known, or others get cheaper. */
  lemma Kept(t: Text, reached: seq<bool>, next: seq<bool>, best: seq<nat>, best': seq<nat>, k: nat)
    requires t.Valid() && |reached| <= |next| <= |t.chars| && |best| == |best'| == |t.chars| + 1
    requires forall j :: 0 <= j < |reached| ==> next[j] == reached[j] && best'[j] == best[j]
    requires forall j :: 0 <= j < |best| ==> best'[j] <= best[j]
    requires k < |reached|
    ensures t.Hops(next, k) == t.Hops(reached, k)
    ensures forall l :: 0 <= l < |t.Hops(next, k)| && Tried(t, reached, best, k, l) ==> Tried(t, next, best', k, l)
  {
    hide Text.Valid, Text.Hops;
    t.HopsFrame(reached, next, k);
  }

  lemma KeptStep(t: Text, reached: seq<bool>, next: seq<bool>, best: seq<nat>, best': seq<nat>,
                 steps: seq<Step>, steps': seq<Step>, j: nat)
    requires t.Valid() && |reached| <= |next| <= |t.chars|
    requires |best| == |best'| == |steps| == |steps'| == |t.chars| + 1
    requires forall j :: 0 <= j < |reached| ==> next[j] == reached[j] && best'[j] == best[j]
    requires j < |best| && best'[j] == best[j] && steps'[j] == steps[j] && Justified(t, reached, best, steps, j)
    ensures Justified(t, next, best', steps', j)
  {
    hide Text.Valid, Text.Hops;
    t.HopsFrame(reached, next, steps[j].at);
  }

  /** The work moves on to the next position. */
  lemma MovesOn(t: Text, reached: seq<bool>, best: seq<nat>, steps: seq<Step>, m: nat, next: seq<bool>)
    requires t.Valid() && Inv(t, reached, best, steps, m) && |reached| < |t.chars|
    requires |reached| > 0 && reached[|reached| - 1] ==> m >= |t.Hops(reached, |reached| - 1)|
    requires next == reached + [best[|reached|] != KUINT32_MAX]
    ensures Inv(t, next, best, steps, 0)
  {
    hide Text.Valid, Text.Hops, Tried, Justified;
    forall k | 0 <= k < |reached|
      ensures t.Hops(next, k) == t.Hops(reached, k)
      ensures forall l :: 0 <= l < |t.Hops(next, k)| && Tried(t, reached, best, k, l) ==> Tried(t, next, best, k, l)
    {
      Kept(t, reached, next, best, best, k);
    }
    forall j | 0 < j <= |t.chars| && best[j] != KUINT32_MAX ensures Justified(t, next, best, steps, j) {
      KeptStep(t, reached, next, best, best, steps, steps, j);
    }
  }

  lemma Recording(t: Text, reached: seq<bool>, best: seq<nat>, steps: seq<Step>, i: nat, m: nat, h: Word)
    requires t.Valid() && |reached| <= |t.chars| && i < |reached| && reached[i]
    requires |best| == |steps| == |t.chars| + 1 && m < |t.Hops(reached, i)| && h == t.Hops(reached, i)[m]
    requires best[i + h.length] == best[i] + h.cost && steps[i + h.length] == Step(i, m)
    ensures Justified(t, reached, best, steps, i + h.length)
  {
    hide Text.Valid, Text.Hops;
  }

  lemma Trying(t: Text, reached: seq<bool>, best: seq<nat>, k: nat, l: nat)
    requires t.Valid() && k < |reached| <= |t.chars| && |best| == |t.chars| + 1 && l < |t.Hops(reached, k)|
    requires best[k + t.Hops(reached, k)[l].length] <= best[k] + t.Hops(reached, k)[l].cost
    ensures Tried(t, reached, best, k, l)
  {
    hide Text.Valid, Text.Hops;
  }

  /** One more hop from the last position is tried. */
  lemma Relax(t: Text, reached: seq<bool>, best: seq<nat>, steps: seq<Step>, m: nat,
              h: Word, best': seq<nat>, steps': seq<Step>)
    requires t.Valid() && SumsFit(t) && Inv(t, reached, best, steps, m)
    requires |reached| > 0 && reached[|reached| - 1] && m < |t.Hops(reached, |reached| - 1)|
    requires h == t.Hops(reached, |reached| - 1)[m]
    requires
      var i := |reached| - 1;
      var sum := best[i] + h.cost;
      if sum < best[i + h.length] then best' == best[i + h.length := sum] && steps' == steps[i + h.length := Step(i, m)]
      else best' == best && steps' == steps
    ensures Inv(t, reached, best', steps', m + 1)
  {
    hide Text.Valid, Text.Hops, SumsFit, Tried, Justified;
    var i := |reached| - 1;
    var j := i + h.length;
    assert h.length > 0;
    forall k | 0 < k <= |t.chars| && best'[k] != KUINT32_MAX ensures Justified(t, reached, best', steps', k) {
      if best'[k] == best[k] && steps'[k] == steps[k] {
        KeptStep(t, reached, reached, best, best', steps, steps', k);
      } else {
        Recording(t, reached, best', steps', i, m, h);
      }
    }
    forall k | 0 <= k < |reached|
      ensures forall l :: 0 <= l < |t.Hops(reached, k)| && Tried(t, reached, best, k, l) ==> Tried(t, reached, best', k, l)
    {
      Kept(t, reached, reached, best, best', k);
    }
    Trying(t, reached, best', i, m);
  }

  lemma HopRelaxed(t: Text, reached: seq<bool>, best: seq<nat>, steps: seq<Step>, m: nat, at: nat, l: nat)
    requires t.Valid() && Inv(t, reached, best, steps, m)
    requires |reached| > 0 && reached[|reached| - 1] ==> m >= |t.Hops(reached, |reached| - 1)|
    requires at < |reached| && best[at] < KUINT32_MAX && l < |t.Hops(reached, at)|
    ensures best[at + t.Hops(reached, at)[l].length] <= best[at] + t.Hops(reached, at)[l].cost
  {
    hide Text.Valid, Text.Hops, Justified;
    assert reached[at] && Tried(t, reached, best, at, l);
  }

  /** No path is cheaper than the cost on record. */
  lemma {:induction false} Optimal(t: Text, reached: seq<bool>, best: seq<nat>, steps: seq<Step>, m: nat,
                                   path: Path, to: nat)
    requires t.Valid() && SumsFit(t) && Inv(t, reached, best, steps, m)
    requires |reached| > 0 && reached[|reached| - 1] ==> m >= |t.Hops(reached, |reached| - 1)|
    requires Leads(t, reached, path, to)
    ensures to <= |t.chars|
    ensures best[to] <= Cost(t, reached, path, to) && best[to] < KUINT32_MAX
  {
    hide Text.Valid, Text.Hops, Relaxed, Justified;
    match path
    case Start =>
    case Then(before, at, l) =>
      Optimal(t, reached, best, steps, m, before, at);
      HopRelaxed(t, reached, best, steps, m, at, l);
  }

  /** The path that the steps record. */
  ghost function Recorded(t: Text, reached: seq<bool>, best: seq<nat>, steps: seq<Step>, m: nat, to: nat): (p: Path)
    requires t.Valid() && Inv(t, reached, best, steps, m) && to <= |t.chars| && best[to] != KUINT32_MAX
    ensures Leads(t, reached, p, to) && Cost(t, reached, p, to) == best[to]
  {
    if to == 0 then Start
    else
      assert Justified(t, reached, best, steps, to);
      Then(Recorded(t, reached, best, steps, m, steps[to].at), steps[to].at, steps[to].m)
  }

  // ---------------------------------------------------------------------------------------------
  // The dynamic programming.

  /** Sums of costs do not wrap around at 2^32. */
  lemma NoWrap(t: Text, reached: seq<bool>, best: seq<nat>, steps: seq<Step>, m: nat, l: nat)
    requires t.Valid() && SumsFit(t) && Inv(t, reached, best, steps, m)
    requires |reached| > 0 && reached[|reached| - 1] && l < |t.Hops(reached, |reached| - 1)|
    ensures best[|reached| - 1] + t.Hops(reached, |reached| - 1)[l].cost < KUINT32_MAX
  {
    hide Text.Valid, Text.Hops, Relaxed, Justified;
    var i := |reached| - 1;
    var path := Then(Recorded(t, reached, best, steps, m, i), i, l);
    assert Leads(t, reached, path, i + t.Hops(reached, i)[l].length);
  }

  /** The predecessors on record are those of the recorded steps, unless supplementary characters got in the way. */
  ghost predicate Recalls(t: Text, best: seq<nat>, steps: seq<Step>, prev: seq<int>) {
    && |best| == |steps| == |prev| == |t.chars| + 1
    && (forall j :: 0 <= j < |prev| ==> -1 <= prev[j] < j || prev[j] == -1)
    && (t.Straight() ==> forall j :: 0 < j < |prev| && best[j] != KUINT32_MAX ==> prev[j] == steps[j].at)
  }

  /** The words from the dictionary, or the single character, are tried at position `i`. */
  method TryWords(t: Text, i: nat, best: array<nat>, prev: array<int>, ghost reached: seq<bool>, ghost steps: seq<Step>)
    returns (ghost steps': seq<Step>)
    requires t.Valid() && SumsFit(t) && best != prev as object
    requires |reached| == i + 1 && reached[i] && Inv(t, reached, best[..], steps, 0)
    requires Recalls(t, best[..], steps, prev[..])
    modifies best, prev
    ensures Inv(t, reached, best[..], steps', |t.Candidates(i)|)
    ensures Recalls(t, best[..], steps', prev[..])
  {
    hide Text.Valid, Text.Hops, SumsFit, Text.Candidates, Relaxed, Justified;
    steps' := steps;
    var c := t.Candidates(i);
    var m := 0;
    while m < |c|
      invariant 0 <= m <= |c|
      invariant Inv(t, reached, best[..], steps', m)
      invariant Recalls(t, best[..], steps', prev[..])
    {
      ghost var b, p := best[..], prev[..];
      HopIsCandidate(t, reached, i, m);
      NoWrap(t, reached, b, steps', m, m);
      var newSnlp: nat := (best[i] + c[m].cost) % 0x1_0000_0000;
      var j := i + c[m].length;
      if newSnlp < best[j] {
        best[j] := newSnlp;
        prev[j] := i;
        assert best[..] == b[j := newSnlp] && prev[..] == p[j := i];
        Relax(t, reached, b, steps', m, c[m], best[..], steps'[j := Step(i, m)]);
        steps' := steps'[j := Step(i, m)];
      } else {
        Relax(t, reached, b, steps', m, c[m], best[..], steps');
      }
      m := m + 1;
    }
  }

  lemma HopIsCandidate(t: Text, reached: seq<bool>, i: nat, m: nat)
    requires t.Valid() && i < |t.chars| && i <= |reached| && m < |t.Candidates(i)|
    ensures m < |t.Hops(reached, i)| && t.Hops(reached, i)[m] == t.Candidates(i)[m]
    ensures |t.Hops(reached, i)| == |t.Candidates(i)| + if t.KatakanaWord(reached, i) then 1 else 0
  {
    hide Text.Valid, Text.Candidates, Text.KatakanaWord, Text.UnitIndex, Text.Run;
  }

  lemma {:induction false} RunIs(t: Text, i: nat, max: nat, r: nat)
    requires i + r <= |t.chars| && r <= max
    requires forall k :: i <= k < i + r ==> IsKatakana(t.chars[k])
    requires r == max || i + r == |t.chars| || !IsKatakana(t.chars[i + r])
    ensures t.Run(i, max) == r
    decreases max
  {
    if r > 0 { RunIs(t, i + 1, max - 1, r - 1); }
  }

  /** The run of Katakana from position `i` on is tried as a word, if it starts there. */
  method TryKatakana(t: Text, i: nat, ix: nat, isPrevKatakana: bool, best: array<nat>, prev: array<int>,
                     ghost reached: seq<bool>, ghost steps: seq<Step>) returns (ghost steps': seq<Step>)
    requires t.Valid() && SumsFit(t) && best != prev as object
    requires i < |t.chars|
    requires |reached| == i + 1 && reached[i] && Inv(t, reached, best[..], steps, |t.Candidates(i)|)
    requires Recalls(t, best[..], steps, prev[..])
    requires ix == t.UnitIndex(i) && isPrevKatakana == t.PrevKatakana(reached, i)
    modifies best, prev
    ensures Inv(t, reached, best[..], steps', |t.Hops(reached, i)|)
    ensures Recalls(t, best[..], steps', prev[..])
  {
    hide Text.Valid, Text.Hops, SumsFit, Text.Candidates, Relaxed, Justified, Text.UnitIndex, Text.Run,
      Text.PrevKatakana, Text.KatakanaWord, KatakanaCost, IsKatakana;
    steps' := steps;
    KatakanaHop(t, reached, i);
    if !isPrevKatakana && IsKatakana(t.chars[i]) {
      var katakanaRunLength := 1;
      while i + katakanaRunLength < |t.chars| && katakanaRunLength < MAX_KATAKANA_GROUP_LENGTH &&
            IsKatakana(t.chars[i + katakanaRunLength])
        invariant 1 <= katakanaRunLength <= MAX_KATAKANA_GROUP_LENGTH && i + katakanaRunLength <= |t.chars|
        invariant forall k :: i <= k < i + katakanaRunLength ==> IsKatakana(t.chars[k])
      {
        katakanaRunLength := katakanaRunLength + 1;
      }
      RunIs(t, i, MAX_KATAKANA_GROUP_LENGTH, katakanaRunLength);
      if katakanaRunLength < MAX_KATAKANA_GROUP_LENGTH {
        var j := ix + katakanaRunLength;
        ghost var b, p, m := best[..], prev[..], |t.Candidates(i)|;
        if j < best.Length { NoWrap(t, reached, b, steps, m, m); }
        var newSnlp: nat := (best[i] + KatakanaCost(katakanaRunLength)) % 0x1_0000_0000;
        // Beyond the end of the table, 0 is read and nothing is written.
        var bestThere: nat := if j < best.Length then best[j] else 0;
        ghost var h := Word(j - i, KatakanaCost(katakanaRunLength));
        if newSnlp < bestThere {
          best[j] := newSnlp;
          prev[i + katakanaRunLength] := i;
          steps' := steps[j := Step(i, m)];
          assert best[..] == b[j := newSnlp] && prev[..] == p[i + katakanaRunLength := i];
          Relax(t, reached, b, steps, m, h, best[..], steps');
          if t.Straight() { t.UnitIndexStraight(i); }
        } else if j < best.Length {
          Relax(t, reached, b, steps, m, h, best[..], steps');
        }
      }
    }
  }

  /** What the hops are, in terms of the run of Katakana. */
  lemma KatakanaHop(t: Text, reached: seq<bool>, i: nat)
    requires t.Valid() && i < |t.chars| && i <= |reached|
    ensures
      var h, run, m := t.Hops(reached, i), t.Run(i, MAX_KATAKANA_GROUP_LENGTH), |t.Candidates(i)|;
      if IsKatakana(t.chars[i]) && !t.PrevKatakana(reached, i) && run < MAX_KATAKANA_GROUP_LENGTH &&
         t.UnitIndex(i) + run <= |t.chars|
      then |h| == m + 1 && h[m] == Word(t.UnitIndex(i) + run - i, KatakanaCost(run))
      else |h| == m
  {
    hide Text.Valid, SumsFit, Text.Candidates, Text.UnitIndex, Text.Run, Text.PrevKatakana, KatakanaCost,
      IsKatakana;
  }

  /**
   The dynamic programming: for every position the least cost of a segmentation up to it, or 2^32 - 1
   if there is none, and the position before it in a segmentation of that cost.
   */
  method Solve(t: Text)
    returns (best: array<nat>, prev: array<int>, ghost reached: seq<bool>, ghost steps: seq<Step>, ghost m: nat)
    requires t.Valid() && SumsFit(t)
    ensures fresh(best) && fresh(prev)
    ensures Inv(t, reached, best[..], steps, m) && |reached| == |t.chars|
    ensures |reached| > 0 && reached[|reached| - 1] ==> m >= |t.Hops(reached, |reached| - 1)|
    ensures Recalls(t, best[..], steps, prev[..])
  {
    hide Text.Valid, Text.Hops, SumsFit, Text.Candidates, Relaxed, Justified, Text.UnitIndex, Text.Run,
      Text.KatakanaWord, KatakanaCost, IsKatakana;
    var n := |t.chars|;
    best := new nat[n + 1](k => if k == 0 then 0 else KUINT32_MAX);
    prev := new int[n + 1](_ => -1);
    reached, m := [], 0;
    steps := seq(n + 1, _ => Step(0, 0));
    Begins(t, best[..], steps);
    AtTheStart(t);
    var ix := 0;
    var isPrevKatakana := false;
    for i := 0 to n
      invariant |reached| == i && ix == t.UnitIndex(i) && isPrevKatakana == t.PrevKatakana(reached, i)
      invariant fresh(best) && fresh(prev) && best != prev as object
      invariant Inv(t, reached, best[..], steps, m)
      invariant i > 0 && reached[i - 1] ==> m >= |t.Hops(reached, i - 1)|
      invariant Recalls(t, best[..], steps, prev[..])
    {
      ghost var next := reached + [best[i] != KUINT32_MAX];
      MovesOn(t, reached, best[..], steps, m, next);
      t.PrevKatakanaFrame(reached, next, i);
      reached, m := next, 0;
      if best[i] != KUINT32_MAX {
        steps := TryWords(t, i, best, prev, reached, steps);
        steps := TryKatakana(t, i, ix, isPrevKatakana, best, prev, reached, steps);
        m := |t.Hops(reached, i)|;
        isPrevKatakana := IsKatakana(t.chars[i]);
      }
      ix := ix + if t.chars[i] >= 0x10000 then 2 else 1;
      UnitIndexNext(t, i);
    }
  }

  lemma AtTheStart(t: Text)
    ensures t.UnitIndex(0) == 0 && !t.PrevKatakana([], 0)
  {
  }

  lemma UnitIndexNext(t: Text, i: nat)
    requires i < |t.chars|
    ensures t.UnitIndex(i + 1) == t.UnitIndex(i) + if t.chars[i] >= 0x10000 then 2 else 1
  {
  }

  // ---------------------------------------------------------------------------------------------
  // What the table means.

  /** All hops from all positions have been tried. */
  ghost predicate Solved(t: Text, reached: seq<bool>, best: seq<nat>, steps: seq<Step>, m: nat)
    requires t.Valid()
  {
    && SumsFit(t) && Inv(t, reached, best, steps, m) && |reached| == |t.chars|
    && (|reached| > 0 && reached[|reached| - 1] ==> m >= |t.Hops(reached, |reached| - 1)|)
  }

  /**
   For every position: the entry is 2^32 - 1 if and only if no segmentation ends there, and otherwise
   it is the cost of one that ends there, and no segmentation that ends there costs less.
   */
  lemma BestIsMinimum(t: Text, reached: seq<bool>, best: seq<nat>, steps: seq<Step>, m: nat, to: nat)
    requires t.Valid() && Solved(t, reached, best, steps, m) && to <= |t.chars|
    ensures best[to] != KUINT32_MAX <==> HasPath(t, reached, to)
    ensures best[to] != KUINT32_MAX ==> exists path :: Leads(t, reached, path, to) && Cost(t, reached, path, to) == best[to]
    ensures forall path :: Leads(t, reached, path, to) ==> best[to] <= Cost(t, reached, path, to)
  {
    hide Text.Valid, Text.Hops, Relaxed, Justified, SumsFit;
    if best[to] != KUINT32_MAX {
      var p := Recorded(t, reached, best, steps, m, to);
      assert Leads(t, reached, p, to) && Cost(t, reached, p, to) == best[to];
    }
    forall path | Leads(t, reached, path, to)
      ensures best[to] != KUINT32_MAX && best[to] <= Cost(t, reached, path, to)
    {
      Optimal(t, reached, best, steps, m, path, to);
    }
  }

  /** The positions from which the search goes on are exactly those where a segmentation ends. */
  lemma ReachedMeansReachable(t: Text, reached: seq<bool>, best: seq<nat>, steps: seq<Step>, m: nat)
    requires t.Valid() && Solved(t, reached, best, steps, m)
    ensures Reachable(t, reached)
  {
    hide Text.Valid, Text.Hops, Relaxed, Justified, SumsFit, Leads;
    forall k | 0 <= k < |reached| ensures reached[k] <==> HasPath(t, reached, k) {
      BestIsMinimum(t, reached, best, steps, m, k);
    }
  }

  /** Text without Hangul can be segmented up to every position. */
  lemma {:induction false} NoHangulReached(t: Text, reached: seq<bool>, best: seq<nat>, steps: seq<Step>, m: nat,
                                           to: nat)
    requires t.Valid() && Solved(t, reached, best, steps, m) && to <= |t.chars|
    requires forall k :: 0 <= k < to ==> !IsHangul(t.chars[k])
    ensures best[to] != KUINT32_MAX
  {
    hide Text.Valid, Text.Hops, Relaxed, Justified, SumsFit, IsHangul;
    if to > 0 {
      NoHangulReached(t, reached, best, steps, m, to - 1);
      var l := t.SingleHop(reached, to - 1);
      var p := Recorded(t, reached, best, steps, m, to - 1);
      Optimal(t, reached, best, steps, m, Then(p, to - 1, l), to);
    }
  }

  // ---------------------------------------------------------------------------------------------
  // From the table to the boundaries.

  /** The ends of the words that the steps record, last first. */
  ghost predicate Bounds(b: seq<nat>, n: nat) {
    && (forall k :: 0 <= k < |b| ==> 0 < b[k] <= n)
    && (forall k, l :: 0 <= k < l < |b| ==> b[k] > b[l])
    && (|b| > 0 <==> n > 0) && (|b| > 0 ==> b[0] == n)
  }

  lemma LastStep(t: Text, reached: seq<bool>, best: seq<nat>, steps: seq<Step>, m: nat, i: nat)
    requires t.Valid() && Inv(t, reached, best, steps, m) && 0 < i <= |t.chars| && best[i] != KUINT32_MAX
    ensures steps[i].at < i && best[steps[i].at] != KUINT32_MAX
    ensures Ends(Recorded(t, reached, best, steps, m, i), i)
      == [i] + Ends(Recorded(t, reached, best, steps, m, steps[i].at), steps[i].at)
  {
    hide Text.Valid, Text.Hops, Relaxed, SumsFit, Leads, Cost;
    assert Justified(t, reached, best, steps, i);
  }

  /** The positions met when `prev` is followed from `i` on. */
  ghost function Trail(prev: seq<int>, i: int): (b: seq<nat>)
    requires i < |prev| && forall j :: 0 < j < |prev| ==> prev[j] < j
    decreases if i > 0 then i else 0
  {
    if i <= 0 then [] else [i] + Trail(prev, prev[i])
  }

  lemma {:induction false} TrailBounds(prev: seq<int>, i: int)
    requires i < |prev| && forall j :: 0 < j < |prev| ==> prev[j] < j
    ensures Bounds(Trail(prev, i), if i > 0 then i else 0)
    decreases if i > 0 then i else 0
  {
    if i > 0 { TrailBounds(prev, prev[i]); }
  }

  /** Where the predecessors are those of the recorded steps, the trail is the recorded path. */
  lemma {:induction false} TrailIsRecorded(t: Text, reached: seq<bool>, best: seq<nat>, steps: seq<Step>, m: nat,
                                           prev: seq<int>, i: nat)
    requires t.Valid() && Inv(t, reached, best, steps, m) && Recalls(t, best, steps, prev) && t.Straight()
    requires i <= |t.chars| && best[i] != KUINT32_MAX
    ensures Trail(prev, i) == Ends(Recorded(t, reached, best, steps, m, i), i)
  {
    hide Text.Valid, Text.Hops, Relaxed, Justified, Text.Straight, Leads, Cost, Inv;
    if i > 0 {
      LastStep(t, reached, best, steps, m, i);
      TrailIsRecorded(t, reached, best, steps, m, prev, steps[i].at);
    } else {
      NoStep(t, reached, best, steps, m);
    }
  }

  lemma NoStep(t: Text, reached: seq<bool>, best: seq<nat>, steps: seq<Step>, m: nat)
    requires t.Valid() && Inv(t, reached, best, steps, m)
    ensures best[0] == 0 && Ends(Recorded(t, reached, best, steps, m, 0), 0) == []
  {
    hide Text.Valid, Text.Hops, Relaxed, Justified, Leads, Cost;
  }

  /**
   The boundaries after position 0, last first: the whole text if there is no segmentation. In text
   without supplementary characters before Katakana, they are the ends of the words of a
   segmentation that costs least.
   */
  method Backtrack(t: Text, best: array<nat>, prev: array<int>, ghost reached: seq<bool>, ghost steps: seq<Step>,
                   ghost m: nat) returns (boundary: seq<nat>)
    requires t.Valid() && Solved(t, reached, best[..], steps, m) && Recalls(t, best[..], steps, prev[..])
    ensures Bounds(boundary, |t.chars|)
    ensures best[|t.chars|] == KUINT32_MAX ==> boundary == [|t.chars|]
    ensures t.Straight() && best[|t.chars|] != KUINT32_MAX ==>
      boundary == Ends(Recorded(t, reached, best[..], steps, m, |t.chars|), |t.chars|)
  {
    var n := |t.chars|;
    hide Text.Valid, Text.Hops, Inv, SumsFit, Text.Straight, Leads, Cost, Bounds;
    assert best.Length == n + 1 == prev.Length;
    if best[n] == KUINT32_MAX {
      WholeText(t, reached, best[..], steps, m);
      return [n];
    }
    boundary := [];
    var i: int := n;
    while i > 0
      invariant -1 <= i <= n
      invariant Trail(prev[..], n) == boundary + Trail(prev[..], i)
    {
      boundary := boundary + [i];
      assert prev[..][i] == prev[i];
      i := prev[i];
    }
    assert boundary == Trail(prev[..], n);
    TrailBounds(prev[..], n);
    assert Bounds(boundary, n);
    if t.Straight() {
      TrailIsRecorded(t, reached, best[..], steps, m, prev[..], n);
    }
  }

  lemma WholeText(t: Text, reached: seq<bool>, best: seq<nat>, steps: seq<Step>, m: nat)
    requires t.Valid() && Inv(t, reached, best, steps, m) && best[|t.chars|] == KUINT32_MAX
    ensures Bounds([|t.chars|], |t.chars|)
  {
    hide Text.Valid, Text.Hops, Relaxed, Justified;
  }

  // ---------------------------------------------------------------------------------------------
  // From the boundaries to the breaks.

  /** The native index of every code point index of the text, and of its end. */
  ghost predicate Positions(t: Text, positions: seq<int>) {
    && |positions| == |t.chars| + 1
    && (forall k :: 0 <= k < |positions| ==> positions[k] >= 0)
    && (forall k, l :: 0 <= k < l < |positions| ==> positions[k] <= positions[l])
  }

  /** The boundaries that are converted to breaks, last first: the start of the range is one if the caller lacks it. */
  function WithStart(found: seq<int>, rangeStart: int, boundary: seq<nat>): seq<nat> {
    if found == [] || found[|found| - 1] < rangeStart then boundary + [0] else boundary
  }

  /** The native indexes of the boundaries from the last in `b` down to index `i`, repeats left out. */
  ghost function Pushed(positions: seq<int>, b: seq<nat>, i: nat): seq<int>
    requires i <= |b| && forall k :: 0 <= k < |b| ==> b[k] < |positions|
    decreases |b| - i
  {
    if i == |b| then []
    else if i + 1 < |b| && positions[b[i]] <= positions[b[i + 1]] then Pushed(positions, b, i + 1)
    else Pushed(positions, b, i + 1) + [positions[b[i]]]
  }

  lemma {:induction false} PushedMeaning(positions: seq<int>, b: seq<nat>, i: nat)
    requires i <= |b| && forall k :: 0 <= k < |b| ==> b[k] < |positions|
    requires forall k, l :: i <= k < l < |b| ==> positions[b[k]] >= positions[b[l]]
    ensures
      var p := Pushed(positions, b, i);
      && Ascending(p)
      && (i < |b| ==> |p| > 0 && p[0] == positions[b[|b| - 1]] && p[|p| - 1] == positions[b[i]])
      && (forall k :: i <= k < |b| ==> positions[b[k]] in p)
      && (forall x :: x in p ==> exists k :: i <= k < |b| && positions[b[k]] == x)
    decreases |b| - i
  {
    if i < |b| {
      PushedMeaning(positions, b, i + 1);
      var q := Pushed(positions, b, i + 1);
      var p := Pushed(positions, b, i);
      forall x | x in p ensures exists k :: i <= k < |b| && positions[b[k]] == x {
        if x in q {
          var k :| i + 1 <= k < |b| && positions[b[k]] == x;
        } else {
          assert positions[b[i]] == x;
        }
      }
    }
  }

  lemma InOrder(t: Text, boundary: seq<nat>, positions: seq<int>, b: seq<nat>)
    requires Bounds(boundary, |t.chars|) && Positions(t, positions) && (b == boundary || b == boundary + [0])
    ensures forall k :: 0 <= k < |b| ==> b[k] < |positions|
    ensures forall k, l :: 0 <= k < l < |b| ==> positions[b[k]] >= positions[b[l]]
    ensures forall k :: 0 <= k < |b| ==> positions[b[k]] >= 0
  {
    forall k, l | 0 <= k < l < |b| ensures b[k] > b[l] {
    }
  }

  /** The breaks that are added are the native indexes of the boundaries. */
  ghost predicate BecomeBreaks(found: seq<int>, rangeStart: int, positions: seq<int>, boundary: seq<nat>, added: seq<int>) {
    && |positions| > 0 && (forall k :: 0 <= k < |boundary| ==> boundary[k] < |positions| && positions[boundary[k]] in added)
    && (found == [] || found[|found| - 1] < rangeStart ==> positions[0] in added)
    && (forall x :: x in added ==>
          || (x == positions[0] && (found == [] || found[|found| - 1] < rangeStart))
          || exists k :: 0 <= k < |boundary| && positions[boundary[k]] == x)
  }

  /**
   The boundaries become breaks: the native indexes of the boundaries, each of them once, in ascending order.
   The number of breaks is the number that were added.
   */
  method PushBreaks(t: Text, boundary: seq<nat>, positions: seq<int>, rangeStart: int, foundBreaks: FoundBreaks)
    returns (numBreaks: int, ghost added: seq<int>)
    requires Bounds(boundary, |t.chars|) && Positions(t, positions)
    modifies foundBreaks
    ensures foundBreaks.breaks == old(foundBreaks.breaks) + added && numBreaks == |added|
    ensures Ascending(added)
    ensures BecomeBreaks(old(foundBreaks.breaks), rangeStart, positions, boundary, added)
    ensures positions[0] == rangeStart && UpTo(old(foundBreaks.breaks), rangeStart) ==>
      (Ascending(foundBreaks.breaks) <==> FirstIsNew(old(foundBreaks.breaks), rangeStart, positions, boundary))
  {
    var b := WithStart(foundBreaks.breaks, rangeStart, boundary);
    hide Bounds, Positions, Ascending, WithStart, BecomeBreaks, FirstIsNew, UpTo;
    InOrder(t, boundary, positions, b) by { WithStartMeaning(foundBreaks.breaks, rangeStart, boundary); }
    numBreaks := |b|;
    added := [];
    var prevUTextPos := -1;
    var i := |b|;
    while i > 0
      invariant 0 <= i <= |b|
      invariant foundBreaks.breaks == old(foundBreaks.breaks) + added && numBreaks == |added| + i
      invariant added == Pushed(positions, b, i)
      invariant prevUTextPos == if i == |b| then -1 else positions[b[i]]
    {
      i := i - 1;
      var utextPos := positions[b[i]];
      if utextPos > prevUTextPos {
        foundBreaks.Push(utextPos);
        added := added + [utextPos];
      } else {
        numBreaks := numBreaks - 1;
      }
      prevUTextPos := utextPos;
    }
    AllPushed(t, old(foundBreaks.breaks), rangeStart, positions, boundary, added);
  }

  lemma AllPushed(t: Text, found: seq<int>, rangeStart: int, positions: seq<int>, boundary: seq<nat>, added: seq<int>)
    requires Bounds(boundary, |t.chars|) && Positions(t, positions)
    requires
      var b := WithStart(found, rangeStart, boundary);
      (forall k :: 0 <= k < |b| ==> b[k] < |positions|) && added == Pushed(positions, b, 0)
    ensures Ascending(added) && BecomeBreaks(found, rangeStart, positions, boundary, added)
    ensures positions[0] == rangeStart && UpTo(found, rangeStart) ==>
      (Ascending(found + added) <==> FirstIsNew(found, rangeStart, positions, boundary))
  {
    hide Bounds, Positions, UpTo, FirstIsNew, Pushed, Ascending, WithStart, BecomeBreaks;
    PushedBecome(t, found, rangeStart, positions, boundary, added);
    PositionsCount(t, positions);
    BoundsInside(t, boundary, positions);
    if positions[0] == rangeStart && UpTo(found, rangeStart) {
      BreaksAscend(t, found, rangeStart, positions, boundary, added);
    }
  }

  lemma AllBecome(found: seq<int>, rangeStart: int, positions: seq<int>, boundary: seq<nat>, added: seq<int>)
    requires |positions| > 0
    requires
      var b := WithStart(found, rangeStart, boundary);
      && (forall k :: 0 <= k < |boundary| ==> boundary[k] < |positions|)
      && (forall k :: 0 <= k < |b| ==> b[k] < |positions| && positions[b[k]] in added)
      && (forall x :: x in added ==> exists k :: 0 <= k < |b| && positions[b[k]] == x)
    ensures BecomeBreaks(found, rangeStart, positions, boundary, added)
  {
    var b := WithStart(found, rangeStart, boundary);
    forall k | 0 <= k < |boundary| ensures positions[boundary[k]] in added {
      assert b[k] == boundary[k];
    }
    if found == [] || found[|found| - 1] < rangeStart { assert b[|boundary|] == 0; }
    forall x | x in added
      ensures (x == positions[0] && (found == [] || found[|found| - 1] < rangeStart))
        || exists k :: 0 <= k < |boundary| && positions[boundary[k]] == x
    {
      var k :| 0 <= k < |b| && positions[b[k]] == x;
      if k < |boundary| { assert b[k] == boundary[k]; }
    }
  }

  lemma PushedBecome(t: Text, found: seq<int>, rangeStart: int, positions: seq<int>, boundary: seq<nat>, added: seq<int>)
    requires Bounds(boundary, |t.chars|) && Positions(t, positions)
    requires
      var b := WithStart(found, rangeStart, boundary);
      (forall k :: 0 <= k < |b| ==> b[k] < |positions|) && added == Pushed(positions, b, 0)
    ensures Ascending(added) && BecomeBreaks(found, rangeStart, positions, boundary, added)
  {
    hide *;
    var b := WithStart(found, rangeStart, boundary);
    WithStartMeaning(found, rangeStart, boundary);
    InOrder(t, boundary, positions, b);
    PositionsCount(t, positions);
    BoundsInside(t, boundary, positions);
    PushedMeaning(positions, b, 0);
    AllBecome(found, rangeStart, positions, boundary, added);
  }

  lemma PositionsCount(t: Text, positions: seq<int>)
    requires Positions(t, positions)
    ensures |positions| == |t.chars| + 1
  {
  }

  lemma WithStartMeaning(found: seq<int>, rangeStart: int, boundary: seq<nat>)
    ensures WithStart(found, rangeStart, boundary) in {boundary, boundary + [0]}
  {
  }

  // ---------------------------------------------------------------------------------------------
  // The order of all breaks together.

  /** The breaks so far ascend and do not go beyond the start of the range. */
  ghost predicate UpTo(found: seq<int>, rangeStart: int) {
    Ascending(found) && (found == [] || found[|found| - 1] <= rangeStart)
  }

  /** No break at the start of the range is there already, or the first word goes beyond what the first character became. */
  predicate FirstIsNew(found: seq<int>, rangeStart: int, positions: seq<int>, boundary: seq<nat>)
    requires forall k :: 0 <= k < |boundary| ==> boundary[k] < |positions|
  {
    found == [] || found[|found| - 1] < rangeStart || boundary == [] || rangeStart < positions[boundary[|boundary| - 1]]
  }

  lemma BoundsInside(t: Text, boundary: seq<nat>, positions: seq<int>)
    requires Bounds(boundary, |t.chars|) && |positions| == |t.chars| + 1
    ensures forall k :: 0 <= k < |boundary| ==> boundary[k] < |positions|
  {
  }

  lemma Joined(found: seq<int>, added: seq<int>)
    requires Ascending(found) && Ascending(added)
    ensures Ascending(found + added) <==> found == [] || added == [] || found[|found| - 1] < added[0]
  {
    var all := found + added;
    if found != [] && added != [] {
      assert all[|found| - 1] == found[|found| - 1] && all[|found|] == added[0];
    }
  }

  /** A break at the start of the range is repeated if and only if the first word ends within what the first character became. */
  lemma BreaksAscend(t: Text, found: seq<int>, rangeStart: int, positions: seq<int>, boundary: seq<nat>, added: seq<int>)
    requires Bounds(boundary, |t.chars|) && Positions(t, positions) && positions[0] == rangeStart && UpTo(found, rangeStart)
    requires forall k :: 0 <= k < |boundary| ==> boundary[k] < |positions|
    requires added == Pushed(positions, WithStart(found, rangeStart, boundary), 0)
    ensures Ascending(found + added) <==> FirstIsNew(found, rangeStart, positions, boundary)
  {
    var b := WithStart(found, rangeStart, boundary);
    hide Bounds, Positions, Ascending;
    InOrder(t, boundary, positions, b);
    PushedMeaning(positions, b, 0);
    Joined(found, added);
  }

  /** What a caller can look at before: the second code point of the text does not come from the first character. */
  predicate Guard(found: seq<int>, rangeStart: int, positions: seq<int>)
    requires |positions| > 1
  {
    found == [] || found[|found| - 1] < rangeStart || rangeStart < positions[1]
  }

  /** Texts of `n` code points with these positions, whatever words they hold, leave the breaks in ascending order. */
  ghost predicate AlwaysNew(n: nat, found: seq<int>, rangeStart: int, positions: seq<int>)
    requires |positions| == n + 1
  {
    forall t: Text, reached, boundary :: t.Valid() && |t.chars| == n && Divides(t, reached, boundary) ==>
      (forall k :: 0 <= k < |boundary| ==> boundary[k] < |positions|) && FirstIsNew(found, rangeStart, positions, boundary)
  }

  /** The guard is exact: without it, a text without words repeats a break. */
  lemma GuardIsExact(n: nat, found: seq<int>, rangeStart: int, positions: seq<int>)
    requires n > 0 && |positions| == n + 1 && forall k, l :: 0 <= k < l <= n ==> positions[k] <= positions[l]
    ensures AlwaysNew(n, found, rangeStart, positions) <==> Guard(found, rangeStart, positions)
  {
    hide Text.Valid, Divides;
    if Guard(found, rangeStart, positions) {
      forall t: Text, reached, boundary | t.Valid() && |t.chars| == n && Divides(t, reached, boundary)
        ensures forall k :: 0 <= k < |boundary| ==> boundary[k] < |positions|
        ensures FirstIsNew(found, rangeStart, positions, boundary)
      {
        DividesInside(t, reached, boundary, positions);
      }
    } else {
      var t, reached := SinglesDivide(n);
      var boundary := Ends(Singles(n), n);
      EndsOfSingles(n);
      assert !AlwaysNew(n, found, rangeStart, positions);
    }
  }

  lemma DividesInside(t: Text, reached: seq<bool>, boundary: seq<nat>, positions: seq<int>)
    requires t.Valid() && Divides(t, reached, boundary) && |positions| == |t.chars| + 1 > 1
    ensures |boundary| > 0 && forall k :: 0 <= k < |boundary| ==> 0 < boundary[k] < |positions|
  {
  }

  // Texts in which no word is found.

  predicate Wordless(t: Text) {
    t.Valid() && forall i :: 0 <= i < |t.chars| ==> t.words[i] == []
  }

  /** Neither Hangul nor Katakana. */
  predicate Plain(t: Text) {
    forall i :: 0 <= i < |t.chars| ==> !IsHangul(t.chars[i]) && !IsKatakana(t.chars[i])
  }

  ghost function Singles(n: nat): Path {
    if n == 0 then Start else Then(Singles(n - 1), n - 1, 0)
  }

  lemma {:induction false} EndsOfSingles(n: nat)
    ensures Bounds(Ends(Singles(n), n), n)
    ensures n > 0 ==> var b := Ends(Singles(n), n); |b| == n && b[n - 1] == 1
  {
    if n > 0 { EndsOfSingles(n - 1); }
  }

  lemma OnlyHop(t: Text, reached: seq<bool>, i: nat)
    requires Wordless(t) && Plain(t) && i < |t.chars| && i <= |reached|
    ensures t.Hops(reached, i) == [Word(1, MAX_SNLP)]
  {
    hide Text.UnitIndex, Text.Run, Text.PrevKatakana;
  }

  lemma {:induction false} SinglesLead(t: Text, reached: seq<bool>, to: nat)
    requires Wordless(t) && Plain(t) && to <= |reached| <= |t.chars|
    ensures Leads(t, reached, Singles(to), to)
  {
    hide Text.Valid, Text.Hops, IsKatakana, IsHangul;
    if to > 0 {
      OnlyHop(t, reached, to - 1);
      SinglesLead(t, reached, to - 1);
    }
  }

  lemma {:induction false} OnlySingles(t: Text, reached: seq<bool>, path: Path, to: nat)
    requires Wordless(t) && Plain(t) && |reached| <= |t.chars| && Leads(t, reached, path, to)
    ensures path == Singles(to)
  {
    hide Text.Valid, Text.Hops, IsKatakana, IsHangul;
    if path.Then? {
      OnlyHop(t, reached, path.at);
      OnlySingles(t, reached, path.before, path.at);
    }
  }

  /** Where the words of a text are its characters, it is divided between all of them. */
  lemma SinglesDivideOnly(t: Text, reached: seq<bool>, boundary: seq<nat>)
    requires Wordless(t) && Plain(t) && t.Straight() && Divides(t, reached, boundary)
    ensures boundary == Ends(Singles(|t.chars|), |t.chars|)
  {
    hide Text.Valid, Text.Hops, Cheapest;
    SinglesLead(t, reached, |t.chars|);
    var path :| Leads(t, reached, path, |t.chars|) && boundary == Ends(path, |t.chars|);
    OnlySingles(t, reached, path, |t.chars|);
  }

  lemma SinglesDivide(n: nat) returns (t: Text, reached: seq<bool>)
    ensures t.Valid() && |t.chars| == n && Divides(t, reached, Ends(Singles(n), n))
  {
    hide Leads, Reachable;
    t, reached := Text(seq(n, _ => 0x4e00), seq(n, _ => [])), seq(n, _ => true);
    EndsOfSingles(n);
    SinglesReach(t, reached);
    SinglesLead(t, reached, n);
    forall path | Leads(t, reached, path, n) ensures path == Singles(n) {
      OnlySingles(t, reached, path, n);
    }
  }

  lemma SinglesReach(t: Text, reached: seq<bool>)
    requires Wordless(t) && Plain(t) && |reached| == |t.chars| && forall k :: 0 <= k < |reached| ==> reached[k]
    ensures Reachable(t, reached)
  {
    hide Leads;
    forall k | 0 <= k < |reached| ensures reached[k] <==> HasPath(t, reached, k) {
      SinglesLead(t, reached, k);
    }
  }

  /** Hangul of which nothing is in the dictionary leads nowhere. */
  lemma {:induction false} HangulStops(t: Text, reached: seq<bool>, path: Path, to: nat)
    requires Wordless(t) && |reached| <= |t.chars| && forall i :: 0 <= i < |t.chars| ==> IsHangul(t.chars[i])
    requires Leads(t, reached, path, to)
    ensures to == 0
  {
  }

  lemma TwoBreaks(added: seq<int>, x: int, y: int)
    requires Ascending(added) && x < y && x in added && y in added
    requires forall z :: z in added ==> z == x || z == y
    ensures added == [x, y]
  {
    var k :| 0 <= k < |added| && added[k] == x;
    var l :| 0 <= l < |added| && added[l] == y;
    forall i | 0 <= i < |added| ensures added[i] == x || added[i] == y {
      assert added[i] in added;
    }
    assert added[0] == x;
    assert added[1] != x;
  }

  /**
   Two syllables of Hangul, then the digraph U+309F, which is normalised to two Hiragana: no word is found,
   and the break between the ranges is recorded twice.
   */
  method BreaksCanRepeat() returns (foundBreaks: FoundBreaks)
    ensures foundBreaks.breaks == [5, 7, 7, 8] && !Ascending(foundBreaks.breaks)
  {
    hide *;
    foundBreaks := new FoundBreaks();
    var korean, japanese := Text([0xac00, 0xac01], [[], []]), Text([0x3088, 0x308a], [[], []]);
    ShortTextFits(korean, [5, 6, 7]);
    ShortTextFits(japanese, [7, 7, 8]);
    var numBreaks, added, boundary, reached := DivideUpDictionaryRange(korean, [5, 6, 7], 5, 7, foundBreaks);
    KoreanBreaks(korean, reached, boundary, added);
    assert foundBreaks.breaks == [5, 7];
    numBreaks, added, boundary, reached := DivideUpDictionaryRange(japanese, [7, 7, 8], 7, 8, foundBreaks);
    JapaneseBreaks(japanese, reached, boundary, added);
    NotAscending(foundBreaks.breaks);
  }

  lemma KoreanBreaks(t: Text, reached: seq<bool>, boundary: seq<nat>, added: seq<int>)
    requires t == Text([0xac00, 0xac01], [[], []]) && Wordless(t) && Divides(t, reached, boundary)
    requires Ascending(added) && BecomeBreaks([], 5, [5, 6, 7], boundary, added)
    ensures added == [5, 7]
  {
    hide Text.Valid, Text.Hops, Ascending, Bounds, Reachable, Cheapest;
    forall path ensures !Leads(t, reached, path, 2) {
      if Leads(t, reached, path, 2) { HangulStops(t, reached, path, 2); }
    }
    ghost var b := WithStart([], 5, boundary);
    assert b == [2, 0];
    assert b[0] == 2 && b[1] == 0;
    TwoBreaks(added, 5, 7);
  }

  lemma JapaneseBreaks(t: Text, reached: seq<bool>, boundary: seq<nat>, added: seq<int>)
    requires t == Text([0x3088, 0x308a], [[], []]) && Wordless(t) && Divides(t, reached, boundary)
    requires Ascending(added) && BecomeBreaks([5, 7], 7, [7, 7, 8], boundary, added)
    ensures added == [7, 8]
  {
    hide Text.Valid, Text.Hops, Ascending, Bounds, Reachable, Cheapest, Leads, Divides;
    SinglesDivideOnly(t, reached, boundary);
    assert Singles(1) == Then(Start, 0, 0) && Singles(2) == Then(Singles(1), 1, 0);
    assert boundary == [2, 1];
    ghost var b := WithStart([5, 7], 7, boundary);
    assert b[0] == 2 && b[1] == 1;
    TwoBreaks(added, 7, 8);
  }

  lemma NotAscending(b: seq<int>)
    requires |b| == 4 && b[1] == b[2]
    ensures !Ascending(b)
  {
  }

  lemma ShortTextFits(t: Text, positions: seq<int>)
    requires |t.words| == |t.chars| == 2 && t.words[0] == t.words[1] == []
    requires |positions| == 3 && 0 <= positions[0] <= positions[1] <= positions[2]
    ensures Wordless(t) && t.Valid() && SumsFit(t) && Positions(t, positions)
  {
    CheapTextFits(t, 984);
  }

  // ---------------------------------------------------------------------------------------------
  // The whole division.

  /** No other way to `to` costs less. */
  ghost predicate Cheapest(t: Text, reached: seq<bool>, path: Path, to: nat)
    requires t.Valid() && |reached| <= |t.chars| && Leads(t, reached, path, to)
  {
    forall other :: Leads(t, reached, other, to) ==> Cost(t, reached, path, to) <= Cost(t, reached, other, to)
  }

  /**
   What the boundaries of a text are. If it has a segmentation, and no supplementary character before Katakana,
   they are the ends of the words of a segmentation of least cost; if it has none, there is one only, at its end.
   */
  ghost predicate Divides(t: Text, reached: seq<bool>, boundary: seq<nat>)
    requires t.Valid()
  {
    var n := |t.chars|;
    && |reached| == n && Reachable(t, reached) && Bounds(boundary, n)
    && (HasPath(t, reached, n) && t.Straight() ==>
          exists path :: Leads(t, reached, path, n) && boundary == Ends(path, n) && Cheapest(t, reached, path, n))
    && (!HasPath(t, reached, n) ==> boundary == [n])
  }

  lemma BacktrackDivides(t: Text, reached: seq<bool>, best: seq<nat>, steps: seq<Step>, m: nat, boundary: seq<nat>)
    requires t.Valid() && Solved(t, reached, best, steps, m) && Bounds(boundary, |t.chars|)
    requires best[|t.chars|] == KUINT32_MAX ==> boundary == [|t.chars|]
    requires t.Straight() && best[|t.chars|] != KUINT32_MAX ==>
      boundary == Ends(Recorded(t, reached, best, steps, m, |t.chars|), |t.chars|)
    ensures Divides(t, reached, boundary)
    ensures (forall k :: 0 <= k < |t.chars| ==> !IsHangul(t.chars[k])) ==> HasPath(t, reached, |t.chars|)
  {
    hide Text.Valid, Text.Hops, Relaxed, Justified, SumsFit, Bounds, Text.Straight, IsHangul, Leads, Cost, Ends, Recorded,
      Cheapest;
    var n := |t.chars|;
    ReachedMeansReachable(t, reached, best, steps, m);
    BestIsMinimum(t, reached, best, steps, m, n);
    if best[n] != KUINT32_MAX {
      RecordedIsCheapest(t, reached, best, steps, m);
      var path := Recorded(t, reached, best, steps, m, n);
      assert Leads(t, reached, path, n) && Cheapest(t, reached, path, n);
      assert t.Straight() ==> boundary == Ends(path, n);
    } else {
      assert boundary == [n];
      assert forall path :: !Leads(t, reached, path, n);
    }
    if forall k :: 0 <= k < n ==> !IsHangul(t.chars[k]) {
      NoHangulReached(t, reached, best, steps, m, n);
    }
  }

  lemma RecordedIsCheapest(t: Text, reached: seq<bool>, best: seq<nat>, steps: seq<Step>, m: nat)
    requires t.Valid() && Solved(t, reached, best, steps, m) && best[|t.chars|] != KUINT32_MAX
    ensures Cheapest(t, reached, Recorded(t, reached, best, steps, m, |t.chars|), |t.chars|)
  {
    hide Text.Valid, Text.Hops, Relaxed, Justified, SumsFit, Leads, Cost;
    BestIsMinimum(t, reached, best, steps, m, |t.chars|);
  }

  /**
   The whole division of a range, whose text is `t`, with native indexes `positions`: the boundaries are those of a
   segmentation of least cost, and their native indexes become breaks. All breaks together ascend if and only if
   the first one is new.
   */
  method DivideUpDictionaryRange(t: Text, positions: seq<int>, rangeStart: int, rangeEnd: int, foundBreaks: FoundBreaks)
    returns (numBreaks: int, ghost added: seq<int>, ghost boundary: seq<nat>, ghost reached: seq<bool>)
    requires t.Valid() && SumsFit(t) && Positions(t, positions)
    modifies foundBreaks
    ensures foundBreaks.breaks == old(foundBreaks.breaks) + added && numBreaks == |added|
    ensures rangeStart >= rangeEnd ==> added == []
    ensures Ascending(added)
    ensures rangeStart < rangeEnd ==>
      && Divides(t, reached, boundary)
      && ((forall k :: 0 <= k < |t.chars| ==> !IsHangul(t.chars[k])) ==> HasPath(t, reached, |t.chars|))
      && BecomeBreaks(old(foundBreaks.breaks), rangeStart, positions, boundary, added)
    ensures rangeStart < rangeEnd && positions[0] == rangeStart && UpTo(old(foundBreaks.breaks), rangeStart) ==>
      && (Ascending(foundBreaks.breaks) <==> FirstIsNew(old(foundBreaks.breaks), rangeStart, positions, boundary))
      && (|t.chars| > 0 && Guard(old(foundBreaks.breaks), rangeStart, positions) ==> Ascending(foundBreaks.breaks))
  {
    hide Text.Valid, Text.Hops, Inv, SumsFit, Text.Straight, Leads, Cost, IsHangul, WithStart, Positions;
    added, boundary, reached := [], [], [];
    if rangeStart >= rangeEnd {
      return 0, [], [], [];
    }
    var best, prev, r, steps, m := Solve(t);
    var bounds := Backtrack(t, best, prev, r, steps, m);
    boundary, reached := bounds, r;
    BacktrackDivides(t, reached, best[..], steps, m, boundary);
    numBreaks, added := PushBreaks(t, bounds, positions, rangeStart, foundBreaks);
    if |t.chars| > 0 && Guard(old(foundBreaks.breaks), rangeStart, positions) {
      GuardSuffices(t, old(foundBreaks.breaks), rangeStart, positions, boundary);
    }
  }

  lemma GuardSuffices(t: Text, found: seq<int>, rangeStart: int, positions: seq<int>, boundary: seq<nat>)
    requires Bounds(boundary, |t.chars|) && Positions(t, positions) && |t.chars| > 0 && Guard(found, rangeStart, positions)
    ensures forall k :: 0 <= k < |boundary| ==> boundary[k] < |positions|
    ensures FirstIsNew(found, rangeStart, positions, boundary)
  {
  }

  // ---------------------------------------------------------------------------------------------
  // A run of Katakana that is in no dictionary.

  predicate AllKatakana(t: Text) {
    forall i :: 0 <= i < |t.chars| ==> IsKatakana(t.chars[i])
  }

  lemma {:induction false} PrevInRun(t: Text, reached: seq<bool>, i: nat)
    requires AllKatakana(t) && 0 < i <= |reached| <= |t.chars| && reached[0]
    ensures t.PrevKatakana(reached, i)
  {
    if i > 1 { PrevInRun(t, reached, i - 1); }
  }

  lemma RunHops(t: Text, reached: seq<bool>, i: nat)
    requires Wordless(t) && AllKatakana(t) && i < |t.chars| < MAX_KATAKANA_GROUP_LENGTH && i <= |reached| <= |t.chars|
    requires i > 0 ==> reached[0]
    ensures
      t.Hops(reached, i)
      == [Word(1, 255)] + if i == 0 then [Word(|t.chars|, KatakanaCost(|t.chars|))] else []
  {
    var n := |t.chars|;
    if i == 0 {
      RunIs(t, 0, MAX_KATAKANA_GROUP_LENGTH, n);
      assert t.UnitIndex(0) == 0;
    } else {
      PrevInRun(t, reached, i);
    }
    hide Text.Run, KatakanaCost;
  }

  /** The ways through a run: character by character, or at once. */
  lemma {:induction false} RunPaths(t: Text, reached: seq<bool>, path: Path, to: nat)
    requires Wordless(t) && AllKatakana(t) && 0 < |t.chars| == |reached| < MAX_KATAKANA_GROUP_LENGTH && reached[0]
    requires Leads(t, reached, path, to)
    ensures path == Singles(to) || (to == |t.chars| && path == Then(Start, 0, 1))
  {
    hide Wordless, AllKatakana, Text.Valid, Text.Hops, KatakanaCost;
    if path.Then? {
      RunHops(t, reached, path.at);
      RunPaths(t, reached, path.before, path.at);
    }
  }

  lemma {:induction false} SinglesInRun(t: Text, reached: seq<bool>, to: nat)
    requires Wordless(t) && AllKatakana(t) && 0 < |t.chars| == |reached| < MAX_KATAKANA_GROUP_LENGTH && reached[0]
    requires to <= |t.chars|
    ensures Leads(t, reached, Singles(to), to) && Cost(t, reached, Singles(to), to) == 255 * to
  {
    hide AllKatakana, Text.Valid, Text.Hops, KatakanaCost;
    if to > 0 {
      RunHops(t, reached, to - 1);
      SinglesInRun(t, reached, to - 1);
    }
  }

  lemma AtOnce(t: Text, reached: seq<bool>)
    requires Wordless(t) && AllKatakana(t) && 0 < |t.chars| == |reached| < MAX_KATAKANA_GROUP_LENGTH && reached[0]
    ensures
      var n, path := |t.chars|, Then(Start, 0, 1);
      Leads(t, reached, path, n) && Cost(t, reached, path, n) == KatakanaCost(n) && Ends(path, n) == [n]
  {
    hide AllKatakana, Text.Valid, Text.Hops, KatakanaCost;
    RunHops(t, reached, 0);
    assert Leads(t, reached, Start, 0) && Ends(Start, 0) == [];
  }

  /** What the costs are for: an unknown run of up to 19 Katakana is one word exactly if it has 2 to 8 characters. */
  lemma KatakanaRunStaysTogether(t: Text, reached: seq<bool>, boundary: seq<nat>)
    requires Wordless(t) && AllKatakana(t) && 0 < |t.chars| < MAX_KATAKANA_GROUP_LENGTH && Divides(t, reached, boundary)
    ensures boundary == if 2 <= |t.chars| <= 8 then [|t.chars|] else Ends(Singles(|t.chars|), |t.chars|)
  {
    var n := |t.chars|;
    hide AllKatakana, Text.Valid, Text.Hops, Text.Straight, Bounds, Reachable, Leads, Cost, KatakanaCost;
    KatakanaIsStraight(t);
    StartIsReached(t, reached);
    SinglesInRun(t, reached, n);
    AtOnce(t, reached);
    CostsOfRun(n);
    assert HasPath(t, reached, n);
    var path :| Leads(t, reached, path, n) && boundary == Ends(path, n) && Cheapest(t, reached, path, n);
    RunPaths(t, reached, path, n);
    assert Ends(Singles(1), 1) == [1] by { OneSingle(); }
  }

  lemma KatakanaIsStraight(t: Text)
    requires AllKatakana(t)
    ensures t.Straight()
  {
  }

  lemma CostsOfRun(n: nat)
    requires 0 < n < MAX_KATAKANA_GROUP_LENGTH
    ensures KatakanaCost(n) < 255 * n <==> 2 <= n <= 8
    ensures KatakanaCost(n) != 255 * n
  {
  }

  /** Up to 8 characters, a run costs least at four, and at other lengths the more the farther from that it is. */
  lemma CostsTurnAtFour(n: nat)
    requires 1 <= n <= 8
    ensures n < 4 ==> KatakanaCost(n) > KatakanaCost(n + 1)
    ensures 4 <= n < 8 ==> KatakanaCost(n) < KatakanaCost(n + 1)
    ensures n < 8 ==> KatakanaCost(n) < KatakanaCost(9) == KatakanaCost(0)
  {
  }

  lemma OneSingle()
    ensures Ends(Singles(1), 1) == [1]
  {
    assert Singles(1) == Then(Start, 0, 0);
  }

  lemma StartIsReached(t: Text, reached: seq<bool>)
    requires t.Valid() && 0 < |t.chars| == |reached| && Reachable(t, reached)
    ensures reached[0]
  {
    assert Leads(t, reached, Start, 0);
    assert HasPath(t, reached, 0);
  }
}
