/**
 The byte-serialised trie: its variable-length integers, the tree that a sequence of bytes lays out,
 and what strings and values the tree holds.
 */
module BytesTrieFormat {

  const MAX_BRANCH_LINEAR_SUB_NODE_LENGTH := 5
  const MIN_LINEAR_MATCH := 0x10
  const MAX_LINEAR_MATCH_LENGTH := 0x10
  const MIN_VALUE_LEAD := 0x20
  const MIN_ONE_BYTE_VALUE_LEAD := 0x10
  const MAX_ONE_BYTE_VALUE := 0x40
  const MIN_TWO_BYTE_VALUE_LEAD := 0x51
  const MAX_TWO_BYTE_VALUE := 0x1aff
  const MIN_THREE_BYTE_VALUE_LEAD := 0x6c
  const FOUR_BYTE_VALUE_LEAD := 0x7e
  const MAX_THREE_BYTE_VALUE := 0x11ffff
  const FIVE_BYTE_VALUE_LEAD := 0x7f
  const MAX_ONE_BYTE_DELTA := 0xbf
  const MIN_TWO_BYTE_DELTA_LEAD := 0xc0
  const MIN_THREE_BYTE_DELTA_LEAD := 0xf0
  const FOUR_BYTE_DELTA_LEAD := 0xfe
  const FIVE_BYTE_DELTA_LEAD := 0xff
  const MAX_TWO_BYTE_DELTA := 0x2fff
  const MAX_THREE_BYTE_DELTA := 0xdffff

  datatype Option<T> = None | Some(value: T)

  ghost predicate Bytes(b: seq<int>) {
    forall k :: 0 <= k < |b| ==> 0 <= b[k] <= 0xff
  }

  /** The 32 bits of an unsigned number as a signed number. */
  function ToInt32(u: int): int {
    if u >= 0x8000_0000 then u - 0x1_0000_0000 else u
  }

  // ---------------------------------------------------------------------------------------------
  // Compact integers.

  /** How many bytes of a value follow its lead byte, of which half is given. */
  function ValueTail(lead: int): (n: nat)
    ensures n <= 4
  {
    if lead < MIN_TWO_BYTE_VALUE_LEAD then 0
    else if lead < MIN_THREE_BYTE_VALUE_LEAD then 1
    else if lead < FOUR_BYTE_VALUE_LEAD then 2
    else if lead == FOUR_BYTE_VALUE_LEAD then 3
    else 4
  }

  function ReadValue(b: seq<int>, pos: nat, lead: int): int
    requires pos + ValueTail(lead) <= |b|
  {
    if lead < MIN_TWO_BYTE_VALUE_LEAD then lead - MIN_ONE_BYTE_VALUE_LEAD
    else if lead < MIN_THREE_BYTE_VALUE_LEAD then (lead - MIN_TWO_BYTE_VALUE_LEAD) * 0x100 + b[pos]
    else if lead < FOUR_BYTE_VALUE_LEAD then (lead - MIN_THREE_BYTE_VALUE_LEAD) * 0x1_0000 + b[pos] * 0x100 + b[pos + 1]
    else if lead == FOUR_BYTE_VALUE_LEAD then b[pos] * 0x1_0000 + b[pos + 1] * 0x100 + b[pos + 2]
    else ToInt32(b[pos] * 0x100_0000 + b[pos + 1] * 0x1_0000 + b[pos + 2] * 0x100 + b[pos + 3])
  }

  /** The position after a value, whose lead byte is not shifted and comes before `pos`. */
  function SkipValue(pos: nat, leadByte: int): nat
    requires 0 <= leadByte <= 0xff
  {
    if leadByte >= MIN_TWO_BYTE_VALUE_LEAD * 2 then
      if leadByte < MIN_THREE_BYTE_VALUE_LEAD * 2 then pos + 1
      else if leadByte < FOUR_BYTE_VALUE_LEAD * 2 then pos + 2
      else pos + 3 + (leadByte / 2) % 2
    else pos
  }

  /** Values are skipped by as many bytes as are read. */
  lemma SkipIsTail(pos: nat, leadByte: int)
    requires MIN_VALUE_LEAD <= leadByte <= 0xff
    ensures SkipValue(pos, leadByte) == pos + ValueTail(leadByte / 2)
  {
  }

  function DeltaTail(lead: int): (n: nat)
    ensures n <= 4
  {
    if lead < MIN_TWO_BYTE_DELTA_LEAD then 0
    else if lead < MIN_THREE_BYTE_DELTA_LEAD then 1
    else if lead < FOUR_BYTE_DELTA_LEAD then 2
    else if lead == FOUR_BYTE_DELTA_LEAD then 3
    else 4
  }

  function JumpByDelta(b: seq<int>, pos: nat): int
    requires pos < |b| && pos + 1 + DeltaTail(b[pos]) <= |b|
  {
    var lead, p := b[pos], pos + 1;
    if lead < MIN_TWO_BYTE_DELTA_LEAD then p + lead
    else if lead < MIN_THREE_BYTE_DELTA_LEAD then p + 1 + (lead - MIN_TWO_BYTE_DELTA_LEAD) * 0x100 + b[p]
    else if lead < FOUR_BYTE_DELTA_LEAD then
      p + 2 + (lead - MIN_THREE_BYTE_DELTA_LEAD) * 0x1_0000 + b[p] * 0x100 + b[p + 1]
    else if lead == FOUR_BYTE_DELTA_LEAD then p + 3 + b[p] * 0x1_0000 + b[p + 1] * 0x100 + b[p + 2]
    else p + 4 + ToInt32(b[p] * 0x100_0000 + b[p + 1] * 0x1_0000 + b[p + 2] * 0x100 + b[p + 3])
  }

  function SkipDelta(b: seq<int>, pos: nat): nat
    requires pos < |b| && 0 <= b[pos] <= 0xff
  {
    var delta, p := b[pos], pos + 1;
    if delta >= MIN_TWO_BYTE_DELTA_LEAD then
      if delta < MIN_THREE_BYTE_DELTA_LEAD then p + 1
      else if delta < FOUR_BYTE_DELTA_LEAD then p + 2
      else p + 3 + delta % 2
    else p
  }

  /** Digits to base 256, the first one counting most. */
  ghost function Number(digits: seq<int>): int {
    if digits == [] then 0 else Number(digits[..|digits| - 1]) * 0x100 + digits[|digits| - 1]
  }

  lemma {:induction false} NumberOfFour(d: seq<int>)
    requires |d| <= 4
    ensures |d| == 1 ==> Number(d) == d[0]
    ensures |d| == 2 ==> Number(d) == d[0] * 0x100 + d[1]
    ensures |d| == 3 ==> Number(d) == d[0] * 0x1_0000 + d[1] * 0x100 + d[2]
    ensures |d| == 4 ==> Number(d) == d[0] * 0x100_0000 + d[1] * 0x1_0000 + d[2] * 0x100 + d[3]
    decreases |d|
  {
    if d != [] { NumberOfFour(d[..|d| - 1]); }
  }

  /** Values have the bytes after the lead byte as their digits, the lead byte counting along in the shorter forms. */
  lemma ValueIsNumber(b: seq<int>, pos: nat, lead: int)
    requires 0x10 <= lead <= 0x7f && pos + ValueTail(lead) <= |b|
    ensures
      var n, v := ValueTail(lead), ReadValue(b, pos, lead);
      if lead <= 0x50 then n == 0 && v == lead - 0x10
      else if lead <= 0x6b then n == 1 && v == Number([lead - 0x51, b[pos]])
      else if lead <= 0x7d then n == 2 && v == Number([lead - 0x6c] + b[pos..pos + 2])
      else if lead == 0x7e then n == 3 && v == Number(b[pos..pos + 3])
      else
        n == 4
        && v == var u := Number(b[pos..pos + 4]); if u >= 0x8000_0000 then u - 0x1_0000_0000 else u
  {
    if 0x51 <= lead <= 0x6b { NumberOfFour([lead - 0x51, b[pos]]); }
    if 0x6c <= lead <= 0x7d { NumberOfFour([lead - 0x6c] + b[pos..pos + 2]); }
    if lead == 0x7e { NumberOfFour(b[pos..pos + 3]); }
    if lead == 0x7f { NumberOfFour(b[pos..pos + 4]); }
  }

  /** So have the distances of jumps, which count from after their last byte. */
  lemma DeltaIsNumber(b: seq<int>, pos: nat)
    requires pos < |b| && 0 <= b[pos] <= 0xff && pos + 1 + DeltaTail(b[pos]) <= |b|
    ensures
      var n, lead, p := DeltaTail(b[pos]), b[pos], pos + 1;
      var distance := JumpByDelta(b, pos) - (p + n);
      if lead <= 0xbf then n == 0 && distance == lead
      else if lead <= 0xef then n == 1 && distance == Number([lead - 0xc0, b[p]])
      else if lead <= 0xfd then n == 2 && distance == Number([lead - 0xf0] + b[p..p + 2])
      else if lead == 0xfe then n == 3 && distance == Number(b[p..p + 3])
      else
        n == 4
        && distance == var u := Number(b[p..p + 4]); if u >= 0x8000_0000 then u - 0x1_0000_0000 else u
    ensures SkipDelta(b, pos) == pos + 1 + DeltaTail(b[pos])
  {
    var lead, p := b[pos], pos + 1;
    if 0xc0 <= lead <= 0xef { NumberOfFour([lead - 0xc0, b[p]]); }
    if 0xf0 <= lead <= 0xfd { NumberOfFour([lead - 0xf0] + b[p..p + 2]); }
    if lead == 0xfe { NumberOfFour(b[p..p + 3]); }
    if lead == 0xff { NumberOfFour(b[p..p + 4]); }
  }

  // ---------------------------------------------------------------------------------------------
  // The tree.

  datatype Tree =
    | Final(value: int)
    | Intermediate(value: int, next: Tree)
    | Linear(str: seq<int>, next: Tree)
    | Branch(sub: Sub)

  /** The outbound edges of a branch: a list of edges, or a comparison byte and two halves. */
  datatype Sub =
    | Split(cmp: int, less: Sub, greaterOrEqual: Sub)
    | Pair(key: int, target: Tree, rest: Sub)
    | Last(key: int, target: Tree)

  ghost function Count(s: Sub): (n: nat)
    ensures n > 0
  {
    match s
    case Split(_, less, greaterOrEqual) => Count(less) + Count(greaterOrEqual)
    case Pair(_, _, rest) => 1 + Count(rest)
    case Last(_, _) => 1
  }

  /** At `pos` there is a value, with its lead byte first. */
  ghost predicate ValueAt(b: seq<int>, pos: int) {
    && 0 <= pos < |b| && MIN_VALUE_LEAD <= b[pos] <= 0xff && pos + 1 + ValueTail(b[pos] / 2) <= |b|
  }

  ghost function ValueThere(b: seq<int>, pos: int): int
    requires ValueAt(b, pos)
  {
    ReadValue(b, pos + 1, b[pos] / 2)
  }

  ghost function AfterValue(b: seq<int>, pos: int): nat
    requires ValueAt(b, pos)
  {
    pos + 1 + ValueTail(b[pos] / 2)
  }

  /** The node to which a key leads: the value itself if it is final, otherwise the value is a jump delta. */
  ghost function TargetOf(b: seq<int>, pos: int): int
    requires ValueAt(b, pos)
  {
    if b[pos] % 2 == 1 then pos else AfterValue(b, pos) + ValueThere(b, pos)
  }

  /** The bytes from `pos` on are a node that lays out the tree. */
  ghost predicate Layout(b: seq<int>, pos: int, t: Tree)
    decreases t
  {
    match t
    case Final(v) => ValueAt(b, pos) && b[pos] % 2 == 1 && ValueThere(b, pos) == v
    case Intermediate(v, next) =>
      && ValueAt(b, pos) && b[pos] % 2 == 0 && ValueThere(b, pos) == v
      && !next.Final? && !next.Intermediate? && Layout(b, AfterValue(b, pos), next)
    case Linear(str, next) =>
      && 0 <= pos && 1 <= |str| <= MAX_LINEAR_MATCH_LENGTH && pos + 1 + |str| <= |b|
      && b[pos] == MIN_LINEAR_MATCH + |str| - 1 && b[pos + 1..pos + 1 + |str|] == str
      && Layout(b, pos + 1 + |str|, next)
    case Branch(sub) =>
      && 0 <= pos && pos + 1 < |b| && 0 <= b[pos] < MIN_LINEAR_MATCH && Count(sub) > 1
      && (if b[pos] != 0 then Count(sub) == b[pos] + 1 && SubLayout(b, pos + 1, sub)
          else Count(sub) == b[pos + 1] + 1 && SubLayout(b, pos + 2, sub))
  }

  ghost predicate SubLayout(b: seq<int>, pos: int, s: Sub)
    decreases s
  {
    && 0 <= pos < |b|
    && match s
       case Split(cmp, less, greaterOrEqual) =>
         && Count(s) > MAX_BRANCH_LINEAR_SUB_NODE_LENGTH && Count(less) == Count(s) / 2
         && b[pos] == cmp && pos + 1 < |b| && 0 <= b[pos + 1] <= 0xff && pos + 2 + DeltaTail(b[pos + 1]) <= |b|
         && SubLayout(b, JumpByDelta(b, pos + 1), less)
         && SubLayout(b, SkipDelta(b, pos + 1), greaterOrEqual)
       case Pair(key, target, rest) =>
         && Count(s) <= MAX_BRANCH_LINEAR_SUB_NODE_LENGTH
         && b[pos] == key && ValueAt(b, pos + 1)
         && Layout(b, TargetOf(b, pos + 1), target)
         && SubLayout(b, AfterValue(b, pos + 1), rest)
       case Last(key, target) =>
         b[pos] == key && Layout(b, pos + 1, target)
  }

  /** The state of a cursor: at a node, or before the last `remaining` + 1 bytes of a linear-match node. */
  ghost predicate CursorAt(b: seq<int>, pos: int, remaining: int, t: Tree) {
    if remaining < 0 then Layout(b, pos, t)
    else
      && t.Linear? && |t.str| == remaining + 1 && 0 <= pos && pos + |t.str| <= |b|
      && b[pos..pos + |t.str|] == t.str && Layout(b, pos + |t.str|, t.next)
  }

  // ---------------------------------------------------------------------------------------------
  // What the tree holds.

  /** The edges are in ascending order, with keys from `lo` up to but not including `hi`. */
  ghost predicate Ordered(s: Sub, lo: int, hi: int) {
    match s
    case Split(cmp, less, greaterOrEqual) => Ordered(less, lo, cmp) && Ordered(greaterOrEqual, cmp, hi) && lo <= cmp <= hi
    case Pair(key, target, rest) => lo <= key < hi && Sorted(target) && Ordered(rest, key + 1, hi)
    case Last(key, target) => lo <= key < hi && Sorted(target)
  }

  ghost predicate Sorted(t: Tree) {
    match t
    case Final(_) => true
    case Intermediate(_, next) => !next.Final? && !next.Intermediate? && Sorted(next)
    case Linear(str, next) => str != [] && Sorted(next)
    case Branch(sub) => Ordered(sub, 0, 0x100)
  }

  datatype Entry = Entry(str: seq<int>, value: int)

  /** All strings of the tree with their values, each string after `prefix`. */
  ghost function Entries(t: Tree, prefix: seq<int>): seq<Entry>
    decreases t
  {
    match t
    case Final(v) => [Entry(prefix, v)]
    case Intermediate(v, next) => [Entry(prefix, v)] + Entries(next, prefix)
    case Linear(str, next) => Entries(next, prefix + str)
    case Branch(sub) => SubEntries(sub, prefix)
  }

  ghost function SubEntries(s: Sub, prefix: seq<int>): seq<Entry>
    decreases s
  {
    match s
    case Split(_, less, greaterOrEqual) => SubEntries(less, prefix) + SubEntries(greaterOrEqual, prefix)
    case Pair(key, target, rest) => Entries(target, prefix + [key]) + SubEntries(rest, prefix)
    case Last(key, target) => Entries(target, prefix + [key])
  }

  /** What remains of the tree after one more byte of a string; none if there is no such string. */
  ghost function Step(t: Tree, byte: int): Option<Tree>
    decreases t
  {
    match t
    case Final(_) => None
    case Intermediate(_, next) => Step(next, byte)
    case Linear(str, next) =>
      if str == [] || byte != str[0] then None
      else if |str| == 1 then Some(next)
      else Some(Linear(str[1..], next))
    case Branch(sub) => SubStep(sub, byte)
  }

  ghost function SubStep(s: Sub, byte: int): Option<Tree>
    decreases s
  {
    match s
    case Split(cmp, less, greaterOrEqual) => if byte < cmp then SubStep(less, byte) else SubStep(greaterOrEqual, byte)
    case Pair(key, target, rest) => if byte == key then Some(target) else SubStep(rest, byte)
    case Last(key, target) => if byte == key then Some(target) else None
  }

  ghost function Walk(t: Tree, s: seq<int>, k: nat): Option<Tree>
    requires k <= |s|
  {
    if k == 0 then Some(t)
    else
      match Walk(t, s, k - 1)
      case None => None
      case Some(u) => Step(u, s[k - 1])
  }

  /** The value for the empty string. */
  ghost function Here(t: Tree): Option<int> {
    match t
    case Final(v) => Some(v)
    case Intermediate(v, _) => Some(v)
    case _ => None
  }

  lemma {:induction false} EntriesStart(t: Tree, prefix: seq<int>)
    ensures |Entries(t, prefix)| > 0
    ensures forall e :: e in Entries(t, prefix) ==> prefix <= e.str
    decreases t
  {
    match t
    case Final(_) =>
    case Intermediate(_, next) => EntriesStart(next, prefix);
    case Linear(str, next) => EntriesStart(next, prefix + str);
    case Branch(sub) => SubEntriesStart(sub, prefix);
  }

  lemma {:induction false} SubEntriesStart(s: Sub, prefix: seq<int>)
    ensures |SubEntries(s, prefix)| > 0
    ensures forall e :: e in SubEntries(s, prefix) ==> |e.str| > |prefix| && prefix <= e.str
    decreases s
  {
    match s
    case Split(_, less, greaterOrEqual) =>
      SubEntriesStart(less, prefix);
      SubEntriesStart(greaterOrEqual, prefix);
    case Pair(key, target, rest) =>
      EntriesStart(target, prefix + [key]);
      SubEntriesStart(rest, prefix);
    case Last(key, target) => EntriesStart(target, prefix + [key]);
  }

  /** A string is in the tree under the empty string exactly if it is the prefix itself. */
  lemma {:induction false} EntriesHere(t: Tree, prefix: seq<int>, v: int)
    requires Sorted(t)
    ensures Entry(prefix, v) in Entries(t, prefix) <==> Here(t) == Some(v)
    decreases t
  {
    match t
    case Final(_) =>
    case Intermediate(_, next) =>
      EntriesHere(next, prefix, v);
    case Linear(str, next) => EntriesStart(next, prefix + str);
    case Branch(sub) => SubEntriesStart(sub, prefix);
  }

  lemma {:induction false} SubEntriesRange(s: Sub, prefix: seq<int>, lo: int, hi: int)
    requires Ordered(s, lo, hi)
    ensures forall e :: e in SubEntries(s, prefix) ==> |e.str| > |prefix| && lo <= e.str[|prefix|] < hi
    decreases s
  {
    match s
    case Split(cmp, less, greaterOrEqual) =>
      SubEntriesRange(less, prefix, lo, cmp);
      SubEntriesRange(greaterOrEqual, prefix, cmp, hi);
    case Pair(key, target, rest) =>
      EntriesStart(target, prefix + [key]);
      SubEntriesRange(rest, prefix, key + 1, hi);
    case Last(key, target) => EntriesStart(target, prefix + [key]);
  }

  /** The entries after a step: those that go on with the byte. */
  ghost predicate Narrows(before: seq<Entry>, after: seq<Entry>, prefix: seq<int>, byte: int) {
    forall e: Entry :: |e.str| > |prefix| && e.str[|prefix|] == byte ==> (e in before <==> e in after)
  }

  ghost function EntriesOf(t: Option<Tree>, prefix: seq<int>): seq<Entry> {
    match t
    case None => []
    case Some(u) => Entries(u, prefix)
  }

  lemma {:induction false} StepNarrows(t: Tree, prefix: seq<int>, byte: int)
    requires Sorted(t)
    ensures Step(t, byte).Some? ==> Sorted(Step(t, byte).value)
    ensures Narrows(Entries(t, prefix), EntriesOf(Step(t, byte), prefix + [byte]), prefix, byte)
    decreases t
  {
    match t
    case Final(_) =>
    case Intermediate(_, next) => StepNarrows(next, prefix, byte);
    case Linear(str, next) =>
      EntriesStart(next, prefix + str);
      if str[0] == byte {
        assert prefix + str == prefix + [byte] + str[1..];
        assert |str| == 1 ==> str[1..] == [] && prefix + str == prefix + [byte];
      } else {
        assert (prefix + str)[|prefix|] != byte;
      }
    case Branch(sub) => SubStepNarrows(sub, prefix, byte, 0, 0x100);
  }

  lemma {:induction false} SubStepNarrows(s: Sub, prefix: seq<int>, byte: int, lo: int, hi: int)
    requires Ordered(s, lo, hi)
    ensures SubStep(s, byte).Some? ==> Sorted(SubStep(s, byte).value)
    ensures Narrows(SubEntries(s, prefix), EntriesOf(SubStep(s, byte), prefix + [byte]), prefix, byte)
    decreases s
  {
    match s
    case Split(cmp, less, greaterOrEqual) =>
      SubEntriesRange(less, prefix, lo, cmp);
      SubEntriesRange(greaterOrEqual, prefix, cmp, hi);
      if byte < cmp {
        SubStepNarrows(less, prefix, byte, lo, cmp);
      } else {
        SubStepNarrows(greaterOrEqual, prefix, byte, cmp, hi);
      }
    case Pair(key, target, rest) =>
      EntriesStart(target, prefix + [key]);
      SubEntriesRange(rest, prefix, key + 1, hi);
      SubStepNarrows(rest, prefix, byte, key + 1, hi);
    case Last(key, target) =>
      EntriesStart(target, prefix + [key]);
  }

  lemma {:induction false} WalkNarrows(t: Tree, s: seq<int>, k: nat, e: Entry)
    requires Sorted(t) && k <= |s|
    ensures Walk(t, s, k).Some? ==> Sorted(Walk(t, s, k).value)
    ensures s[..k] <= e.str ==> (e in Entries(t, []) <==> e in EntriesOf(Walk(t, s, k), s[..k]))
  {
    if k > 0 {
      WalkNarrows(t, s, k - 1, e);
      assert s[..k] == s[..k - 1] + [s[k - 1]];
      if Walk(t, s, k - 1).Some? {
        StepNarrows(Walk(t, s, k - 1).value, s[..k - 1], s[k - 1]);
      }
    }
  }

  /** The walk along a string arrives somewhere exactly if the string is the beginning of a string in the tree. */
  lemma WalkArrives(t: Tree, s: seq<int>)
    requires Sorted(t)
    ensures Walk(t, s, |s|).Some? <==> exists e :: e in Entries(t, []) && s <= e.str
  {
    assert s[..|s|] == s;
    if Walk(t, s, |s|).Some? {
      var es := Entries(Walk(t, s, |s|).value, s);
      EntriesStart(Walk(t, s, |s|).value, s);
      assert es[0] in es;
      WalkNarrows(t, s, |s|, es[0]);
    }
    forall e | e in Entries(t, []) && s <= e.str ensures Walk(t, s, |s|).Some? {
      WalkNarrows(t, s, |s|, e);
    }
  }

  /** It finds a value there exactly if the string is in the tree with that value. */
  lemma WalkFindsValue(t: Tree, s: seq<int>, v: int)
    requires Sorted(t)
    ensures Entry(s, v) in Entries(t, []) <==> Walk(t, s, |s|).Some? && Here(Walk(t, s, |s|).value) == Some(v)
  {
    assert s[..|s|] == s;
    WalkNarrows(t, s, |s|, Entry(s, v));
    if Walk(t, s, |s|).Some? {
      EntriesHere(Walk(t, s, |s|).value, s, v);
    }
  }

  // ---------------------------------------------------------------------------------------------
  // The order of the entries.

  /** In the order of unsigned bytes, a prefix before what it is a prefix of. */
  ghost predicate Less(a: seq<int>, b: seq<int>) {
    exists k :: LessAt(a, b, k)
  }

  ghost predicate LessAt(a: seq<int>, b: seq<int>, k: int) {
    0 <= k <= |a| && k < |b| && a[..k] == b[..k] && (k < |a| ==> a[k] < b[k])
  }

  ghost predicate AllLess(a: seq<Entry>, b: seq<Entry>) {
    forall i, j :: 0 <= i < |a| && 0 <= j < |b| ==> Less(a[i].str, b[j].str)
  }

  ghost predicate Ascending(a: seq<Entry>) {
    forall i, j :: 0 <= i < j < |a| ==> Less(a[i].str, a[j].str)
  }

  lemma AscendingConcat(a: seq<Entry>, b: seq<Entry>)
    requires Ascending(a) && Ascending(b) && AllLess(a, b)
    ensures Ascending(a + b)
  {
    hide Less;
    var c := a + b;
    forall i, j | 0 <= i < j < |c| ensures Less(c[i].str, c[j].str) {
      assert j < |a| ==> c[i] == a[i] && c[j] == a[j];
      assert i >= |a| ==> c[i] == b[i - |a|] && c[j] == b[j - |a|];
      assert i < |a| <= j ==> c[i] == a[i] && c[j] == b[j - |a|];
    }
  }

  /** Entries whose next byte is below `bound` come before those whose next byte is not. */
  lemma BelowIsLess(a: seq<Entry>, b: seq<Entry>, prefix: seq<int>, bound: int)
    requires forall e :: e in a ==> |e.str| > |prefix| && prefix <= e.str && e.str[|prefix|] < bound
    requires forall e :: e in b ==> |e.str| > |prefix| && prefix <= e.str && e.str[|prefix|] >= bound
    ensures AllLess(a, b)
  {
    forall i, j | 0 <= i < |a| && 0 <= j < |b| ensures Less(a[i].str, b[j].str) {
      assert a[i] in a && b[j] in b;
      assert LessAt(a[i].str, b[j].str, |prefix|);
    }
  }

  /** The entries are in strictly ascending order, so that no string comes twice. */
  lemma {:induction false} EntriesAscend(t: Tree, prefix: seq<int>)
    requires Sorted(t)
    ensures Ascending(Entries(t, prefix))
    decreases t
  {
    match t
    case Final(_) =>
    case Intermediate(v, next) =>
      EntriesAscend(next, prefix);
      ProperlyLonger(next, prefix);
      var es := Entries(next, prefix);
      forall j | 0 <= j < |es| ensures Less(prefix, es[j].str) {
        assert es[j] in es;
        assert LessAt(prefix, es[j].str, |prefix|);
      }
      AscendingConcat([Entry(prefix, v)], es);
    case Linear(str, next) => EntriesAscend(next, prefix + str);
    case Branch(sub) => SubEntriesAscend(sub, prefix, 0, 0x100);
  }

  lemma ProperlyLonger(t: Tree, prefix: seq<int>)
    requires Sorted(t) && !t.Final? && !t.Intermediate?
    ensures forall e :: e in Entries(t, prefix) ==> |e.str| > |prefix| && prefix <= e.str
  {
    match t
    case Linear(str, next) => EntriesStart(next, prefix + str);
    case Branch(sub) => SubEntriesStart(sub, prefix);
  }

  lemma {:induction false} SubEntriesAscend(s: Sub, prefix: seq<int>, lo: int, hi: int)
    requires Ordered(s, lo, hi)
    ensures Ascending(SubEntries(s, prefix))
    decreases s
  {
    match s
    case Split(cmp, less, greaterOrEqual) =>
      SubEntriesAscend(less, prefix, lo, cmp);
      SubEntriesAscend(greaterOrEqual, prefix, cmp, hi);
      SubEntriesStart(less, prefix);
      SubEntriesStart(greaterOrEqual, prefix);
      SubEntriesRange(less, prefix, lo, cmp);
      SubEntriesRange(greaterOrEqual, prefix, cmp, hi);
      BelowIsLess(SubEntries(less, prefix), SubEntries(greaterOrEqual, prefix), prefix, cmp);
      AscendingConcat(SubEntries(less, prefix), SubEntries(greaterOrEqual, prefix));
    case Pair(key, target, rest) =>
      EntriesAscend(target, prefix + [key]);
      SubEntriesAscend(rest, prefix, key + 1, hi);
      EntriesStart(target, prefix + [key]);
      SubEntriesStart(rest, prefix);
      SubEntriesRange(rest, prefix, key + 1, hi);
      BelowIsLess(Entries(target, prefix + [key]), SubEntries(rest, prefix), prefix, key + 1);
      AscendingConcat(Entries(target, prefix + [key]), SubEntries(rest, prefix));
    case Last(key, target) => EntriesAscend(target, prefix + [key]);
  }

  lemma NotBoth(a: seq<int>, b: seq<int>, k: int, j: int)
    requires LessAt(a, b, k)
    ensures !LessAt(b, a, j)
  {
    if 0 <= j < k {
      assert a[j] == a[..k][j] && b[j] == b[..k][j];
    } else if k < j <= |a| && j <= |b| {
      assert a[k] == a[..j][k] && b[k] == b[..j][k];
    }
  }

  /** No two strings come before each other. */
  lemma LessIsStrict(a: seq<int>, b: seq<int>)
    requires Less(a, b)
    ensures a != b && !Less(b, a)
  {
    var k :| LessAt(a, b, k);
    forall j ensures !LessAt(b, a, j) {
      NotBoth(a, b, k, j);
    }
  }
}
