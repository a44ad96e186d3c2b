/** Reference spans: decode one code point after the other and test membership. */
module CodePoints {
  import opened InversionList

  // ---------------------------------------------------------------------------------------------
  // UTF-16.

  type unit16 = x: int | 0 <= x < 0x1_0000

  predicate IsLead(u: int) { 0xd800 <= u < 0xdc00 }

  predicate IsTrail(u: int) { 0xdc00 <= u < 0xe000 }

  function Supplementary(lead: int, trail: int): int {
    0x10000 + (lead - 0xd800) * 0x400 + (trail - 0xdc00)
  }

  predicate PairAt(s: seq<unit16>, i: int) {
    0 <= i && i + 1 < |s| && IsLead(s[i]) && IsTrail(s[i + 1])
  }

  /** The number of units of the code point at `i`. */
  function Length16(s: seq<unit16>, i: nat): nat { if PairAt(s, i) then 2 else 1 }

  /** A surrogate pair is one code point, and so is a single surrogate. */
  function CodePoint16(s: seq<unit16>, i: nat): int
    requires i < |s|
  {
    if PairAt(s, i) then Supplementary(s[i], s[i + 1]) else s[i]
  }

  /** The limit of the longest run of code points from `i` on for which membership is `cond`. */
  function SpanFrom(list: seq<int>, s: seq<unit16>, i: nat, cond: bool): (r: nat)
    requires i <= |s|
    ensures i <= r <= |s|
    decreases |s| - i
  {
    if i == |s| || Member(list, CodePoint16(s, i)) != cond then i
    else SpanFrom(list, s, i + Length16(s, i), cond)
  }

  /**
   The start of the longest run of code points up to the end for which membership is `cond`,
   computed by decoding forward from `i`.
   */
  function SuffixFrom(list: seq<int>, s: seq<unit16>, i: nat, cond: bool): (r: nat)
    requires i <= |s|
    ensures i <= r <= |s|
    decreases |s| - i
  {
    if i == |s| then i
    else
      var next := i + Length16(s, i);
      var r := SuffixFrom(list, s, next, cond);
      if r == next && Member(list, CodePoint16(s, i)) == cond then i else r
  }

  /** Decoding forward from 0 stops at `i` unless it is in the middle of a pair. */
  predicate Boundary(s: seq<unit16>, i: nat) { i <= |s| && !PairAt(s, i - 1) }

  lemma NextBoundary(s: seq<unit16>, i: nat)
    requires i < |s|
    ensures Boundary(s, i + Length16(s, i))
    ensures forall j :: i < j < i + Length16(s, i) ==> !Boundary(s, j)
  {}

  /** What lies before a code point that ends the suffix does not matter. */
  lemma {:induction false} SuffixFromEarlier(list: seq<int>, s: seq<unit16>, i: nat, j: nat, cond: bool)
    requires i <= j <= |s| && Boundary(s, i) && Boundary(s, j)
    requires SuffixFrom(list, s, j, cond) > j
    ensures SuffixFrom(list, s, i, cond) == SuffixFrom(list, s, j, cond)
    decreases j - i
  {
    if i < j {
      NextBoundary(s, i);
      SuffixFromEarlier(list, s, i + Length16(s, i), j, cond);
    }
  }

  /** The units of a code point that is not a surrogate, as in section 2.1 of RFC 2781. */
  function Encode16(c: int): (e: seq<unit16>)
    requires 0 <= c < 0x110000
    ensures 1 <= |e| <= 2
  {
    if c < 0x10000 then [c] else [0xd800 + (c - 0x10000) / 0x400, 0xdc00 + (c - 0x10000) % 0x400]
  }

  predicate Scalar(c: int) { 0 <= c < 0xd800 || 0xe000 <= c < 0x110000 }

  ghost predicate Scalars(cs: seq<int>) {
    forall k :: 0 <= k < |cs| ==> Scalar(cs[k])
  }

  /** A code point is read back from wherever its units are. */
  lemma EncodedIsRead16(s: seq<unit16>, i: nat, c: int)
    requires Scalar(c) && i + |Encode16(c)| <= |s| && s[i..i + |Encode16(c)|] == Encode16(c)
    ensures Length16(s, i) == |Encode16(c)| && CodePoint16(s, i) == c
  {
    assert s[i] == Encode16(c)[0];
    if c >= 0x10000 { assert s[i + 1] == Encode16(c)[1]; }
  }

  /** What is read is what is encoded there, unless it is a single surrogate, which stands for itself. */
  lemma ReadIsEncoded16(s: seq<unit16>, i: nat)
    requires i < |s|
    ensures 0 <= CodePoint16(s, i) < 0x110000 && i + Length16(s, i) <= |s|
    ensures s[i..i + Length16(s, i)] == Encode16(CodePoint16(s, i))
    ensures !Scalar(CodePoint16(s, i)) <==> Length16(s, i) == 1 && (IsLead(s[i]) || IsTrail(s[i]))
  {
  }

  ghost function EncodeAll16(cs: seq<int>): (e: seq<unit16>)
    requires Scalars(cs)
    ensures |e| >= |cs|
  {
    if cs == [] then [] else Encode16(cs[0]) + EncodeAll16(cs[1..])
  }

  lemma InFront<T>(p: seq<T>, e: seq<T>, rest: seq<T>)
    ensures (p + (e + rest))[|p|..|p| + |e|] == e && p + (e + rest) == (p + e) + rest
  {
  }

  lemma EncodeFirst16(cs: seq<int>, k: nat)
    requires Scalars(cs) && 0 < k <= |cs|
    ensures Scalars(cs[1..]) && EncodeAll16(cs) == Encode16(cs[0]) + EncodeAll16(cs[1..])
    ensures |EncodeAll16(cs[..k])| == |Encode16(cs[0])| + |EncodeAll16(cs[1..][..k - 1])|
  {
    hide Encode16;
    assert cs[..k][1..] == cs[1..][..k - 1] && cs[..k][0] == cs[0];
  }

  /** Of text without single surrogates, the span is as long as the first `k` code points, if the membership changes there. */
  lemma {:induction false} SpanOfEncoded16(list: seq<int>, p: seq<unit16>, cs: seq<int>, k: nat, cond: bool)
    requires Scalars(cs) && k <= |cs| && (forall j :: 0 <= j < k ==> Member(list, cs[j]) == cond)
    requires k < |cs| ==> Member(list, cs[k]) != cond
    ensures SpanFrom(list, p + EncodeAll16(cs), |p|, cond) == |p| + |EncodeAll16(cs[..k])|
    decreases |cs|
  {
    hide Member, CodePoint16, Length16, Encode16, EncodeAll16;
    assert EncodeAll16([]) == [] && cs[..0] == [] by { EncodeNone16(); }
    if cs != [] {
      var e, rest := Encode16(cs[0]), EncodeAll16(cs[1..]);
      EncodeFirst16(cs, if k > 0 then k else 1);
      InFront(p, e, rest);
      EncodedIsRead16(p + (e + rest), |p|, cs[0]);
      if k > 0 { SpanOfEncoded16(list, p + e, cs[1..], k - 1, cond); }
    }
  }

  lemma EncodeNone16()
    ensures EncodeAll16([]) == []
  {
  }

  /** The span at the end starts after the last code point of other membership. */
  lemma {:induction false} SuffixOfEncoded16(list: seq<int>, p: seq<unit16>, cs: seq<int>, k: nat, cond: bool)
    requires Scalars(cs) && k <= |cs| && (forall j :: k <= j < |cs| ==> Member(list, cs[j]) == cond)
    requires k > 0 ==> Member(list, cs[k - 1]) != cond
    ensures SuffixFrom(list, p + EncodeAll16(cs), |p|, cond) == |p| + |EncodeAll16(cs[..k])|
    decreases |cs|
  {
    hide Member, CodePoint16, Length16, Encode16, EncodeAll16;
    assert EncodeAll16([]) == [] && cs[..0] == [] by { EncodeNone16(); }
    if cs != [] {
      var e, rest := Encode16(cs[0]), EncodeAll16(cs[1..]);
      EncodeFirst16(cs, if k > 0 then k else 1);
      InFront(p, e, rest);
      EncodedIsRead16(p + (e + rest), |p|, cs[0]);
      SuffixOfEncoded16(list, p + e, cs[1..], if k > 0 then k - 1 else 0, cond);
      assert cs[1..][..0] == [];
    }
  }

  // ---------------------------------------------------------------------------------------------
  // UTF-8, as defined in sections 3 and 4 of RFC 3629.

  type byte = x: int | 0 <= x < 0x100

  const REPLACEMENT := 0xfffd

  predicate Tail(b: int) { 0x80 <= b <= 0xbf }

  predicate TailAt(s: seq<byte>, i: nat) { i < |s| && Tail(s[i]) }

  /** How many bytes the well-formed sequence at `i` has, or 0. */
  function WellFormed(s: seq<byte>, i: nat): (n: nat)
    requires i < |s|
    ensures n <= 4 && i + n <= |s|
  {
    var b := s[i];
    if b <= 0x7f then 1
    else if 0xc2 <= b <= 0xdf && TailAt(s, i + 1) then 2
    else if 0xe0 <= b <= 0xef && TailAt(s, i + 1) && TailAt(s, i + 2)
            && (b == 0xe0 ==> s[i + 1] >= 0xa0) && (b == 0xed ==> s[i + 1] <= 0x9f) then 3
    else if 0xf0 <= b <= 0xf4 && TailAt(s, i + 1) && TailAt(s, i + 2) && TailAt(s, i + 3)
            && (b == 0xf0 ==> s[i + 1] >= 0x90) && (b == 0xf4 ==> s[i + 1] <= 0x8f) then 4
    else 0
  }

  function Combine2(b: int, t1: int): int { (b - 0xc0) * 0x40 + (t1 - 0x80) }

  function Combine3(b: int, t1: int, t2: int): int { (b - 0xe0) * 0x1000 + (t1 - 0x80) * 0x40 + (t2 - 0x80) }

  function Combine4(b: int, t1: int, t2: int, t3: int): int {
    (b - 0xf0) * 0x40000 + (t1 - 0x80) * 0x1000 + (t2 - 0x80) * 0x40 + (t3 - 0x80)
  }

  /** The code point at `i`; a byte that starts no well-formed sequence stands for U+FFFD. */
  function CodePoint8(s: seq<byte>, i: nat): int
    requires i < |s|
  {
    match WellFormed(s, i)
    case 0 => REPLACEMENT
    case 1 => s[i]
    case 2 => Combine2(s[i], s[i + 1])
    case 3 => Combine3(s[i], s[i + 1], s[i + 2])
    case _ => Combine4(s[i], s[i + 1], s[i + 2], s[i + 3])
  }

  /** The number of bytes of the code point at `i`. */
  function Length8(s: seq<byte>, i: nat): (n: nat)
    requires i < |s|
    ensures n > 0 && i + n <= |s|
  {
    if WellFormed(s, i) == 0 then 1 else WellFormed(s, i)
  }

  /** The limit of the longest run of code points from `i` on for which membership is `cond`. */
  function SpanFromUTF8(list: seq<int>, s: seq<byte>, i: nat, cond: bool): (r: nat)
    requires i <= |s|
    ensures i <= r <= |s|
    decreases |s| - i
  {
    if i == |s| || Member(list, CodePoint8(s, i)) != cond then i
    else SpanFromUTF8(list, s, i + Length8(s, i), cond)
  }

  /** A run of bytes that each stand for U+FFFD is passed over as a whole, or stops the span. */
  lemma {:induction false} SpanOverIllegal(list: seq<int>, s: seq<byte>, i: nat, j: nat, cond: bool)
    requires i <= j <= |s|
    requires forall k :: i <= k < j ==> WellFormed(s, k) == 0
    ensures Member(list, REPLACEMENT) == cond ==> SpanFromUTF8(list, s, i, cond) == SpanFromUTF8(list, s, j, cond)
    ensures Member(list, REPLACEMENT) != cond && i < j ==> SpanFromUTF8(list, s, i, cond) == i
    decreases j - i
  {
    if i < j { SpanOverIllegal(list, s, i + 1, j, cond); }
  }

  /** The bytes of a scalar value, as in section 3 of RFC 3629. */
  function Encode8(c: int): (e: seq<byte>)
    requires Scalar(c)
    ensures 1 <= |e| <= 4
  {
    if c < 0x80 then [c]
    else if c < 0x800 then [0xc0 + c / 0x40, 0x80 + c % 0x40]
    else if c < 0x10000 then [0xe0 + c / 0x1000, 0x80 + c / 0x40 % 0x40, 0x80 + c % 0x40]
    else [0xf0 + c / 0x40000, 0x80 + c / 0x1000 % 0x40, 0x80 + c / 0x40 % 0x40, 0x80 + c % 0x40]
  }

  /** A scalar value is read back from wherever its bytes are. */
  lemma EncodedIsRead8(s: seq<byte>, i: nat, c: int)
    requires Scalar(c) && i + |Encode8(c)| <= |s| && s[i..i + |Encode8(c)|] == Encode8(c)
    ensures WellFormed(s, i) == |Encode8(c)| && CodePoint8(s, i) == c
  {
    hide Encode8, Combine2, Combine3, Combine4, Scalar;
    var e := Encode8(c);
    forall k | 0 <= k < |e| ensures s[i + k] == e[k] {
      assert s[i + k] == s[i..i + |e|][k];
    }
    assert s[i] == e[0];
    assert |e| >= 2 ==> s[i + 1] == e[1];
    assert |e| >= 3 ==> s[i + 2] == e[2];
    assert |e| >= 4 ==> s[i + 3] == e[3];
    Encoded(c);
  }

  lemma Encoded(c: int)
    requires Scalar(c)
    ensures
      var e := Encode8(c);
      match |e|
      case 1 => e[0] == c <= 0x7f
      case 2 => 0xc2 <= e[0] <= 0xdf && Tail(e[1]) && Combine2(e[0], e[1]) == c
      case 3 =>
        && 0xe0 <= e[0] <= 0xef && Tail(e[1]) && Tail(e[2]) && Combine3(e[0], e[1], e[2]) == c
        && (e[0] == 0xe0 ==> e[1] >= 0xa0) && (e[0] == 0xed ==> e[1] <= 0x9f)
      case _ =>
        && 0xf0 <= e[0] <= 0xf4 && Tail(e[1]) && Tail(e[2]) && Tail(e[3]) && Combine4(e[0], e[1], e[2], e[3]) == c
        && (e[0] == 0xf0 ==> e[1] >= 0x90) && (e[0] == 0xf4 ==> e[1] <= 0x8f)
  {
    DigitsBy64(c);
  }

  lemma DigitsBy64(c: nat)
    ensures c == c / 0x40 * 0x40 + c % 0x40
    ensures c / 0x40 == c / 0x1000 * 0x40 + c / 0x40 % 0x40
    ensures c / 0x1000 == c / 0x40000 * 0x40 + c / 0x1000 % 0x40
  {
    assert c / 0x40 / 0x40 == c / 0x1000;
    assert c / 0x1000 / 0x40 == c / 0x40000;
  }

  /** Every well-formed sequence is the encoding of a scalar value. */
  lemma WellFormedIsEncoded8(s: seq<byte>, i: nat)
    requires i < |s| && WellFormed(s, i) > 0
    ensures Scalar(CodePoint8(s, i)) && s[i..i + WellFormed(s, i)] == Encode8(CodePoint8(s, i))
  {
    hide Encode8, Scalar, Combine2, Combine3, Combine4;
    match WellFormed(s, i)
    case 1 => EncodedByOne(s[i]);
    case 2 => EncodedByTwo(s[i], s[i + 1]);
    case 3 => EncodedByThree(s[i], s[i + 1], s[i + 2]);
    case _ => EncodedByFour(s[i], s[i + 1], s[i + 2], s[i + 3]);
  }

  lemma EncodedByOne(b: byte)
    requires b < 0x80
    ensures Scalar(b) && Encode8(b) == [b]
  {
  }

  lemma EncodedByTwo(b: byte, t1: byte)
    requires 0xc2 <= b <= 0xdf && Tail(t1)
    ensures Scalar(Combine2(b, t1)) && Encode8(Combine2(b, t1)) == [b, t1]
  {
    var c := Combine2(b, t1);
    assert c / 0x40 == b - 0xc0 && c % 0x40 == t1 - 0x80;
  }

  lemma EncodedByThree(b: byte, t1: byte, t2: byte)
    requires 0xe0 <= b <= 0xef && Tail(t1) && Tail(t2) && (b == 0xe0 ==> t1 >= 0xa0) && (b == 0xed ==> t1 <= 0x9f)
    ensures Scalar(Combine3(b, t1, t2)) && Encode8(Combine3(b, t1, t2)) == [b, t1, t2]
  {
    ThreeDigits(Combine3(b, t1, t2), b - 0xe0, t1 - 0x80, t2 - 0x80);
  }

  lemma EncodedByFour(b: byte, t1: byte, t2: byte, t3: byte)
    requires 0xf0 <= b <= 0xf4 && Tail(t1) && Tail(t2) && Tail(t3)
    requires (b == 0xf0 ==> t1 >= 0x90) && (b == 0xf4 ==> t1 <= 0x8f)
    ensures Scalar(Combine4(b, t1, t2, t3)) && Encode8(Combine4(b, t1, t2, t3)) == [b, t1, t2, t3]
  {
    FourDigits(Combine4(b, t1, t2, t3), b - 0xf0, t1 - 0x80, t2 - 0x80, t3 - 0x80);
  }

  lemma ThreeDigits(c: nat, x: nat, y: nat, z: nat)
    requires c == x * 0x1000 + y * 0x40 + z && y < 0x40 && z < 0x40
    ensures c / 0x1000 == x && c / 0x40 % 0x40 == y && c % 0x40 == z
  {
    assert c / 0x40 == x * 0x40 + y;
  }

  lemma FourDigits(c: nat, w: nat, x: nat, y: nat, z: nat)
    requires c == w * 0x40000 + x * 0x1000 + y * 0x40 + z && x < 0x40 && y < 0x40 && z < 0x40
    ensures c / 0x40000 == w && c / 0x1000 % 0x40 == x && c / 0x40 % 0x40 == y && c % 0x40 == z
  {
    ThreeDigits(c, w * 0x40 + x, y, z);
    assert c / 0x1000 == w * 0x40 + x;
  }

  ghost function EncodeAll8(cs: seq<int>): seq<byte>
    requires Scalars(cs)
  {
    if cs == [] then [] else Encode8(cs[0]) + EncodeAll8(cs[1..])
  }

  lemma EncodeFirst8(cs: seq<int>, k: nat)
    requires Scalars(cs) && 0 < k <= |cs|
    ensures Scalars(cs[1..]) && EncodeAll8(cs) == Encode8(cs[0]) + EncodeAll8(cs[1..])
    ensures |EncodeAll8(cs[..k])| == |Encode8(cs[0])| + |EncodeAll8(cs[1..][..k - 1])|
  {
    hide Encode8;
    assert cs[..k][1..] == cs[1..][..k - 1] && cs[..k][0] == cs[0];
  }

  /** The span of well-formed text is as long as the first `k` code points, if the membership changes there. */
  lemma {:induction false} SpanOfEncoded8(list: seq<int>, p: seq<byte>, cs: seq<int>, k: nat, cond: bool)
    requires Scalars(cs) && k <= |cs| && (forall j :: 0 <= j < k ==> Member(list, cs[j]) == cond)
    requires k < |cs| ==> Member(list, cs[k]) != cond
    ensures SpanFromUTF8(list, p + EncodeAll8(cs), |p|, cond) == |p| + |EncodeAll8(cs[..k])|
    decreases |cs|
  {
    hide Member, CodePoint8, WellFormed, Encode8, Scalar, EncodeAll8;
    assert EncodeAll8([]) == [] && cs[..0] == [] by { EncodeNone8(); }
    if cs != [] {
      var e, rest := Encode8(cs[0]), EncodeAll8(cs[1..]);
      EncodeFirst8(cs, if k > 0 then k else 1);
      InFront(p, e, rest);
      EncodedIsRead8(p + (e + rest), |p|, cs[0]);
      if k > 0 { SpanOfEncoded8(list, p + e, cs[1..], k - 1, cond); }
    }
  }

  lemma EncodeNone8()
    ensures EncodeAll8([]) == []
  {
  }

  ghost predicate EncodedAt(s: seq<byte>, i: nat, c: int) {
    Scalar(c) && i + |Encode8(c)| <= |s| && s[i..i + |Encode8(c)|] == Encode8(c)
  }

  /**
   In any bytes: the span goes on over an encoded scalar value, or stops at it, by its membership. A byte where none
   is encoded is passed over or stops it by the membership of U+FFFD.
   */
  lemma SpanStep8(list: seq<int>, s: seq<byte>, i: nat, cond: bool)
    requires i < |s|
    ensures forall c :: EncodedAt(s, i, c) ==>
      SpanFromUTF8(list, s, i, cond)
      == if Member(list, c) == cond then SpanFromUTF8(list, s, i + |Encode8(c)|, cond) else i
    ensures (forall c :: !EncodedAt(s, i, c)) ==>
      SpanFromUTF8(list, s, i, cond) == if Member(list, 0xfffd) == cond then SpanFromUTF8(list, s, i + 1, cond) else i
  {
    hide Member, WellFormed, CodePoint8, Encode8;
    forall c | EncodedAt(s, i, c) ensures WellFormed(s, i) == |Encode8(c)| && CodePoint8(s, i) == c {
      EncodedIsRead8(s, i, c);
    }
    if WellFormed(s, i) > 0 {
      WellFormedIsEncoded8(s, i);
      assert |Encode8(CodePoint8(s, i))| == |s[i..i + WellFormed(s, i)]| == WellFormed(s, i);
      assert EncodedAt(s, i, CodePoint8(s, i));
    } else {
      IllegalIsReplaced(s, i);
    }
  }

  lemma IllegalIsReplaced(s: seq<byte>, i: nat)
    requires i < |s| && WellFormed(s, i) == 0
    ensures CodePoint8(s, i) == 0xfffd
  {
  }
}
