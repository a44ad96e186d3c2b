/**
 Sentence breaks without those after abbreviations: how a set of abbreviations is divided between a trie
 that is read backwards and one that is read forwards, and how the breaks of another iterator are filtered.
 */
module AbbreviationBuilder {

  const PARTIAL := 1
  const MATCH := 2
  const SUPPRESS_IN_REVERSE := 1
  const ADD_TO_FORWARD := 2
  const BOTH := SUPPRESS_IN_REVERSE + ADD_TO_FORWARD

  datatype Key = Key(str: string, value: int)

  /** The index of the first full stop from `i` on, or -1. */
  function IndexOfFullStop(s: string, i: nat): (n: int)
    requires i <= |s|
    ensures n == -1 ==> forall k :: i <= k < |s| ==> s[k] != '.'
    ensures n != -1 ==> i <= n < |s| && s[n] == '.' && forall k :: i <= k < n ==> s[k] != '.'
    decreases |s| - i
  {
    if i == |s| then -1 else if s[i] == '.' then i else IndexOfFullStop(s, i + 1)
  }

  /** The string goes on after its first full stop. */
  ghost predicate Continues(s: string) {
    var n := IndexOfFullStop(s, 0);
    n > -1 && n + 1 != |s|
  }

  /** A string through its first full stop. */
  ghost function Prefix(s: string): string {
    s[..IndexOfFullStop(s, 0) + 1]
  }

  function Reversed(s: string): (r: string)
    ensures |r| == |s| && forall k :: 0 <= k < |s| ==> r[k] == s[|s| - 1 - k]
  {
    seq(|s|, k requires 0 <= k < |s| => s[|s| - 1 - k])
  }

  lemma ReversedInjective(s: string, t: string)
    requires Reversed(s) == Reversed(t)
    ensures s == t
  {
    assert forall k :: 0 <= k < |s| ==> s[k] == Reversed(s)[|s| - 1 - k] && t[k] == Reversed(t)[|t| - 1 - k];
  }

  /** String `j` starts with what string `i` has through its first full stop, and string `i` goes on after it. */
  ghost predicate Groups(ustrs: seq<string>, i: nat, j: nat) {
    && i < |ustrs| && j < |ustrs| && Continues(ustrs[i]) && Prefix(ustrs[i]) <= ustrs[j]
  }

  /** String `j` belongs to a group of which one of the first `n` strings goes on after the full stop. */
  ghost predicate Partial(ustrs: seq<string>, n: nat, j: nat) {
    exists i :: 0 <= i < n && Groups(ustrs, i, j)
  }

  /** Strings of a group have the same first full stop. */
  lemma SameGroup(ustrs: seq<string>, i: nat, j: nat)
    requires Groups(ustrs, i, j)
    ensures IndexOfFullStop(ustrs[j], 0) == IndexOfFullStop(ustrs[i], 0) && Prefix(ustrs[j]) == Prefix(ustrs[i])
  {
    var n := IndexOfFullStop(ustrs[i], 0);
    var p := Prefix(ustrs[i]);
    assert forall k :: 0 <= k <= n ==> ustrs[j][k] == p[k] && p[k] == ustrs[i][k];
  }

  lemma GroupsItself(ustrs: seq<string>, i: nat)
    requires i < |ustrs| && Continues(ustrs[i])
    ensures Groups(ustrs, i, i)
  {
  }

  /** If the group of string `i` was met before, then all of it was, and otherwise none of it. */
  lemma WholeGroups(ustrs: seq<string>, n: nat, i: nat, j: nat)
    requires Groups(ustrs, i, j) && n <= |ustrs|
    ensures Partial(ustrs, n, i) <==> Partial(ustrs, n, j)
  {
    SameGroup(ustrs, i, j);
    forall k | 0 <= k < n ensures Groups(ustrs, k, i) <==> Groups(ustrs, k, j) {
      if Groups(ustrs, k, i) { SameGroup(ustrs, k, i); }
      if Groups(ustrs, k, j) { SameGroup(ustrs, k, j); }
    }
  }

  /** `adds` holds the reversed prefixes of the groups that the first `n` strings show, each once. */
  ghost predicate PartialKeys(ustrs: seq<string>, n: nat, adds: seq<Key>) {
    && (forall e :: e in adds <==>
          e.value == PARTIAL && exists i :: 0 <= i < n && i < |ustrs| && Continues(ustrs[i]) && e.str == Reversed(Prefix(ustrs[i])))
    && Unique(adds)
  }

  ghost predicate Unique(keys: seq<Key>) {
    forall k, l :: 0 <= k < l < |keys| ==> keys[k].str != keys[l].str
  }

  lemma UniqueAdd(keys: seq<Key>, e: Key)
    requires Unique(keys) && forall f :: f in keys ==> f.str != e.str
    ensures Unique(keys + [e])
  {
  }

  /** Marks after the first `n` strings: those in the groups that these show. */
  ghost predicate Marked(ustrs: seq<string>, n: nat, partials: seq<int>) {
    && |partials| == |ustrs|
    && forall j :: 0 <= j < |ustrs| ==> partials[j] == if Partial(ustrs, n, j) then BOTH else 0
  }

  /** Marks while string `i` is compared with the others: of its own group, those before `m` are marked, except itself. */
  ghost predicate Marking(ustrs: seq<string>, i: nat, m: nat, partials: seq<int>) {
    && |partials| == |ustrs|
    && forall j :: 0 <= j < |ustrs| ==>
         partials[j] == if Partial(ustrs, i, j) || (Groups(ustrs, i, j) && j < m && j != i) then BOTH else 0
  }

  /** The two strings agree as far as `n`, if both are that long. */
  predicate SamePrefix(s: string, t: string, n: nat) { n <= |s| && n <= |t| && s[..n] == t[..n] }

  lemma SamePrefixGroups(ustrs: seq<string>, i: nat, j: nat)
    requires i < |ustrs| && j < |ustrs| && Continues(ustrs[i])
    ensures SamePrefix(ustrs[i], ustrs[j], IndexOfFullStop(ustrs[i], 0) + 1) <==> Groups(ustrs, i, j)
  {
  }

  /** A string that does not go on after its first full stop shows no group. */
  lemma NoGroup(ustrs: seq<string>, i: nat, partials: seq<int>, adds: seq<Key>)
    requires i < |ustrs| && !Continues(ustrs[i]) && Marked(ustrs, i, partials) && PartialKeys(ustrs, i, adds)
    ensures Marked(ustrs, i + 1, partials) && PartialKeys(ustrs, i + 1, adds)
  {
    forall j | 0 <= j < |ustrs| ensures Partial(ustrs, i + 1, j) <==> Partial(ustrs, i, j) {
      if k :| 0 <= k < i + 1 && Groups(ustrs, k, j) { assert k < i; }
    }
  }

  lemma NotAnEarlierPrefix(ustrs: seq<string>, k: nat, i: nat)
    requires k < i < |ustrs| && Continues(ustrs[k]) && Continues(ustrs[i]) && !Partial(ustrs, i, i)
    ensures Reversed(Prefix(ustrs[k])) != Reversed(Prefix(ustrs[i]))
  {
    assert !Groups(ustrs, k, i);
    if Reversed(Prefix(ustrs[k])) == Reversed(Prefix(ustrs[i])) {
      ReversedInjective(Prefix(ustrs[k]), Prefix(ustrs[i]));
      assert false;
    }
  }

  /** The first string of its group that goes on after the full stop: its prefix is new. */
  lemma NewGroup(ustrs: seq<string>, i: nat, partials: seq<int>, adds: seq<Key>)
    requires i < |ustrs| && Continues(ustrs[i]) && !Partial(ustrs, i, i)
    requires Marking(ustrs, i, |ustrs|, partials) && PartialKeys(ustrs, i, adds)
    ensures Marked(ustrs, i + 1, partials[i := BOTH])
    ensures PartialKeys(ustrs, i + 1, adds + [Key(Reversed(Prefix(ustrs[i])), PARTIAL)])
  {
    GroupsItself(ustrs, i);
    forall j | 0 <= j < |ustrs| ensures Partial(ustrs, i + 1, j) <==> Partial(ustrs, i, j) || Groups(ustrs, i, j) {
      if k :| 0 <= k < i + 1 && Groups(ustrs, k, j) { assert k < i || Groups(ustrs, i, j); }
    }
    var e := Key(Reversed(Prefix(ustrs[i])), PARTIAL);
    forall f | f in adds ensures f.str != e.str {
      var k :| 0 <= k < i && Continues(ustrs[k]) && f.str == Reversed(Prefix(ustrs[k]));
      NotAnEarlierPrefix(ustrs, k, i);
    }
    UniqueAdd(adds, e);
    NewKeys(ustrs, i, adds, e);
  }

  lemma NewKeys(ustrs: seq<string>, i: nat, adds: seq<Key>, e: Key)
    requires i < |ustrs| && Continues(ustrs[i]) && PartialKeys(ustrs, i, adds)
    requires e == Key(Reversed(Prefix(ustrs[i])), PARTIAL)
    ensures forall f :: f in adds + [e] <==>
      f.value == PARTIAL && exists k :: 0 <= k < i + 1 && k < |ustrs| && Continues(ustrs[k]) && f.str == Reversed(Prefix(ustrs[k]))
  {
    hide Continues, Prefix, Reversed;
    forall f: Key ensures f in adds + [e] <==>
      f.value == PARTIAL && exists k :: 0 <= k < i + 1 && k < |ustrs| && Continues(ustrs[k]) && f.str == Reversed(Prefix(ustrs[k]))
    {
      if f == e { assert Continues(ustrs[i]) && f.str == Reversed(Prefix(ustrs[i])); }
    }
  }

  /** A later string of a group: nothing is new. */
  lemma OldGroup(ustrs: seq<string>, i: nat, partials: seq<int>, adds: seq<Key>)
    requires i < |ustrs| && Continues(ustrs[i]) && Partial(ustrs, i, i)
    requires Marking(ustrs, i, |ustrs|, partials) && PartialKeys(ustrs, i, adds)
    ensures Marked(ustrs, i + 1, partials) && PartialKeys(ustrs, i + 1, adds)
  {
    forall j | 0 <= j < |ustrs|
      ensures Partial(ustrs, i + 1, j) <==> Partial(ustrs, i, j)
      ensures Groups(ustrs, i, j) ==> Partial(ustrs, i, j)
    {
      if Groups(ustrs, i, j) { WholeGroups(ustrs, i, i, j); }
      if k :| 0 <= k < i + 1 && Groups(ustrs, k, j) { assert k < i || Groups(ustrs, i, j); }
    }
    var k :| 0 <= k < i && Groups(ustrs, k, i);
    SameGroup(ustrs, k, i);
    assert Prefix(ustrs[k]) == Prefix(ustrs[i]);
  }

  /** What goes where: the prefixes of groups and the strings outside of groups backwards, the strings in groups forwards. */
  ghost predicate Divided(ustrs: seq<string>, backward: seq<Key>, forward: seq<Key>) {
    && (forall e :: e in backward <==>
          || (e.value == PARTIAL && exists i :: 0 <= i < |ustrs| && Continues(ustrs[i]) && e.str == Reversed(Prefix(ustrs[i])))
          || (e.value == MATCH && exists i :: 0 <= i < |ustrs| && !Partial(ustrs, |ustrs|, i) && e.str == Reversed(ustrs[i])))
    && (forall e :: e in forward <==>
          e.value == MATCH && exists i :: 0 <= i < |ustrs| && Partial(ustrs, |ustrs|, i) && e.str == ustrs[i])
  }

  /** Outside of the groups, the first `n` strings have been added backwards, in them forwards. */
  ghost predicate Adding(ustrs: seq<string>, n: nat, partialKeys: seq<Key>, backward: seq<Key>, forward: seq<Key>) {
    && n <= |ustrs|
    && (forall e :: e in backward <==>
          || e in partialKeys
          || (e.value == MATCH && exists i :: 0 <= i < n && !Partial(ustrs, |ustrs|, i) && e.str == Reversed(ustrs[i])))
    && (forall e :: e in forward <==>
          e.value == MATCH && exists i :: 0 <= i < n && Partial(ustrs, |ustrs|, i) && e.str == ustrs[i])
    && Unique(backward) && Unique(forward)
  }

  ghost predicate Distinct(ustrs: seq<string>) {
    forall i, j :: 0 <= i < j < |ustrs| ==> ustrs[i] != ustrs[j]
  }

  lemma NoneAdded(ustrs: seq<string>, partialKeys: seq<Key>)
    requires PartialKeys(ustrs, |ustrs|, partialKeys)
    ensures Adding(ustrs, 0, partialKeys, partialKeys, [])
  {
  }

  /** A string outside of the groups is not the prefix of one, nor equal to another string. */
  lemma AddBackward(ustrs: seq<string>, n: nat, partialKeys: seq<Key>, backward: seq<Key>, forward: seq<Key>)
    requires Distinct(ustrs) && n < |ustrs| && !Partial(ustrs, |ustrs|, n)
    requires PartialKeys(ustrs, |ustrs|, partialKeys) && Adding(ustrs, n, partialKeys, backward, forward)
    ensures Adding(ustrs, n + 1, partialKeys, backward + [Key(Reversed(ustrs[n]), MATCH)], forward)
  {
    hide Partial;
    var e := Key(Reversed(ustrs[n]), MATCH);
    forall f | f in backward ensures f.str != e.str {
      if f in partialKeys {
        var k :| 0 <= k < |ustrs| && Continues(ustrs[k]) && f.str == Reversed(Prefix(ustrs[k]));
        NotAPrefix(ustrs, n, k);
      } else {
        var i :| 0 <= i < n && f.str == Reversed(ustrs[i]);
        if f.str == e.str { ReversedInjective(ustrs[i], ustrs[n]); }
      }
    }
    UniqueAdd(backward, e);
  }

  lemma NotAPrefix(ustrs: seq<string>, n: nat, k: nat)
    requires n < |ustrs| && k < |ustrs| && Continues(ustrs[k]) && !Partial(ustrs, |ustrs|, n)
    ensures Reversed(Prefix(ustrs[k])) != Reversed(ustrs[n])
  {
    assert !Groups(ustrs, k, n);
    if Reversed(Prefix(ustrs[k])) == Reversed(ustrs[n]) {
      ReversedInjective(Prefix(ustrs[k]), ustrs[n]);
      assert false;
    }
  }

  lemma AddForward(ustrs: seq<string>, n: nat, partialKeys: seq<Key>, backward: seq<Key>, forward: seq<Key>)
    requires Distinct(ustrs) && n < |ustrs| && Partial(ustrs, |ustrs|, n)
    requires Adding(ustrs, n, partialKeys, backward, forward)
    ensures Adding(ustrs, n + 1, partialKeys, backward, forward + [Key(ustrs[n], MATCH)])
  {
    hide Partial, Reversed;
    var e := Key(ustrs[n], MATCH);
    UniqueAdd(forward, e);
  }

  lemma AllAdded(ustrs: seq<string>, partialKeys: seq<Key>, backward: seq<Key>, forward: seq<Key>)
    requires PartialKeys(ustrs, |ustrs|, partialKeys) && Adding(ustrs, |ustrs|, partialKeys, backward, forward)
    ensures Divided(ustrs, backward, forward) && Unique(backward) && Unique(forward)
  {
    hide Partial, Reversed, Prefix, Continues;
  }

  /**
   The keys for the two tries, from a set of strings: each group of strings with the same prefix through the first full
   stop, one of which goes on after it, gives its reversed prefix once, and all its strings forwards; every other string
   is reversed. No key comes twice.
   */
  method Build(strings: seq<string>) returns (backward: seq<Key>, forward: seq<Key>)
    requires Distinct(strings)
    ensures Divided(strings, backward, forward) && Unique(backward) && Unique(forward)
  {
    hide Partial, Divided, Distinct, PartialKeys, Adding, Marked, Marking, Reversed, Prefix, Unique;
    var subCount := |strings|;
    var ustrs := new string[subCount](i requires 0 <= i < subCount => strings[i]);
    var partials := new int[subCount](_ => 0);
    backward, forward := [], [];
    NothingMarked(strings, partials[..]);
    for i := 0 to subCount
      invariant Marked(strings, i, partials[..]) && PartialKeys(strings, i, backward)
      invariant forall k :: 0 <= k < subCount ==> ustrs[k] == strings[k]
    {
      var nn := IndexOfFullStop(ustrs[i], 0);
      if nn > -1 && nn + 1 != |ustrs[i]| {
        var sameAs := MarkGroup(strings, ustrs, partials, i, nn);
        if sameAs == -1 && partials[i] == 0 {
          NewGroup(strings, i, partials[..], backward);
          var prefix := ustrs[i][..nn + 1];
          PrefixOf(strings[i], nn);
          backward := backward + [Key(Reversed(prefix), PARTIAL)];
          ghost var p := partials[..];
          partials[i] := BOTH;
          assert partials[..] == p[i := BOTH];
        } else {
          OldGroup(strings, i, partials[..], backward);
        }
      } else {
        NoGroup(strings, i, partials[..], backward);
      }
    }
    ghost var partialKeys := backward;
    NoneAdded(strings, partialKeys);
    for i := 0 to subCount
      invariant Marked(strings, subCount, partials[..])
      invariant Adding(strings, i, partialKeys, backward, forward)
      invariant forall k :: i <= k < subCount ==> ustrs[k] == strings[k]
    {
      MarkedAt(strings, partials[..], i);
      if partials[i] == 0 {
        AddBackward(strings, i, partialKeys, backward, forward);
        ustrs[i] := Reversed(ustrs[i]);
        backward := backward + [Key(ustrs[i], MATCH)];
      } else {
        AddForward(strings, i, partialKeys, backward, forward);
        forward := forward + [Key(ustrs[i], MATCH)];
      }
    }
    AllAdded(strings, partialKeys, backward, forward);
  }

  /** Of three abbreviations, two are a group by what they have in common through the full stop. */
  method BuildExample() returns (backward: seq<Key>, forward: seq<Key>)
    ensures forall e :: e in backward <==> e == Key(".hP", 1) || e == Key(".rM", 2)
    ensures forall e :: e in forward <==> e == Key("Ph.", 2) || e == Key("Ph.D.", 2)
    ensures Unique(backward) && Unique(forward)
  {
    hide Partial, Groups, Continues, Prefix, Reversed, Unique;
    var strings := ["Mr.", "Ph.", "Ph.D."];
    backward, forward := Build(strings);
    ExampleGroups(strings);
  }

  lemma ExampleGroups(strings: seq<string>)
    requires strings == ["Mr.", "Ph.", "Ph.D."]
    ensures !Continues(strings[0]) && !Continues(strings[1]) && Continues(strings[2])
    ensures Prefix(strings[2]) == "Ph."
    ensures Reversed("Ph.") == ".hP" && Reversed("Mr.") == ".rM"
    ensures !Partial(strings, 3, 0) && Partial(strings, 3, 1) && Partial(strings, 3, 2)
  {
    FullStops(strings[0], strings[1], strings[2]);
    assert Groups(strings, 2, 1) && Groups(strings, 2, 2);
    forall i | 0 <= i < 3 ensures !Groups(strings, i, 0) {
      assert i == 0 || i == 1 || i == 2;
      assert "Ph."[0] != "Mr."[0];
    }
  }

  lemma FullStops(a: string, b: string, c: string)
    requires a == "Mr." && b == "Ph." && c == "Ph.D."
    ensures IndexOfFullStop(a, 0) == IndexOfFullStop(b, 0) == IndexOfFullStop(c, 0) == 2
  {
    hide IndexOfFullStop;
    assert a[0] != '.' && a[1] != '.' && a[2] == '.';
    assert b[0] != '.' && b[1] != '.' && b[2] == '.';
    assert c[0] != '.' && c[1] != '.' && c[2] == '.';
  }

  lemma NothingMarked(ustrs: seq<string>, partials: seq<int>)
    requires |partials| == |ustrs| && forall k :: 0 <= k < |partials| ==> partials[k] == 0
    ensures Marked(ustrs, 0, partials) && PartialKeys(ustrs, 0, [])
  {
  }

  lemma MarkedAt(ustrs: seq<string>, partials: seq<int>, i: nat)
    requires Marked(ustrs, |ustrs|, partials) && i < |ustrs|
    ensures |partials| == |ustrs| && (partials[i] == 0 <==> !Partial(ustrs, |ustrs|, i))
  {
  }

  lemma PrefixOf(s: string, nn: int)
    requires nn == IndexOfFullStop(s, 0) && nn > -1
    ensures Prefix(s) == s[..nn + 1]
  {
  }

  /**
   String `i` goes on after its first full stop at `nn`: the other strings of its group are marked. If they were
   marked before, the index of the last of them is returned, and -1 otherwise.
   */
  method MarkGroup(ghost strings: seq<string>, ustrs: array<string>, partials: array<int>, i: nat, nn: int) returns (sameAs: int)
    requires i < |strings| == ustrs.Length == partials.Length && Continues(strings[i]) && nn == IndexOfFullStop(strings[i], 0)
    requires forall k :: 0 <= k < ustrs.Length ==> ustrs[k] == strings[k]
    requires Marked(strings, i, partials[..])
    modifies partials
    ensures Marking(strings, i, |strings|, partials[..])
    ensures sameAs == -1 && partials[i] == 0 <==> !Partial(strings, i, i)
  {
    sameAs := -1;
    var j := 0;
    while j < ustrs.Length
      invariant 0 <= j <= ustrs.Length
      invariant Marking(strings, i, j, partials[..])
      invariant !Partial(strings, i, i) ==> sameAs == -1
      decreases ustrs.Length - j
    {
      if j != i {
        SamePrefixGroups(strings, i, j);
        if SamePrefix(ustrs[i], ustrs[j], nn + 1) {
          WholeGroups(strings, i, i, j);
          if partials[j] == 0 {
            partials[j] := BOTH;
          } else if partials[j] % 2 == SUPPRESS_IN_REVERSE {
            sameAs := j;
          }
        }
      }
      j := j + 1;
    }
  }
}

module FilteredBreaks {

  const UBRK_DONE := -1

  /** The boundaries of a text: in ascending order, from its start to its end. */
  ghost predicate Boundaries(b: seq<int>) {
    && |b| > 0 && b[0] == 0
    && forall j, k :: 0 <= j < k < |b| ==> b[j] < b[k]
  }

  /** The iterator whose breaks are filtered. */
  class Delegate {
    const boundaries: seq<int>
    var at: nat

    ghost predicate Valid()
      reads this
    {
      Boundaries(boundaries) && at < |boundaries|
    }

    constructor (boundaries: seq<int>)
      requires Boundaries(boundaries)
      ensures Valid() && this.boundaries == boundaries && at == 0
    {
      this.boundaries := boundaries;
      at := 0;
    }

    method First() returns (n: int)
      requires Valid()
      modifies this
      ensures Valid() && at == 0 && n == 0
    {
      at := 0;
      n := boundaries[at];
    }

    method Last() returns (n: int)
      requires Valid()
      modifies this
      ensures Valid() && at == |boundaries| - 1 && n == boundaries[at]
    {
      at := |boundaries| - 1;
      n := boundaries[at];
    }

    method Next() returns (n: int)
      requires Valid()
      modifies this
      ensures Valid()
      ensures if old(at) + 1 < |boundaries| then at == old(at) + 1 && n == boundaries[at] else at == old(at) && n == UBRK_DONE
    {
      if at + 1 < |boundaries| {
        at := at + 1;
        n := boundaries[at];
      } else {
        n := UBRK_DONE;
      }
    }

    method Previous() returns (n: int)
      requires Valid()
      modifies this
      ensures Valid()
      ensures if old(at) > 0 then at == old(at) - 1 && n == boundaries[at] else at == old(at) && n == UBRK_DONE
    {
      if at > 0 {
        at := at - 1;
        n := boundaries[at];
      } else {
        n := UBRK_DONE;
      }
    }
  }

  /** The ends of the text are kept, and all boundaries that are not exceptions. */
  ghost predicate Kept(b: seq<int>, exception: int -> bool, k: nat) {
    k < |b| && (k == 0 || k == |b| - 1 || !exception(b[k]))
  }

  /** The kept boundaries from index `i` up to `j`. */
  ghost function KeptFrom(b: seq<int>, exception: int -> bool, i: nat, j: nat): seq<int>
    requires j <= |b|
    decreases j - i
  {
    if i >= j then []
    else if Kept(b, exception, i) then [b[i]] + KeptFrom(b, exception, i + 1, j)
    else KeptFrom(b, exception, i + 1, j)
  }

  lemma {:induction false} KeptConcat(b: seq<int>, exception: int -> bool, i: nat, j: nat, k: nat)
    requires i <= j <= k <= |b|
    ensures KeptFrom(b, exception, i, k) == KeptFrom(b, exception, i, j) + KeptFrom(b, exception, j, k)
    decreases j - i
  {
    if i < j { KeptConcat(b, exception, i + 1, j, k); }
  }

  lemma {:induction false} NoneKept(b: seq<int>, exception: int -> bool, i: nat, j: nat)
    requires j <= |b| && forall k :: i <= k < j ==> !Kept(b, exception, k)
    ensures KeptFrom(b, exception, i, j) == []
    decreases j - i
  {
    if i < j { NoneKept(b, exception, i + 1, j); }
  }

  /** What is kept, position by position. */
  lemma {:induction false} KeptMeaning(b: seq<int>, exception: int -> bool, i: nat, j: nat, n: int)
    requires j <= |b|
    ensures n in KeptFrom(b, exception, i, j) <==> exists k :: i <= k < j && Kept(b, exception, k) && b[k] == n
    decreases j - i
  {
    if i < j { KeptMeaning(b, exception, i + 1, j, n); }
  }

  ghost function Backwards(s: seq<int>): (r: seq<int>) {
    if s == [] then [] else Backwards(s[1..]) + [s[0]]
  }

  lemma {:induction false} BackwardsConcat(a: seq<int>, b: seq<int>)
    ensures Backwards(a + b) == Backwards(b) + Backwards(a)
  {
    if a == [] {
      assert a + b == b;
    } else {
      BackwardsConcat(a[1..], b);
      assert (a + b)[1..] == a[1..] + b;
    }
  }

  /** The iterator that skips the exceptions; without data for a backwards trie, there are none. */
  class Filtered {
    const delegate: Delegate
    const hasBackwardsTrie: bool
    const exception: int -> bool

    ghost predicate Valid()
      reads this, delegate
    {
      delegate.Valid()
    }

    /** What counts as an exception. */
    ghost function Skips(): int -> bool {
      if hasBackwardsTrie then exception else (n => false)
    }

    constructor (delegate: Delegate, hasBackwardsTrie: bool, exception: int -> bool)
      requires delegate.Valid()
      ensures Valid() && this.delegate == delegate && this.exception == exception
      ensures this.hasBackwardsTrie == hasBackwardsTrie
    {
      this.delegate := delegate;
      this.hasBackwardsTrie := hasBackwardsTrie;
      this.exception := exception;
    }

    /** From a boundary of the delegate on, the first one that is kept. */
    method InternalNext(n0: int) returns (n: int)
      requires Valid()
      requires n0 == UBRK_DONE || (n0 == delegate.boundaries[delegate.at] && n0 != 0)
      modifies delegate
      ensures Valid() && delegate.at >= old(delegate.at)
      ensures n0 == UBRK_DONE ==> n == UBRK_DONE && delegate.at == old(delegate.at)
      ensures n0 != UBRK_DONE ==>
        && n == delegate.boundaries[delegate.at] && Kept(delegate.boundaries, Skips(), delegate.at)
        && forall k :: old(delegate.at) <= k < delegate.at ==> !Kept(delegate.boundaries, Skips(), k)
    {
      n := n0;
      if n == UBRK_DONE || !hasBackwardsTrie {
        return;
      }
      var utextLen := delegate.boundaries[|delegate.boundaries| - 1];
      while n != UBRK_DONE && n != utextLen
        invariant Valid() && n0 != UBRK_DONE && n == delegate.boundaries[delegate.at] && n != 0
        invariant delegate.at >= old(delegate.at)
        invariant forall k :: old(delegate.at) <= k < delegate.at ==> !Kept(delegate.boundaries, Skips(), k)
        decreases |delegate.boundaries| - delegate.at
      {
        if !exception(n) {
          return;
        }
        n := delegate.Next();
      }
    }

    /** From a boundary of the delegate back, the first one that is kept. */
    method InternalPrev(n0: int) returns (n: int)
      requires Valid()
      requires n0 == UBRK_DONE || (n0 == delegate.boundaries[delegate.at] && delegate.at + 1 < |delegate.boundaries|)
      modifies delegate
      ensures Valid() && delegate.at <= old(delegate.at)
      ensures n0 == UBRK_DONE ==> n == UBRK_DONE && delegate.at == old(delegate.at)
      ensures n0 != UBRK_DONE ==>
        && n == delegate.boundaries[delegate.at] && Kept(delegate.boundaries, Skips(), delegate.at)
        && forall k :: delegate.at < k <= old(delegate.at) ==> !Kept(delegate.boundaries, Skips(), k)
    {
      n := n0;
      if n == 0 || n == UBRK_DONE || !hasBackwardsTrie {
        return;
      }
      while n != UBRK_DONE && n != 0
        invariant Valid() && n0 != UBRK_DONE && n == delegate.boundaries[delegate.at]
        invariant delegate.at <= old(delegate.at) && delegate.at + 1 < |delegate.boundaries|
        invariant forall k :: delegate.at < k <= old(delegate.at) ==> !Kept(delegate.boundaries, Skips(), k)
        decreases delegate.at
      {
        if !exception(n) {
          return;
        }
        n := delegate.Previous();
      }
    }

    /** The next kept boundary, if there is one. */
    method Next() returns (n: int)
      requires Valid()
      modifies delegate
      ensures Valid()
      ensures old(delegate.at) + 1 == |delegate.boundaries| ==> n == UBRK_DONE && delegate.at == old(delegate.at)
      ensures old(delegate.at) + 1 < |delegate.boundaries| ==>
        && delegate.at > old(delegate.at) && n == delegate.boundaries[delegate.at] && Kept(delegate.boundaries, Skips(), delegate.at)
        && forall k :: old(delegate.at) < k < delegate.at ==> !Kept(delegate.boundaries, Skips(), k)
    {
      var d := delegate.Next();
      n := InternalNext(d);
    }

    /** The kept boundary before, if there is one. */
    method Previous() returns (n: int)
      requires Valid()
      modifies delegate
      ensures Valid()
      ensures old(delegate.at) == 0 ==> n == UBRK_DONE && delegate.at == old(delegate.at)
      ensures old(delegate.at) > 0 ==>
        && delegate.at < old(delegate.at) && n == delegate.boundaries[delegate.at] && Kept(delegate.boundaries, Skips(), delegate.at)
        && forall k :: delegate.at < k < old(delegate.at) ==> !Kept(delegate.boundaries, Skips(), k)
    {
      var d := delegate.Previous();
      n := InternalPrev(d);
    }

    method First() returns (n: int)
      requires Valid()
      modifies delegate
      ensures Valid() && n == 0 && delegate.at == 0
    {
      n := delegate.First();
    }

    method Last() returns (n: int)
      requires Valid()
      modifies delegate
      ensures Valid() && delegate.at == |delegate.boundaries| - 1 && n == delegate.boundaries[delegate.at]
    {
      n := delegate.Last();
    }

    /** Whether a position is a boundary that is not suppressed. */
    function IsBoundary(offset: int): bool {
      offset in delegate.boundaries && (hasBackwardsTrie ==> !exception(offset))
    }
  }

  lemma {:induction false} KeptAscend(b: seq<int>, x: int -> bool, i: nat, j: nat)
    requires j <= |b| && forall k, l :: 0 <= k < l < |b| ==> b[k] < b[l]
    ensures i < j ==> forall n :: n in KeptFrom(b, x, i, j) ==> b[i] <= n
    ensures i >= j ==> KeptFrom(b, x, i, j) == []
    ensures Climbing(KeptFrom(b, x, i, j))
    decreases j - i
  {
    if i < j {
      KeptAscend(b, x, i + 1, j);
      var rest := KeptFrom(b, x, i + 1, j);
      forall n | n in rest ensures b[i] < n {
        assert b[i] < b[i + 1];
      }
      ClimbingOn(b[i], rest);
    }
  }

  ghost predicate Climbing(v: seq<int>) {
    forall k, l :: 0 <= k < l < |v| ==> v[k] < v[l]
  }

  lemma ClimbingOn(n: int, v: seq<int>)
    requires Climbing(v) && forall m :: m in v ==> n < m
    ensures Climbing([n] + v)
  {
    forall k, l | 0 <= k < l < |v| + 1 ensures ([n] + v)[k] < ([n] + v)[l] {
      assert ([n] + v)[l] == v[l - 1] && v[l - 1] in v;
    }
  }

  lemma VisitedAre(it: Filtered)
    requires Boundaries(it.delegate.boundaries)
    ensures
      var b := it.delegate.boundaries;
      forall n :: n in KeptFrom(b, it.Skips(), 0, |b|)
        <==> n in b && (n == 0 || n == b[|b| - 1] || !it.hasBackwardsTrie || !it.exception(n))
  {
    var b, x := it.delegate.boundaries, it.Skips();
    forall n
      ensures n in KeptFrom(b, x, 0, |b|)
        <==> n in b && (n == 0 || n == b[|b| - 1] || !it.hasBackwardsTrie || !it.exception(n))
    {
      KeptMeaning(b, x, 0, |b|, n);
      if n in b {
        var k :| 0 <= k < |b| && b[k] == n;
        assert n == 0 ==> k == 0;
        assert n == b[|b| - 1] ==> k == |b| - 1;
      }
    }
  }

  lemma {:induction false} BackwardsAt(s: seq<int>)
    ensures |Backwards(s)| == |s| && forall k :: 0 <= k < |s| ==> Backwards(s)[k] == s[|s| - 1 - k]
    ensures forall n :: n in Backwards(s) <==> n in s
  {
    if s != [] {
      BackwardsAt(s[1..]);
      assert forall n :: n in s <==> n == s[0] || n in s[1..];
    }
  }

  /** From the first to the last: all kept boundaries in ascending order. */
  method WalkForward(it: Filtered) returns (visited: seq<int>)
    requires it.Valid()
    modifies it.delegate
    ensures it.Valid()
    ensures visited == KeptFrom(it.delegate.boundaries, it.Skips(), 0, |it.delegate.boundaries|)
    ensures forall j, k :: 0 <= j < k < |visited| ==> visited[j] < visited[k]
    ensures
      var b := it.delegate.boundaries;
      forall n :: n in visited <==> n in b && (n == 0 || n == b[|b| - 1] || !it.hasBackwardsTrie || !it.exception(n))
  {
    ghost var b, x := it.delegate.boundaries, it.Skips();
    var n := it.First();
    visited := [];
    while n != UBRK_DONE
      invariant it.Valid()
      invariant n != UBRK_DONE ==> n == b[it.delegate.at] && Kept(b, x, it.delegate.at) && visited == KeptFrom(b, x, 0, it.delegate.at)
      invariant n == UBRK_DONE ==> visited == KeptFrom(b, x, 0, |b|)
      decreases if n == UBRK_DONE then 0 else |b| - it.delegate.at
    {
      ghost var at := it.delegate.at;
      visited := visited + [n];
      KeptConcat(b, x, 0, at, at + 1);
      assert KeptFrom(b, x, at, at + 1) == [n];
      n := it.Next();
      if n != UBRK_DONE {
        KeptConcat(b, x, 0, at + 1, it.delegate.at);
        NoneKept(b, x, at + 1, it.delegate.at);
      }
    }
    KeptAscend(b, x, 0, |b|);
    VisitedAre(it);
  }

  lemma BackwardStep(b: seq<int>, x: int -> bool, i: nat, at: nat)
    requires i <= at < |b| && Kept(b, x, at) && forall k :: i <= k < at ==> !Kept(b, x, k)
    ensures Backwards(KeptFrom(b, x, i, |b|)) == Backwards(KeptFrom(b, x, at + 1, |b|)) + [b[at]]
  {
    hide Kept;
    KeptConcat(b, x, i, at, |b|);
    NoneKept(b, x, i, at);
    var rest := KeptFrom(b, x, at + 1, |b|);
    assert KeptFrom(b, x, i, |b|) == [b[at]] + rest;
    BackwardsConcat([b[at]], rest);
    assert Backwards([b[at]]) == [b[at]];
  }

  /** From the last to the first: the same boundaries in reverse. */
  method WalkBackward(it: Filtered) returns (visited: seq<int>)
    requires it.Valid()
    modifies it.delegate
    ensures it.Valid()
    ensures visited == Backwards(KeptFrom(it.delegate.boundaries, it.Skips(), 0, |it.delegate.boundaries|))
    ensures forall j, k :: 0 <= j < k < |visited| ==> visited[j] > visited[k]
    ensures
      var b := it.delegate.boundaries;
      forall n :: n in visited <==> n in b && (n == 0 || n == b[|b| - 1] || !it.hasBackwardsTrie || !it.exception(n))
  {
    ghost var b, x := it.delegate.boundaries, it.Skips();
    hide KeptFrom, Kept;
    var n := it.Last();
    visited := [];
    NoneKept(b, x, |b|, |b|);
    while n != UBRK_DONE
      invariant it.Valid()
      invariant n != UBRK_DONE ==>
        n == b[it.delegate.at] && Kept(b, x, it.delegate.at) && visited == Backwards(KeptFrom(b, x, it.delegate.at + 1, |b|))
      invariant n == UBRK_DONE ==> visited == Backwards(KeptFrom(b, x, 0, |b|))
      decreases if n == UBRK_DONE then -1 else it.delegate.at
    {
      ghost var at := it.delegate.at;
      visited := visited + [n];
      n := it.Previous();
      BackwardStep(b, x, if n == UBRK_DONE then 0 else it.delegate.at + 1, at);
    }
    KeptAscend(b, x, 0, |b|);
    VisitedAre(it);
    BackwardsAt(KeptFrom(b, x, 0, |b|));
  }

  /** The positions that count as boundaries are those that are visited, if and only if neither end of the text is an exception. */
  lemma IsBoundaryAgrees(it: Filtered)
    requires Boundaries(it.delegate.boundaries)
    ensures
      var b := it.delegate.boundaries;
      (forall n :: it.IsBoundary(n) <==> n in KeptFrom(b, it.Skips(), 0, |b|))
      <==> !it.Skips()(0) && !it.Skips()(b[|b| - 1])
  {
    var b, x := it.delegate.boundaries, it.Skips();
    forall n ensures n in KeptFrom(b, x, 0, |b|) <==> exists k :: 0 <= k < |b| && Kept(b, x, k) && b[k] == n {
      KeptMeaning(b, x, 0, |b|, n);
    }
    assert Kept(b, x, 0) && Kept(b, x, |b| - 1);
    assert it.IsBoundary(0) <==> !x(0);
    assert it.IsBoundary(b[|b| - 1]) <==> !x(b[|b| - 1]);
    if !x(0) && !x(b[|b| - 1]) {
      forall n ensures it.IsBoundary(n) <==> n in KeptFrom(b, x, 0, |b|) {
        if it.IsBoundary(n) {
          var k :| 0 <= k < |b| && b[k] == n;
          assert Kept(b, x, k);
        }
      }
    }
  }

  /** The abbreviation ends at a position of the text. */
  function EndsAt(text: string, abbreviation: string): int -> bool {
    (n: int) => |abbreviation| <= n <= |text| && text[n - |abbreviation|..n] == abbreviation
  }

  /** The text is "Mr." and ends in this abbreviation: its end is visited, and does not count as a boundary. */
  method EndIsSuppressed() returns (visited: seq<int>, it: Filtered)
    ensures it.delegate.boundaries == [0, 3] && it.hasBackwardsTrie && it.exception == EndsAt("Mr.", "Mr.")
    ensures visited == [0, 3] && !it.IsBoundary(3)
  {
    var delegate := new Delegate([0, 3]);
    it := new Filtered(delegate, true, EndsAt("Mr.", "Mr."));
    visited := WalkForward(it);
    ghost var x := it.Skips();
    assert Kept([0, 3], x, 0) && Kept([0, 3], x, 1);
    assert KeptFrom([0, 3], x, 2, 2) == [] && KeptFrom([0, 3], x, 1, 2) == [3];
    assert "Mr."[0..3] == "Mr.";
  }
}
