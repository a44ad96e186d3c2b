/** A trie gives back what it was built from, by iteration and by lookup. */
module BytesTrieRoundTrip {
  import opened BytesTrieFormat
  import opened BytesTrieReader
  import opened BytesTrieWriter
  import opened BytesTrieIterator
  import opened StringTrieBuilder

  ghost predicate Buildable(elements: seq<Entry>) {
    && SortedStrings(elements)
    && forall k :: 0 <= k < |elements| ==>
         Bytes(elements[k].str) && |elements[k].str| <= 0xffff && -0x8000_0000 <= elements[k].value < 0x8000_0000
  }

  /** The bytes lay out a tree that holds the elements, as they do if no jump of a split is too long. */
  ghost predicate BuiltFrom(elements: seq<Entry>, bytes: seq<int>, root: Tree) {
    Buildable(elements) && Bytes(bytes) && Sorted(root) && Entries(root, []) == elements && Layout(bytes, 0, root)
  }

  /** The iterator over a trie that was built delivers the elements that it was built from. */
  method IterateBuilt(ghost elements: seq<Entry>, bytes: seq<int>, ghost root: Tree) returns (all: seq<Entry>)
    requires BuiltFrom(elements, bytes, root)
    ensures all == elements
  {
    hide Less, Layout, Sorted, Entries;
    forall e | e in elements ensures |e.str| <= 0x1_0000 {
      var k :| 0 <= k < |elements| && elements[k] == e;
    }
    StringsAreShort(root, [], 0);
    ShortDelivers(root, [], 0);
    all := Enumerate(bytes, 0, -1, 0, root);
  }

  /** In a trie that was built, a string is found with its value if it is one of the elements, and only then. */
  method LookUpBuilt(ghost elements: seq<Entry>, bytes: seq<int>, ghost root: Tree, s: seq<int>)
    returns (found: bool, value: int)
    requires BuiltFrom(elements, bytes, root) && Bytes(s)
    ensures found <==> exists k :: 0 <= k < |elements| && elements[k].str == s
    ensures found ==> Entry(s, value) in elements
  {
    hide Less, Layout, Sorted, Entries;
    found, value := false, 0;
    var trie := new BytesTrie(bytes, root);
    var result := trie.Current();
    for i := 0 to |s|
      invariant trie.Valid() && fresh(trie) && trie.tree == WalkFrom(Some(root), s, i) && result == ResultOf(trie.tree)
    {
      result := trie.Next(s[i]);
    }
    ResultMeaning(root, s);
    WalkFromIsWalk(root, s, |s|);
    if result == FinalValue || result == IntermediateValue {
      found := true;
      value := trie.GetValue();
      WalkFindsValue(root, s, value);
    }
    assert (exists v :: Entry(s, v) in elements) <==> exists k :: 0 <= k < |elements| && elements[k].str == s by {
      forall k | 0 <= k < |elements| && elements[k].str == s ensures Entry(s, elements[k].value) in elements {
        assert elements[k] in elements && elements[k] == Entry(s, elements[k].value);
      }
    }
  }

  /** Building works for all strings that are different; the trie can be read if no jump of a split is too long. */
  method BuildToRead(elements: seq<Entry>) returns (r: BuildResult, ghost root: Tree)
    requires Buildable(elements)
    ensures r.Built? <==> elements != [] && forall i, j :: 0 <= i < j < |elements| ==> elements[i].str != elements[j].str
    ensures r.Built? && Size(root) < 0x8000_0000 && JumpsShort(root) ==> BuiltFrom(elements, r.bytes, root)
    ensures r.Built? && |r.bytes| <= MAX_THREE_BYTE_DELTA ==> BuiltFrom(elements, r.bytes, root)
  {
    hide Less, Layout, Sorted, Entries, JumpsShort, Size;
    r, root := Build(elements);
  }

  /** A trie that is not larger than the longest jump is iterated over. */
  method BuildThenIterate(elements: seq<Entry>) returns (r: BuildResult, all: seq<Entry>)
    requires Buildable(elements)
    ensures r.Built? && |r.bytes| <= MAX_THREE_BYTE_DELTA ==> all == elements
    ensures r.Built? <==> elements != [] && forall i, j :: 0 <= i < j < |elements| ==> elements[i].str != elements[j].str
  {
    hide BuiltFrom, Buildable;
    all := [];
    ghost var root;
    r, root := BuildToRead(elements);
    if r.Built? && |r.bytes| <= MAX_THREE_BYTE_DELTA {
      all := IterateBuilt(elements, r.bytes, root);
    }
  }

  /** Strings are looked up in such a trie. */
  method BuildThenLookUp(elements: seq<Entry>, s: seq<int>) returns (r: BuildResult, found: bool, value: int)
    requires Buildable(elements) && Bytes(s)
    ensures r.Built? && |r.bytes| <= MAX_THREE_BYTE_DELTA ==>
      (found <==> exists k :: 0 <= k < |elements| && elements[k].str == s)
    ensures r.Built? && |r.bytes| <= MAX_THREE_BYTE_DELTA && found ==> Entry(s, value) in elements
  {
    hide BuiltFrom, Buildable;
    found, value := false, 0;
    ghost var root;
    r, root := BuildToRead(elements);
    if r.Built? && |r.bytes| <= MAX_THREE_BYTE_DELTA {
      found, value := LookUpBuilt(elements, r.bytes, root, s);
    }
  }

  // ---------------------------------------------------------------------------------------------
  // A trie that is not built: its strings are too long to be elements.

  function Letters(n: nat): (s: seq<int>)
    ensures |s| == n
  {
    seq(n, _ => 97)
  }

  /** 16 * n times the letter a, and then b with the value 1, or c with the value 2. */
  ghost function LongTrie(n: nat): Tree {
    if n == 0 then Branch(Pair(98, Final(1), Last(99, Final(2)))) else Linear(Letters(16), LongTrie(n - 1))
  }

  function LongTrieBytes(n: nat): seq<int> {
    if n == 0 then [1, 98, 0x23, 99, 0x25] else [0x1f] + Letters(16) + LongTrieBytes(n - 1)
  }

  lemma {:induction false} LongTrieIsTrie(n: nat)
    ensures Bytes(LongTrieBytes(n)) && Layout(LongTrieBytes(n), 0, LongTrie(n)) && Sorted(LongTrie(n))
  {
    hide Layout, Sorted, Bytes;
    if n > 0 {
      LongTrieIsTrie(n - 1);
      LettersBefore(LongTrieBytes(n - 1), LongTrie(n - 1));
    } else {
      TwoEdges();
    }
  }

  lemma TwoEdges()
    ensures Bytes(LongTrieBytes(0)) && Layout(LongTrieBytes(0), 0, LongTrie(0)) && Sorted(LongTrie(0))
  {
    var b := LongTrieBytes(0);
    assert SubLayout(b, 3, Last(99, Final(2)));
    assert SubLayout(b, 1, Pair(98, Final(1), Last(99, Final(2))));
  }

  lemma LettersBefore(b: seq<int>, t: Tree)
    requires Bytes(b) && Layout(b, 0, t) && Sorted(t)
    ensures
      var c, u := [0x1f] + Letters(16) + b, Linear(Letters(16), t);
      Bytes(c) && Layout(c, 0, u) && Sorted(u)
  {
    hide SubLayout, ValueAt, ValueThere, AfterValue;
    var c := [0x1f] + Letters(16) + b;
    LayoutMoves([0x1f] + Letters(16), b, 0, t);
    assert c[1..17] == Letters(16);
  }

  lemma {:induction false} DownTheLetters(n: nat, k: nat)
    ensures Deliver(LongTrie(n), Letters(k), 0) == Deliver(LongTrie(0), Letters(k + 16 * n), 0)
    ensures Entries(LongTrie(n), Letters(k)) == Entries(LongTrie(0), Letters(k + 16 * n))
  {
    if n > 0 {
      assert Letters(k) + Letters(16) == Letters(k + 16);
      DownTheLetters(n - 1, k + 16);
    }
  }

  lemma LongOutcome(s: seq<int>)
    requires |s| == 0x1_0000
    ensures Deliver(LongTrie(0), s, 0).fits
    ensures Deliver(LongTrie(0), s, 0).entries == [Entry(s + [98], 1), Entry([99], 2)]
    ensures Entries(LongTrie(0), s) == [Entry(s + [98], 1), Entry(s + [99], 2)]
  {
    OrZero(15, 0);
    assert Keeps(1, 0x1_0000);
    var sub := Pair(98, Final(1), Last(99, Final(2)));
    assert Truncated(s + [98], 0) == [] && [] + [99] == [99];
    assert DeliverSub(sub, s, 0).entries == [Entry(s + [98], 1)] + [Entry([99], 2)];
  }

  /** After 2^16 bytes, the iterator forgets the string before the second edge of a branch. */
  method LongStringIsLost() returns (all: seq<Entry>)
    ensures
      var t, s := LongTrie(0x1000), Letters(0x1_0000);
      && Layout(LongTrieBytes(0x1000), 0, t) && Sorted(t)
      && Entries(t, []) == [Entry(s + [98], 1), Entry(s + [99], 2)]
      && all == [Entry(s + [98], 1), Entry([99], 2)]
  {
    hide Layout, Sorted, Deliver, Entries;
    LongTrieIsTrie(0x1000);
    DownTheLetters(0x1000, 0);
    LongOutcome(Letters(0x1_0000));
    assert Letters(0) == [];
    all := Enumerate(LongTrieBytes(0x1000), 0, -1, 0, LongTrie(0x1000));
  }
}
