/** The vector of breaks that is passed from one dictionary break engine to the next. */
module DictionaryBreaks {

  ghost predicate Ascending(b: seq<int>) {
    forall k, l :: 0 <= k < l < |b| ==> b[k] < b[l]
  }

  class FoundBreaks {
    var breaks: seq<int>

    constructor ()
      ensures breaks == []
    {
      breaks := [];
    }

    method Push(position: int)
      modifies this
      ensures breaks == old(breaks) + [position]
    {
      breaks := breaks + [position];
    }

    /** The last break, or 0 if there is none. */
    function Peek(): int
      reads this
    {
      if breaks == [] then 0 else breaks[|breaks| - 1]
    }

    method Pop() returns (position: int)
      modifies this
      ensures position == old(Peek())
      ensures breaks == if old(breaks) == [] then [] else old(breaks)[..|old(breaks)| - 1]
    {
      position := Peek();
      if |breaks| > 0 {
        breaks := breaks[..|breaks| - 1];
      }
    }
  }
}
