/** The search frontier of helper.py: a list whose last element is removed first. */
module Frontier {
  class StackFrontier<T> {
    var frontier: seq<T>

    /** A new frontier is empty. */
    constructor ()
      ensures frontier == []
    {
      frontier := [];
    }

    /** Appends node at the end; earlier contents are unchanged. */
    method Add(node: T)
      modifies this
      ensures frontier == old(frontier) + [node]
    {
      frontier := frontier + [node];
    }

    method Empty() returns (isEmpty: bool)
      ensures isEmpty <==> |frontier| == 0
    {
      isEmpty := |frontier| == 0;
    }

    /** Returns the last element and keeps the others in order. The caller checks that the
        frontier is not empty. */
    method Remove() returns (node: T)
      requires |frontier| > 0
      modifies this
      ensures node == old(frontier)[|old(frontier)| - 1]
      ensures frontier == old(frontier)[..|old(frontier)| - 1]
    {
      node := frontier[|frontier| - 1];
      frontier := frontier[..|frontier| - 1];
    }
  }

  /** Strict LIFO: a node added is the next one removed, and the contents are restored. */
  method AddThenRemove<T>(f: StackFrontier<T>, x: T) returns (y: T)
    modifies f
    ensures y == x && f.frontier == old(f.frontier)
  {
    f.Add(x);
    y := f.Remove();
  }
}
