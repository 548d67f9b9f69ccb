/** The `Path` container of `lib/path.js`: a growable list of nodes. */
module Paths {
  import opened Wrappers
  import opened Seqs

  /** JavaScript's `s.reverse()`, as a value. */
  function Reversed<T>(s: seq<T>): (r: seq<T>)
    ensures |r| == |s|
    ensures forall i :: 0 <= i < |s| ==> r[i] == s[|s| - 1 - i]
  {
    if s == [] then [] else Reversed(s[1..]) + [s[0]]
  }

  /** Reversing twice gives back the original order. */
  lemma ReversedTwice<T>(s: seq<T>)
    ensures Reversed(Reversed(s)) == s
  {
    var r := Reversed(Reversed(s));
    forall i | 0 <= i < |s|
      ensures r[i] == s[i]
    {
      assert r[i] == Reversed(s)[|s| - 1 - i];
    }
  }

  /** Reversal keeps the elements. */
  lemma ReversedElements<T>(s: seq<T>, x: T)
    ensures x in Reversed(s) <==> x in s
  {
    var r := Reversed(s);
    if x in s {
      var i :| 0 <= i < |s| && s[i] == x;
      assert r[|s| - 1 - i] == x;
    }
  }

  /** A path: the nodes in the order they were added. */
  class Path<T(==)> {
    var nodes: seq<T>

    /** A new path holds no node. */
    constructor ()
      ensures nodes == []
    {
      nodes := [];
    }

    /** `length()`. */
    function Length(): (n: nat)
      reads this
      ensures n == |nodes|
    {
      |nodes|
    }

    /** `reverse()`: reverses the nodes in place and returns them. */
    method Reverse() returns (r: seq<T>)
      modifies this
      ensures nodes == Reversed(old(nodes))
      ensures r == nodes
    {
      nodes := Reversed(nodes);
      r := nodes;
    }

    /** `add(node)`: the node becomes the last one; the others stay. */
    method Add(node: T)
      modifies this
      ensures |nodes| == |old(nodes)| + 1
      ensures nodes[|nodes| - 1] == node
      ensures nodes[..|old(nodes)|] == old(nodes)
    {
      nodes := nodes + [node];
    }

    /** `contains(node)`: whether the node occurs in the path. */
    function Contains(node: T): (b: bool)
      reads this
      ensures b <==> node in nodes
    {
      IndexOf(nodes, node) != -1
    }

    /** `at(i)`: the node at position `i`, or `undefined` outside the path. */
    function At(i: int): (r: Option<T>)
      reads this
      ensures r.Some? <==> 0 <= i < |nodes|
      ensures r.Some? ==> r.value == nodes[i]
    {
      if 0 <= i < |nodes| then Some(nodes[i]) else None
    }

    /** `fillTo(length, value)`: pads the path with `value` up to `length`
        nodes; a `length` below the current one throws before any change. */
    method FillTo(length: int, value: T) returns (r: Outcome<string>)
      modifies this
      ensures length < |old(nodes)| ==> r == Fail("Path cannot be filled to less than its current length") && nodes == old(nodes)
      ensures length >= |old(nodes)| ==> r == Pass
      ensures length >= |old(nodes)| ==> |nodes| == length
      ensures length >= |old(nodes)| ==> nodes[..|old(nodes)|] == old(nodes)
      ensures length >= |old(nodes)| ==> forall i :: |old(nodes)| <= i < length ==> nodes[i] == value
    {
      if length < |nodes| {
        return Fail("Path cannot be filled to less than its current length");
      }
      if length == |nodes| {
        assert nodes[..|nodes|] == nodes;
        return Pass;
      }
      var fill: seq<T> := [];
      var amountToFill := length - |nodes|;
      while |fill| < amountToFill
        invariant |fill| <= amountToFill
        invariant forall i :: 0 <= i < |fill| ==> fill[i] == value
      {
        fill := fill + [value];
      }
      nodes := nodes + fill;
      return Pass;
    }
  }
}
