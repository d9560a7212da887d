/**
  The splitting of `decode`'s input into symbol units.  The
  `GraphemeIterator` of hangulNumber.rs walks the string one Unicode scalar value at a time; here
  a string is a sequence of scalar values, so `pos` counts characters.
*/
module Graphemes {
  import opened Wrappers

  /** The iterator returned by `graphemes`: the string and the position of the next unit. */
  class GraphemeIterator {
    const s: string
    var pos: nat

    constructor (s: string)
      ensures this.s == s && pos == 0
    {
      this.s := s;
      pos := 0;
    }

    /** Yields the character at `pos` and steps past it, or None at the end of the string. */
    method Next() returns (piece: Option<char>)
      modifies this
      ensures old(pos) < |s| ==> piece == Some(s[old(pos)]) && pos == old(pos) + 1
      ensures old(pos) >= |s| ==> piece == None && pos == old(pos)
    {
      if pos >= |s| {
        return None;
      }
      var c := s[pos];
      pos := pos + 1;
      return Some(c);
    }
  }

  /** `s.graphemes(true).collect()`: drains a fresh iterator; the units are exactly the characters of s. */
  method Collect(s: string) returns (pieces: seq<char>)
    ensures pieces == s
  {
    var it := new GraphemeIterator(s);
    pieces := [];
    var piece := it.Next();
    while piece.Some?
      invariant it.s == s && it.pos <= |s|
      invariant piece.Some? ==> 1 <= it.pos && pieces + [piece.value] == s[..it.pos]
      invariant piece.None? ==> it.pos == |s| && pieces == s
      decreases |s| - it.pos + (if piece.Some? then 1 else 0)
    {
      pieces := pieces + [piece.value];
      piece := it.Next();
    }
  }
}
