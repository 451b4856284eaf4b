/** Concatenation of a list of integer sequences: packet payloads, header fields. */
module Sequences {

  /** The pieces concatenated in order. */
  function Flatten(parts: seq<seq<int>>): seq<int>
  {
    if parts == [] then [] else parts[0] + Flatten(parts[1..])
  }

  lemma {:induction false} FlattenAppend(a: seq<seq<int>>, b: seq<seq<int>>)
    ensures Flatten(a + b) == Flatten(a) + Flatten(b)
  {
    if a == [] {
      assert a + b == b;
    } else {
      assert (a + b)[0] == a[0];
      assert (a + b)[1..] == a[1..] + b;
      FlattenAppend(a[1..], b);
    }
  }
}
