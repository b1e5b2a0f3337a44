/**
 * A `foreach` that appends one output per input, in input order.
 */
module Sequences {
  function Map<A, B>(f: A -> B, s: seq<A>): seq<B>
  {
    if s == [] then [] else Map(f, s[..|s| - 1]) + [f(s[|s| - 1])]
  }

  /** One more input appends its output. */
  lemma MapSnoc<A, B>(f: A -> B, s: seq<A>, j: nat)
    requires j < |s|
    ensures Map(f, s[..j + 1]) == Map(f, s[..j]) + [f(s[j])]
  {
    assert s[..j + 1][..j] == s[..j];
  }

  /** Output j is the image of input j. */
  lemma {:induction false} MapIndex<A, B>(f: A -> B, s: seq<A>)
    ensures |Map(f, s)| == |s|
    ensures forall j :: 0 <= j < |s| ==> Map(f, s)[j] == f(s[j])
  {
    if s != [] {
      var init := s[..|s| - 1];
      MapIndex(f, init);
      assert forall j :: 0 <= j < |init| ==> init[j] == s[j];
    }
  }
}
