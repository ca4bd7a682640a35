/** Facts about the position of the last element of a sequence that passes a test. */
module Seqs {

  /** No element of `s` passes `p`. */
  predicate NoMatch<T>(s: seq<T>, p: T -> bool) {
    forall i :: 0 <= i < |s| ==> !p(s[i])
  }

  /** Element `i` of `s` passes `p` and no later element does. */
  predicate LastMatch<T>(s: seq<T>, p: T -> bool, i: int) {
    && 0 <= i < |s|
    && p(s[i])
    && forall j :: i < j < |s| ==> !p(s[j])
  }

  /** If some element passes the test, one of them is the last. */
  lemma {:induction false} LastMatchExists<T>(s: seq<T>, p: T -> bool)
    requires !NoMatch(s, p)
    ensures exists i :: LastMatch(s, p, i)
    decreases |s|
  {
    var n := |s| - 1;
    if p(s[n]) {
      assert LastMatch(s, p, n);
    } else {
      var init := s[..n];
      assert !NoMatch(init, p) by {
        var k :| 0 <= k < |s| && p(s[k]);
        assert init[k] == s[k];
      }
      LastMatchExists(init, p);
      var i :| LastMatch(init, p, i);
      assert LastMatch(s, p, i);
    }
  }
}
