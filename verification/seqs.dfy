/** Sequence helpers: a keep-the-successes fold and facts about it. */
module Seqs {
  import opened Wrappers

  /** The images of the elements of `xs` that `f` maps to `Some`, in the order of `xs`. */
  function FilterMap<A, B>(xs: seq<A>, f: A -> Option<B>): (ys: seq<B>)
    ensures |ys| <= |xs|
  {
    if |xs| == 0 then []
    else (match f(xs[0]) case Some(y) => [y] case None => []) + FilterMap(xs[1..], f)
  }

  /** Processing a concatenation is processing each part in turn: the order of `xs` is kept. */
  lemma {:induction false} FilterMapAppend<A, B>(a: seq<A>, b: seq<A>, f: A -> Option<B>)
    ensures FilterMap(a + b, f) == FilterMap(a, f) + FilterMap(b, f)
  {
    if |a| == 0 {
      assert a + b == b;
    } else {
      assert (a + b)[0] == a[0];
      assert (a + b)[1..] == a[1..] + b;
      FilterMapAppend(a[1..], b, f);
    }
  }

  /** A value is kept exactly when some element of `xs` maps to it. */
  lemma {:induction false} FilterMapMember<A, B>(xs: seq<A>, f: A -> Option<B>, y: B)
    ensures y in FilterMap(xs, f) <==> exists i :: 0 <= i < |xs| && f(xs[i]) == Some(y)
  {
    if |xs| > 0 {
      FilterMapMember(xs[1..], f, y);
      if y in FilterMap(xs[1..], f) {
        var i :| 0 <= i < |xs[1..]| && f(xs[1..][i]) == Some(y);
        assert f(xs[i + 1]) == Some(y);
      }
      if exists i :: 0 <= i < |xs| && f(xs[i]) == Some(y) {
        var i :| 0 <= i < |xs| && f(xs[i]) == Some(y);
        if i > 0 {
          assert f(xs[1..][i - 1]) == Some(y);
        }
      }
    }
  }

  /** Nothing is dropped exactly when every element succeeds. */
  lemma {:induction false} FilterMapKeepsAll<A, B>(xs: seq<A>, f: A -> Option<B>)
    ensures |FilterMap(xs, f)| == |xs| <==> forall i :: 0 <= i < |xs| ==> f(xs[i]).Some?
  {
    if |xs| > 0 {
      FilterMapKeepsAll(xs[1..], f);
      if forall i :: 0 <= i < |xs[1..]| ==> f(xs[1..][i]).Some? {
        if f(xs[0]).Some? {
          forall i | 0 <= i < |xs|
            ensures f(xs[i]).Some?
          {
            if i > 0 {
              assert f(xs[1..][i - 1]).Some?;
            }
          }
        }
      } else {
        var i :| 0 <= i < |xs[1..]| && !f(xs[1..][i]).Some?;
        assert !f(xs[i + 1]).Some?;
      }
    }
  }
}
