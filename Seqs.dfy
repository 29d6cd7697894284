/**
 * Filtering a sequence while transforming the kept elements, the shape of
 * every "for x in xs: if ...: out.append(...)" loop in the converters.
 */
module Seqs {
  import opened Wrappers

  /** The values `g` yields for the elements of `s`, in order; elements for which it yields None are dropped. */
  function Somes<T, U>(s: seq<T>, g: T -> Option<U>): seq<U>
  {
    if |s| == 0 then []
    else Somes(s[..|s| - 1], g) + (match g(s[|s| - 1]) case Some(y) => [y] case None => [])
  }

  /** Extending the input by one element extends the output by that element's value, if any. */
  lemma SomesSnoc<T, U>(s: seq<T>, x: T, g: T -> Option<U>)
    ensures Somes(s + [x], g) == Somes(s, g) + (match g(x) case Some(y) => [y] case None => [])
  {
    assert (s + [x])[..|s|] == s;
  }

  /** The step a loop over `s` takes at position `i`. */
  lemma SomesStep<T, U>(s: seq<T>, i: nat, g: T -> Option<U>)
    requires i < |s|
    ensures Somes(s[..i + 1], g) == Somes(s[..i], g) + (match g(s[i]) case Some(y) => [y] case None => [])
  {
    assert s[..i + 1][..i] == s[..i];
  }

  /** The output for a prefix of the input is a prefix of the output: the order of the input is kept. */
  lemma {:induction false} SomesPrefix<T, U>(s: seq<T>, n: nat, g: T -> Option<U>)
    requires n <= |s|
    ensures |Somes(s[..n], g)| <= |Somes(s, g)|
    ensures Somes(s[..n], g) == Somes(s, g)[..|Somes(s[..n], g)|]
    decreases |s|
  {
    if n < |s| {
      var m := |s| - 1;
      assert s[..m][..n] == s[..n];
      SomesPrefix(s[..m], n, g);
    } else {
      assert s[..n] == s;
    }
  }

  /**
   * Every element for which `g` yields a value contributes exactly that value, at the position
   * given by the number of values contributed before it.
   */
  lemma {:induction false} SomesAt<T, U>(s: seq<T>, k: nat, g: T -> Option<U>)
    requires k < |s| && g(s[k]).Some?
    ensures |Somes(s[..k], g)| < |Somes(s, g)|
    ensures Somes(s, g)[|Somes(s[..k], g)|] == g(s[k]).value
    decreases |s|
  {
    var m := |s| - 1;
    if k == m {
    } else {
      assert s[..m][..k] == s[..k];
      assert s[..m][k] == s[k];
      SomesAt(s[..m], k, g);
    }
  }

  /** Values keep the order of the elements that yield them. */
  lemma SomesOrder<T, U>(s: seq<T>, k1: nat, k2: nat, g: T -> Option<U>)
    requires k1 < k2 <= |s| && g(s[k1]).Some?
    ensures |Somes(s[..k1], g)| < |Somes(s[..k2], g)|
  {
    SomesStep(s, k1, g);
    assert s[..k2][..k1 + 1] == s[..k1 + 1];
    SomesPrefix(s[..k2], k1 + 1, g);
  }

  /** Nothing else is in the output: each of its values comes from some element of the input. */
  lemma {:induction false} SomesOnly<T, U>(s: seq<T>, i: nat, g: T -> Option<U>)
    requires i < |Somes(s, g)|
    ensures exists k :: 0 <= k < |s| && g(s[k]) == Some(Somes(s, g)[i])
    decreases |s|
  {
    var m := |s| - 1;
    if i < |Somes(s[..m], g)| {
      SomesOnly(s[..m], i, g);
      var k :| 0 <= k < m && g(s[..m][k]) == Some(Somes(s[..m], g)[i]);
      assert s[..m][k] == s[k];
    } else {
      assert g(s[m]) == Some(Somes(s, g)[i]);
    }
  }

  /** When `g` yields a value for every element, nothing is dropped. */
  lemma {:induction false} SomesLengthAll<T, U>(s: seq<T>, g: T -> Option<U>)
    requires forall k :: 0 <= k < |s| ==> g(s[k]).Some?
    ensures |Somes(s, g)| == |s|
    decreases |s|
  {
    if |s| > 0 {
      var m := |s| - 1;
      assert forall k :: 0 <= k < m ==> s[..m][k] == s[k];
      SomesLengthAll(s[..m], g);
    }
  }

  /** The set of values `g` yields for the elements of `s`. */
  function SomeSet<T, U>(s: seq<T>, g: T -> Option<U>): set<U>
  {
    if |s| == 0 then {}
    else SomeSet(s[..|s| - 1], g) + (match g(s[|s| - 1]) case Some(y) => {y} case None => {})
  }

  /** When every element yields a value, the output is those values, position for position. */
  lemma SomesAll<T, U>(s: seq<T>, g: T -> Option<U>)
    requires forall k :: 0 <= k < |s| ==> g(s[k]).Some?
    ensures |Somes(s, g)| == |s|
    ensures forall k :: 0 <= k < |s| ==> Somes(s, g)[k] == g(s[k]).value
  {
    SomesLengthAll(s, g);
    forall k | 0 <= k < |s|
      ensures Somes(s, g)[k] == g(s[k]).value
    {
      assert forall j :: 0 <= j < k ==> g(s[..k][j]).Some?;
      SomesLengthAll(s[..k], g);
      SomesAt(s, k, g);
    }
  }

  lemma SomeSetSnoc<T, U>(s: seq<T>, x: T, g: T -> Option<U>)
    ensures SomeSet(s + [x], g) == SomeSet(s, g) + (match g(x) case Some(y) => {y} case None => {})
  {
    assert (s + [x])[..|s|] == s;
  }

  lemma SomeSetStep<T, U>(s: seq<T>, i: nat, g: T -> Option<U>)
    requires i < |s|
    ensures SomeSet(s[..i + 1], g) == SomeSet(s[..i], g) + (match g(s[i]) case Some(y) => {y} case None => {})
  {
    assert s[..i + 1][..i] == s[..i];
  }

  /** A value is in the set exactly when some element yields it. */
  lemma {:induction false} SomeSetMembers<T, U>(s: seq<T>, g: T -> Option<U>, y: U)
    ensures y in SomeSet(s, g) <==> exists k :: 0 <= k < |s| && g(s[k]) == Some(y)
    decreases |s|
  {
    if |s| > 0 {
      var m := |s| - 1;
      SomeSetMembers(s[..m], g, y);
      if y in SomeSet(s[..m], g) {
        var k :| 0 <= k < m && g(s[..m][k]) == Some(y);
        assert s[..m][k] == s[k];
      }
      if exists k :: 0 <= k < |s| && g(s[k]) == Some(y) {
        var k :| 0 <= k < |s| && g(s[k]) == Some(y);
        if k < m {
          assert s[..m][k] == s[k];
        }
      }
    }
  }
}
