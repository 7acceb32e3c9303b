/** Reference definitions on sequences that the list contracts are stated in. */
module Seqs {

  /** The elements `x` of `s` with `f(x) == want`, in their original order. */
  function Filter<X, Y(==)>(s: seq<X>, f: X -> Y, want: Y): (r: seq<X>)
    ensures |r| <= |s|
    ensures forall k :: 0 <= k < |r| ==> f(r[k]) == want
    ensures |r| == |s| <==> forall k :: 0 <= k < |s| ==> f(s[k]) == want
  {
    if |s| == 0 then []
    else
      var rest := Filter(s[..|s| - 1], f, want);
      if f(s[|s| - 1]) == want then rest + [s[|s| - 1]] else rest
  }

  /** Filtering distributes over concatenation. */
  lemma {:induction false} FilterAppend<X, Y>(a: seq<X>, b: seq<X>, f: X -> Y, want: Y)
    ensures Filter(a + b, f, want) == Filter(a, f, want) + Filter(b, f, want)
    decreases |b|
  {
    if |b| == 0 {
      assert a + b == a;
    } else {
      var b' := b[..|b| - 1];
      assert (a + b)[..|a + b| - 1] == a + b';
      FilterAppend(a, b', f, want);
    }
  }

  /** Filtering one more element of a prefix appends it exactly when it is kept. */
  lemma FilterPrefixStep<X, Y>(s: seq<X>, i: nat, f: X -> Y, want: Y)
    requires i < |s|
    ensures Filter(s[..i + 1], f, want)
         == Filter(s[..i], f, want) + (if f(s[i]) == want then [s[i]] else [])
  {
    assert s[..i + 1][..i] == s[..i];
  }

  /** The reverse of a sequence. */
  function Reverse<X>(s: seq<X>): (r: seq<X>)
    ensures |r| == |s|
    ensures forall k :: 0 <= k < |s| ==> r[k] == s[|s| - 1 - k]
  {
    if |s| == 0 then [] else [s[|s| - 1]] + Reverse(s[..|s| - 1])
  }
}
