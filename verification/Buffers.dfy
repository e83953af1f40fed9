/** Storing a run of elements into a buffer, and nothing else changing. */
module Buffers {

  function Splice<T>(s: seq<T>, at: nat, b: seq<T>): (r: seq<T>)
    requires at + |b| <= |s|
    ensures |r| == |s|
    ensures r[..at] == s[..at] && r[at..at + |b|] == b && r[at + |b|..] == s[at + |b|..]
  {
    s[..at] + b + s[at + |b|..]
  }

  /** Two neighbouring runs are one run. */
  lemma SpliceSplice<T>(s: seq<T>, at: nat, a: seq<T>, b: seq<T>)
    requires at + |a| + |b| <= |s|
    ensures |a + b| == |a| + |b| && Splice(Splice(s, at, a), at + |a|, b) == Splice(s, at, a + b)
  {
    hide Splice;
    var one, two := Splice(Splice(s, at, a), at + |a|, b), Splice(s, at, a + b);
    assert two[at..at + |a|] == (a + b)[..|a|] == a;
    assert two[at + |a|..at + |a| + |b|] == (a + b)[|a|..] == b;
    assert one[..at] == one[..at + |a|][..at] == two[..at];
    assert one[at..at + |a|] == one[..at + |a|][at..] == a;
    SplitAt(one, at, at + |a|, at + |a| + |b|);
    SplitAt(two, at, at + |a|, at + |a| + |b|);
  }

  lemma SpliceNothing<T>(s: seq<T>, at: nat)
    requires at <= |s|
    ensures Splice(s, at, []) == s
  {
  }

  lemma SplitAt<T>(s: seq<T>, i: nat, j: nat, k: nat)
    requires i <= j <= k <= |s|
    ensures s == s[..i] + s[i..j] + s[j..k] + s[k..]
  {
  }

  /** memcpy into the buffer, or a run of single-element stores. */
  method Put<T>(out: array<T>, at: nat, b: seq<T>)
    requires at + |b| <= out.Length
    modifies out
    ensures out[..] == Splice(old(out[..]), at, b)
  {
    for i := 0 to |b|
      invariant out[..at] == old(out[..at]) && out[at + |b|..] == old(out[at + |b|..])
      invariant forall k | 0 <= k < i :: out[at + k] == b[k]
    {
      out[at + i] := b[i];
    }
    SplitAt(out[..], at, at + |b|, out.Length);
  }
}
