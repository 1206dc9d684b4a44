/** Generic facts about sequences used by the extractor: order-preserving
    subsequences, absence of duplicates and first occurrences. */
module Seqs {
  import opened Wrappers

  /** `m` lists, in increasing order, the positions of `ys` that make up `xs`. */
  ghost predicate Embeds<T>(m: seq<nat>, xs: seq<T>, ys: seq<T>)
  {
    && |m| == |xs|
    && (forall k {:trigger m[k]} :: 0 <= k < |m| ==> m[k] < |ys| && xs[k] == ys[m[k]])
    && (forall a, b {:trigger m[a], m[b]} :: 0 <= a < b < |m| ==> m[a] < m[b])
  }

  /** `xs` is obtained from `ys` by deleting elements, keeping the order. */
  ghost predicate Subseq<T>(xs: seq<T>, ys: seq<T>)
  {
    exists m :: Embeds(m, xs, ys)
  }

  /** Every sequence is a subsequence of itself. */
  lemma SubseqRefl<T>(s: seq<T>)
    ensures Subseq(s, s)
  {
    var m: seq<nat> := seq(|s|, k => k);
    assert Embeds(m, s, s);
  }

  lemma EmptySubseq<T>(ys: seq<T>)
    ensures Subseq([], ys)
  {
    var m: seq<nat> := [];
    assert Embeds(m, [], ys);
  }

  lemma SubseqTransitive<T>(a: seq<T>, b: seq<T>, c: seq<T>)
    requires Subseq(a, b) && Subseq(b, c)
    ensures Subseq(a, c)
  {
    var m1: seq<nat> :| Embeds(m1, a, b);
    var m2: seq<nat> :| Embeds(m2, b, c);
    var m: seq<nat> := seq(|a|, k requires 0 <= k < |a| => m2[m1[k]]);
    assert Embeds(m, a, c);
  }

  /** The positions of a strictly increasing sequence of naturals are at most its entries. */
  lemma {:induction false} IncreasingAtLeast(m: seq<nat>, k: nat)
    requires forall a, b :: 0 <= a < b < |m| ==> m[a] < m[b]
    requires k < |m|
    ensures k <= m[k]
  {
    if k > 0 {
      IncreasingAtLeast(m, k - 1);
    }
  }

  lemma SubseqMembers<T>(xs: seq<T>, ys: seq<T>)
    requires Subseq(xs, ys)
    ensures |xs| <= |ys|
    ensures forall x :: x in xs ==> x in ys
  {
    var m: seq<nat> :| Embeds(m, xs, ys);
    if xs != [] {
      IncreasingAtLeast(m, |m| - 1);
    }
    forall x | x in xs
      ensures x in ys
    {
      var k :| 0 <= k < |xs| && xs[k] == x;
      assert ys[m[k]] == x;
    }
  }

  /** Putting the same element in front of both sides keeps a subsequence, and so does
      putting it in front of the larger side only. */
  lemma SubseqCons<T>(y: T, xs: seq<T>, ys: seq<T>)
    requires Subseq(xs, ys)
    ensures Subseq([y] + xs, [y] + ys)
    ensures Subseq(xs, [y] + ys)
  {
    var m: seq<nat> :| Embeds(m, xs, ys);
    var shifted: seq<nat> := seq(|m|, k requires 0 <= k < |m| => m[k] + 1);
    assert Embeds(shifted, xs, [y] + ys);
    assert Embeds([0] + shifted, [y] + xs, [y] + ys);
  }

  /** Appending the same element to both sides keeps a subsequence, and so does
      appending it to the larger side only. */
  lemma SubseqSnoc<T>(xs: seq<T>, ys: seq<T>, z: T)
    requires Subseq(xs, ys)
    ensures Subseq(xs + [z], ys + [z])
    ensures Subseq(xs, ys + [z])
  {
    var m: seq<nat> :| Embeds(m, xs, ys);
    assert Embeds(m, xs, ys + [z]);
    assert Embeds(m + [|ys|], xs + [z], ys + [z]);
  }

  /** No element occurs twice. */
  predicate NoDuplicates<T(==)>(s: seq<T>)
  {
    forall i, j :: 0 <= i < j < |s| ==> s[i] != s[j]
  }

  /** Position of the first occurrence of `x` in `s`. */
  function IndexOf<T(==)>(s: seq<T>, x: T): (k: nat)
    requires x in s
    ensures k < |s| && s[k] == x && x !in s[..k]
  {
    if s[0] == x then 0 else 1 + IndexOf(s[1..], x)
  }

  /** An element already seen among the first `n` has its first occurrence before `n`. */
  lemma IndexOfBelow<T>(s: seq<T>, n: nat, x: T)
    requires n <= |s| && x in s[..n]
    ensures IndexOf(s, x) < n
  {
  }

  /** An element first seen at position `n` has its first occurrence there. */
  lemma IndexOfAt<T>(s: seq<T>, n: nat)
    requires n < |s| && s[n] !in s[..n]
    ensures IndexOf(s, s[n]) == n
  {
  }

  /** `Reverse(s)` is Python's `s[::-1]`. */
  function Reverse<T>(s: seq<T>): (r: seq<T>)
    ensures |r| == |s|
    ensures forall k :: 0 <= k < |s| ==> r[k] == s[|s| - 1 - k]
  {
    if s == [] then [] else Reverse(s[1..]) + [s[0]]
  }

  /** The set of a duplicate-free sequence has as many elements as the sequence. */
  lemma {:induction false} DistinctCard<T>(d: seq<T>)
    requires NoDuplicates(d)
    ensures |set x | x in d| == |d|
  {
    if d != [] {
      DistinctCard(d[1..]);
      assert (set x | x in d) == {d[0]} + (set x | x in d[1..]);
      assert d[0] !in d[1..];
    }
  }

  lemma {:induction false} SetCardBound<T>(s: seq<T>)
    ensures |set x | x in s| <= |s|
  {
    if s != [] {
      SetCardBound(s[1..]);
      assert (set x | x in s) == {s[0]} + (set x | x in s[1..]);
    }
  }

  /** A duplicate-free sequence drawn from `s` is no longer than `s`. */
  lemma DistinctBound<T>(d: seq<T>, s: seq<T>)
    requires NoDuplicates(d)
    requires forall x :: x in d ==> x in s
    ensures |d| <= |s|
  {
    DistinctCard(d);
    SetCardBound(s);
    var a, b := set x | x in d, set x | x in s;
    assert a <= b;
    assert b == a + (b - a);
  }

  /** `d` is what the loop "append `x` unless already present" builds from `s[..n]`:
      no duplicates, the same elements, in order of first occurrence in `s`. */
  ghost predicate DedupOfPrefix<T(!new)>(d: seq<T>, s: seq<T>, n: nat)
    requires n <= |s|
  {
    && NoDuplicates(d)
    && (forall x :: x in d <==> x in s[..n])
    && (forall x :: x in d ==> x in s && IndexOf(s, x) < n)
    && (forall a, b :: 0 <= a < b < |d| ==> IndexOf(s, d[a]) < IndexOf(s, d[b]))
  }

  /** One turn of that loop keeps the description true for one more element. */
  lemma DedupStep<T(!new)>(d: seq<T>, s: seq<T>, n: nat)
    requires n < |s| && DedupOfPrefix(d, s, n)
    ensures s[n] in d ==> DedupOfPrefix(d, s, n + 1)
    ensures s[n] !in d ==> DedupOfPrefix(d + [s[n]], s, n + 1)
  {
    assert s[..n + 1] == s[..n] + [s[n]];
    if s[n] !in d {
      IndexOfAt(s, n);
      var d' := d + [s[n]];
      assert forall x :: x in d' <==> x in d || x == s[n];
    }
  }

  /** What "append `x` unless already present" builds from `s[..n]`. */
  function DedupPrefix<T(==,!new)>(s: seq<T>, n: nat): (d: seq<T>)
    requires n <= |s|
    ensures DedupOfPrefix(d, s, n)
  {
    if n == 0 then []
    else
      var d := DedupPrefix(s, n - 1);
      DedupStep(d, s, n - 1);
      if s[n - 1] in d then d else d + [s[n - 1]]
  }

  /** The distinct elements of `s`, each once, in order of first occurrence. */
  function Dedup<T(==,!new)>(s: seq<T>): (d: seq<T>)
    ensures NoDuplicates(d)
    ensures forall x :: x in d <==> x in s
    ensures forall a, b :: 0 <= a < b < |d| ==> IndexOf(s, d[a]) < IndexOf(s, d[b])
    ensures |d| <= |s|
  {
    var d := DedupPrefix(s, |s|);
    assert s[..|s|] == s;
    DistinctBound(d, s);
    d
  }

  /** `f` applied to every element in order, or `None` when it fails on some element. */
  function MapAll<A, B>(xs: seq<A>, f: A -> Option<B>): (r: Option<seq<B>>)
    ensures r.None? <==> exists k :: 0 <= k < |xs| && f(xs[k]).None?
    ensures r.Some? ==> |r.value| == |xs| && forall k :: 0 <= k < |xs| ==> f(xs[k]) == Some(r.value[k])
    decreases |xs|
  {
    if xs == [] then Some([])
    else
      var init := xs[..|xs| - 1];
      var rest := MapAll(init, f);
      var last := f(xs[|xs| - 1]);
      assert forall k :: 0 <= k < |init| ==> init[k] == xs[k];
      if rest.None? then
        var k :| 0 <= k < |init| && f(init[k]).None?;
        assert f(xs[k]).None?;
        None
      else if last.None? then
        None
      else
        Some(rest.value + [last.value])
  }
}
