/** The Fisher-Yates shuffle of BRTransactionShuffleOutputs in BRTransaction.c.  The random numbers are given by a
    function; every order can come out, and each in only one way. */
module Shuffle {
  import opened Prelude

  // The position that step i of a shuffle of n draws: one from i on.
  function Drawn(rand: nat -> nat, n: nat, i: nat): (j: nat)
    requires i < n
    ensures i <= j < n
  {
    i + rand(i) % (n - i)
  }

  function Swap<T>(s: seq<T>, i: nat, j: nat): (r: seq<T>)
    requires i < |s| && j < |s|
    ensures |r| == |s|
  {
    s[i := s[j]][j := s[i]]
  }

  // Steps i and later.
  function Shuffled<T>(s: seq<T>, rand: nat -> nat, i: nat): (r: seq<T>)
    ensures |r| == |s|
    decreases |s| - i
  {
    if i + 1 >= |s| then s else Shuffled(Swap(s, i, Drawn(rand, |s|, i)), rand, i + 1)
  }

  lemma Swaps<T>(s: seq<T>, i: nat, j: nat)
    requires i < |s| && j < |s|
    ensures multiset(Swap(s, i, j)) == multiset(s)
    ensures i <= j ==> Swap(s, i, j)[..i] == s[..i] && Swap(s, i, j)[i] == s[j]
    ensures Swap(s, i, i) == s
    ensures Distinct(s) ==> Distinct(Swap(s, i, j))
  {
  }

  /** Whatever is drawn, the elements are the same, and those before step i stay. */
  lemma {:induction false} ShuffledKeeps<T>(s: seq<T>, rand: nat -> nat, i: nat)
    requires i <= |s|
    ensures multiset(Shuffled(s, rand, i)) == multiset(s) && Shuffled(s, rand, i)[..i] == s[..i]
    decreases |s| - i
  {
    hide Swap, Drawn;
    if i + 1 < |s| {
      var j := Drawn(rand, |s|, i);
      var t := Swap(s, i, j);
      Swaps(s, i, j);
      ShuffledKeeps(t, rand, i + 1);
      var r := Shuffled(t, rand, i + 1);
      assert r[..i + 1][..i] == r[..i] && t[..i + 1][..i] == t[..i];
    }
  }

  lemma {:induction false} SameDraws<T>(s: seq<T>, a: nat -> nat, b: nat -> nat, i: nat)
    requires forall k: nat :: i <= k ==> a(k) == b(k)
    ensures Shuffled(s, a, i) == Shuffled(s, b, i)
    decreases |s| - i
  {
    hide Swap;
    if i + 1 < |s| {
      var j := Drawn(a, |s|, i);
      assert j == Drawn(b, |s|, i);
      SameDraws(Swap(s, i, j), a, b, i + 1);
    }
  }

  // What stands behind equal beginnings is the same, in some order.
  lemma RestsMatch<T>(s: seq<T>, t: seq<T>, i: nat)
    requires multiset(s) == multiset(t) && |s| == |t| && i <= |s| && s[..i] == t[..i]
    ensures multiset(s[i..]) == multiset(t[i..])
  {
    assert s == s[..i] + s[i..] && t == t[..i] + t[i..];
    assert multiset(s[i..]) == multiset(s) - multiset(s[..i]);
    assert multiset(t[i..]) == multiset(t) - multiset(t[..i]);
  }

  lemma Found<T>(s: seq<T>, t: seq<T>, i: nat) returns (j: nat)
    requires multiset(s) == multiset(t) && |s| == |t| && i < |s| && s[..i] == t[..i]
    ensures i <= j < |s| && s[j] == t[i]
  {
    RestsMatch(s, t, i);
    assert t[i..][0] == t[i];
    assert t[i] in multiset(t[i..]);
    assert t[i] in s[i..];
    var k :| 0 <= k < |s[i..]| && s[i..][k] == t[i];
    j := i + k;
  }

  // From step i on a draw of j, and what another function draws after that.
  function Drawing(i: nat, j: nat, rest: nat -> nat): nat -> nat
    requires i <= j
  {
    (k: nat) => if k == i then j - i else rest(k)
  }

  lemma Draws(i: nat, j: nat, n: nat, rest: nat -> nat)
    requires i <= j < n
    ensures Drawn(Drawing(i, j, rest), n, i) == j
  {
  }

  /** Every order can come out: some draws lead to any permutation. */
  lemma {:induction false} EveryOrderDrawn<T>(s: seq<T>, t: seq<T>, i: nat) returns (rand: nat -> nat)
    requires multiset(s) == multiset(t) && |s| == |t| && i <= |s| && s[..i] == t[..i]
    ensures Shuffled(s, rand, i) == t
    decreases |s| - i
  {
    hide Swap, Drawn, Drawing;
    if i == |s| {
      rand := (k: nat) => 0;
      assert s == s[..i] && t == t[..i];
    } else {
      var j := Found(s, t, i);
      var u := Swap(s, i, j);
      Swaps(s, i, j);
      assert u[..i + 1] == u[..i] + [u[i]] && t[..i + 1] == t[..i] + [t[i]];
      if i + 1 == |s| {
        rand := (k: nat) => 0;
        assert u == u[..i + 1] && t == t[..i + 1];
      } else {
        var rest := EveryOrderDrawn(u, t, i + 1);
        rand := Drawing(i, j, rest);
        Draws(i, j, |s|, rest);
        assert forall k: nat :: i + 1 <= k ==> rand(k) == rest(k) by { DrawsAfter(i, j, rest); }
        SameDraws(u, rand, rest, i + 1);
      }
    }
  }

  lemma DrawsAfter(i: nat, j: nat, rest: nat -> nat)
    requires i <= j
    ensures forall k: nat :: i + 1 <= k ==> Drawing(i, j, rest)(k) == rest(k)
  {
  }

  /** Different draws give different orders of distinct elements; so with fair draws every order is equally likely. */
  lemma {:induction false} DrawnOnce<T>(s: seq<T>, a: nat -> nat, b: nat -> nat, i: nat, k: nat)
    requires Distinct(s) && Shuffled(s, a, i) == Shuffled(s, b, i) && i <= k && k + 1 < |s|
    ensures Drawn(a, |s|, k) == Drawn(b, |s|, k)
    decreases |s| - i
  {
    hide Swap, Drawn;
    var x, y := Drawn(a, |s|, i), Drawn(b, |s|, i);
    var t, u := Swap(s, i, x), Swap(s, i, y);
    Swaps(s, i, x);
    Swaps(s, i, y);
    ShuffledKeeps(t, a, i + 1);
    ShuffledKeeps(u, b, i + 1);
    assert s[x] == t[..i + 1][i] == u[..i + 1][i] == s[y];
    if i < k { DrawnOnce(t, a, b, i + 1, k); }
  }

  /** BRTransactionShuffleOutputs */
  method ShuffleOutputs<T>(outputs: seq<T>, rand: nat -> nat) returns (r: seq<T>)
    ensures r == Shuffled(outputs, rand, 0) && multiset(r) == multiset(outputs)
  {
    hide Swap;
    r := outputs;
    var i := 0;
    while i + 1 < |r|
      invariant |r| == |outputs| && Shuffled(r, rand, i) == Shuffled(outputs, rand, 0)
    {
      var j := Drawn(rand, |r|, i);
      Swaps(r, i, i);
      if j != i {
        SwapIs(r, i, j);
        r := r[i := r[j]][j := r[i]];
      }
      i := i + 1;
    }
    ShuffledKeeps(outputs, rand, 0);
  }

  lemma SwapIs<T>(s: seq<T>, i: nat, j: nat)
    requires i < |s| && j < |s|
    ensures Swap(s, i, j) == s[i := s[j]][j := s[i]]
  {
  }
}
