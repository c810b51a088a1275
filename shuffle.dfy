/**
 * random_array: fill an array with the indices 0 .. n - 1, then shuffle it
 * in place with the Fisher-Yates algorithm. The values rand() returns are an
 * input here (`rolls`); pass i swaps slot i with slot rolls[i] % (n - i) + i.
 */
module Shuffle {

  /** The identity arrangement 0, 1, ..., n - 1. */
  function Iota(n: nat): (r: seq<int>)
    ensures |r| == n
    ensures forall i :: 0 <= i < n ==> r[i] == i
  {
    if n == 0 then [] else Iota(n - 1) + [n - 1]
  }

  /** Exchange the elements at i and j. */
  function Swap(s: seq<int>, i: nat, j: nat): (r: seq<int>)
    requires i < |s| && j < |s|
    ensures |r| == |s| && r[i] == s[j] && r[j] == s[i]
    ensures forall k :: 0 <= k < |s| && k != i && k != j ==> r[k] == s[k]
  {
    s[i := s[j]][j := s[i]]
  }

  lemma SwapPermutes(s: seq<int>, i: nat, j: nat)
    requires i < |s| && j < |s|
    ensures multiset(Swap(s, i, j)) == multiset(s)
  {
  }

  /** The slot pass i of the shuffle swaps with, for a rand() result `roll`. */
  function Partner(roll: nat, n: nat, i: nat): (j: nat)
    requires i < n
    ensures i <= j < n
  {
    roll % (n - i) + i
  }

  /** The passes i, i + 1, ..., n - 2 of the shuffle applied to s. */
  function ShuffleFrom(s: seq<int>, i: nat, rolls: seq<nat>): (r: seq<int>)
    requires |s| <= |rolls| + 1
    ensures |r| == |s|
    decreases |s| - i
  {
    if i + 1 >= |s| then s
    else ShuffleFrom(Swap(s, i, Partner(rolls[i], |s|, i)), i + 1, rolls)
  }

  /** Every pass is a swap, so the passes together permute s. */
  lemma {:induction false} ShufflePermutes(s: seq<int>, i: nat, rolls: seq<nat>)
    requires |s| <= |rolls| + 1
    ensures multiset(ShuffleFrom(s, i, rolls)) == multiset(s)
    decreases |s| - i
  {
    if i + 1 < |s| {
      var j := Partner(rolls[i], |s|, i);
      SwapPermutes(s, i, j);
      ShufflePermutes(Swap(s, i, j), i + 1, rolls);
    }
  }

  /** What random_array leaves in a[0 .. n). */
  function Shuffled(n: nat, rolls: seq<nat>): seq<int>
    requires n <= |rolls| + 1
  {
    ShuffleFrom(Iota(n), 0, rolls)
  }

  /**
   * random_array(a, n), with n the length of the array: the first loop fills
   * the identity, the second makes the swaps.
   */
  method RandomArray(a: array<int>, rolls: seq<nat>)
    requires a.Length <= |rolls| + 1
    modifies a
    ensures a[..] == Shuffled(a.Length, rolls)
  {
    var n := a.Length;
    for i := 0 to n
      invariant a[..i] == Iota(i)
    {
      a[i] := i;
      assert a[..i + 1] == a[..i] + [i];
    }
    assert a[..] == a[..n];

    var i := 0;
    while i < n - 1
      invariant 0 <= i <= n
      invariant ShuffleFrom(a[..], i, rolls) == Shuffled(n, rolls)
    {
      var j := Partner(rolls[i], n, i);
      ghost var before := a[..];
      var tmp := a[i];
      a[i] := a[j];
      a[j] := tmp;
      assert a[..] == before[i := before[j]][j := before[i]];
      i := i + 1;
    }
  }

  /**
   * Whatever rand() returns, the shuffle is a permutation of the indices:
   * every value lies in 0 .. n - 1 and occurs exactly once.
   */
  lemma ShuffledIsPermutation(n: nat, rolls: seq<nat>)
    requires n <= |rolls| + 1
    ensures |Shuffled(n, rolls)| == n
    ensures multiset(Shuffled(n, rolls)) == multiset(Iota(n))
    ensures forall v :: 0 <= v < n ==> multiset(Shuffled(n, rolls))[v] == 1
    ensures forall k :: 0 <= k < n ==> 0 <= Shuffled(n, rolls)[k] < n
  {
    var r := Shuffled(n, rolls);
    ShufflePermutes(Iota(n), 0, rolls);
    IotaCounts(n);
    IotaRange(n);
    forall k | 0 <= k < n
      ensures 0 <= r[k] < n
    {
      assert r[k] in multiset(r);
    }
  }

  /** Each index occurs once in Iota(n). */
  lemma {:induction false} IotaCounts(n: nat)
    ensures forall v :: 0 <= v < n ==> multiset(Iota(n))[v] == 1
  {
    if n > 0 {
      IotaCounts(n - 1);
      IotaRange(n - 1);
      var m := multiset(Iota(n - 1));
      assert Iota(n) == Iota(n - 1) + [n - 1];
      assert multiset(Iota(n)) == m + multiset{n - 1};
      assert m[n - 1] == 0;
    }
  }

  /** Only the indices below n occur in Iota(n). */
  lemma IotaRange(n: nat)
    ensures forall v :: v in multiset(Iota(n)) ==> 0 <= v < n
  {
    var s := Iota(n);
    forall v | v in multiset(s)
      ensures 0 <= v < n
    {
      var i :| 0 <= i < |s| && s[i] == v;
    }
  }

  /** With fewer than two elements there is no pass: the identity stays. */
  lemma ShortArrayUnshuffled(n: nat, rolls: seq<nat>)
    requires n <= 1
    ensures Shuffled(n, rolls) == Iota(n)
  {
  }
}
