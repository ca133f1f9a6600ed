/**
 * The in-place Fisher-Yates shuffle (Knuth's Algorithm P, section 3.4.2 of
 * The Art of Computer Programming, Vol. 2) run on the working list of team
 * names. The random index drawn at step `i` is modelled as an arbitrary
 * choice `js[i]` in `[0, i]`; every statement below holds for every such
 * choice.
 */
module Shuffle {

  /** `js` supplies, for every index `i` of a list of length `n`, a swap partner in `[0, i]`. */
  predicate ValidDraws(js: seq<int>, n: nat) {
    |js| == n && forall i :: 0 <= i < n ==> 0 <= js[i] <= i
  }

  /**
   * The draws made from a random source `pick`: at index `i` the loop draws
   * `Math.floor(Math.random() * (i + 1))`, a value in `[0, i]`, modelled as
   * `pick(i)` reduced into that range.
   */
  function Draws(pick: nat -> nat, n: nat): (js: seq<int>)
    ensures ValidDraws(js, n)
  {
    seq(n, i requires 0 <= i < n => pick(i) % (i + 1))
  }

  /** Modelling the random source as a function loses no choice: every valid draw sequence is produced by some source. */
  lemma DrawsCoverEveryChoice(js: seq<int>, n: nat)
    requires ValidDraws(js, n)
    ensures Draws((i: nat) => if i < |js| && js[i] >= 0 then js[i] else 0, n) == js
  {
    var pick := (i: nat) => if i < |js| && js[i] >= 0 then js[i] else 0;
    var d := Draws(pick, n);
    forall i | 0 <= i < n ensures d[i] == js[i] {
      assert pick(i) == js[i] && js[i] < i + 1;
    }
  }

  /** The destructuring swap `[s[i], s[j]] = [s[j], s[i]]`. */
  function Swap<T>(s: seq<T>, i: nat, j: nat): (r: seq<T>)
    requires i < |s| && j < |s|
    ensures |r| == |s| && r[i] == s[j] && r[j] == s[i]
    ensures forall k :: 0 <= k < |s| && k != i && k != j ==> r[k] == s[k]
    ensures multiset(r) == multiset(s)
  {
    s[i := s[j]][j := s[i]]
  }

  /**
   * The list once the loop has still to visit the indices `k - 1` down to
   * `1`: each visit swaps position `i` with position `js[i]`. Only the first
   * `k` positions move, and they are rearranged, never lost or duplicated.
   */
  function ShuffleFrom<T>(s: seq<T>, js: seq<int>, k: nat): (r: seq<T>)
    requires k <= |s| && ValidDraws(js, |s|)
    ensures |r| == |s| && multiset(r) == multiset(s)
    ensures r[k..] == s[k..]
    decreases k
  {
    if k <= 1 then s else ShuffleFrom(Swap(s, k - 1, js[k - 1]), js, k - 1)
  }

  /** The result of the whole loop, from the last index down to index 1. */
  function Shuffled<T>(s: seq<T>, js: seq<int>): seq<T>
    requires ValidDraws(js, |s|)
  {
    ShuffleFrom(s, js, |s|)
  }

  /** The shuffle is a permutation of its input, for every choice of draws. */
  lemma ShuffledIsPermutation<T>(s: seq<T>, js: seq<int>)
    requires ValidDraws(js, |s|)
    ensures |Shuffled(s, js)| == |s|
    ensures multiset(Shuffled(s, js)) == multiset(s)
    ensures forall x :: x in Shuffled(s, js) <==> x in s
  {
    var r := Shuffled(s, js);
    assert forall x :: x in r <==> x in multiset(r);
    assert forall x :: x in s <==> x in multiset(s);
  }

  /**
   * Fisher-Yates as the source runs it: for i from the last index down to 1,
   * swap a[i] with a[j] for the drawn j in [0, i].
   */
  method ShuffleInPlace<T>(a: array<T>, js: seq<int>)
    requires ValidDraws(js, a.Length)
    modifies a
    ensures a[..] == Shuffled(old(a[..]), js)
    ensures multiset(a[..]) == multiset(old(a[..]))
  {
    var i := a.Length - 1;
    while i > 0
      invariant -1 <= i < a.Length
      invariant ShuffleFrom(a[..], js, i + 1) == Shuffled(old(a[..]), js)
    {
      var j := js[i];
      ghost var before := a[..];
      a[i], a[j] := a[j], a[i];
      assert a[..] == Swap(before, i, j);
      i := i - 1;
    }
  }

  /**
   * Every arrangement is reachable: for any rearrangement `t` of `s` there
   * are draws that make the shuffle produce exactly `t`. Together with there
   * being exactly `n!` valid draw sequences this is what makes the shuffle
   * able to produce each ordering.
   */
  lemma EveryArrangementReachable<T>(s: seq<T>, t: seq<T>) returns (js: seq<int>)
    requires multiset(s) == multiset(t)
    ensures ValidDraws(js, |s|) && Shuffled(s, js) == t
  {
    assert |s| == |multiset(s)| == |multiset(t)| == |t|;
    var zeros := seq(|s|, i => 0);
    assert s[..|s|] == s && t[..|t|] == t;
    js := ReachFrom(s, t, |s|, zeros);
  }

  lemma DropSameLast<T>(a: seq<T>, b: seq<T>, x: T)
    requires multiset(a + [x]) == multiset(b + [x])
    ensures multiset(a) == multiset(b)
  {
    forall y ensures multiset(a)[y] == multiset(b)[y] {
      assert multiset(a + [x])[y] == multiset(a)[y] + multiset{x}[y];
      assert multiset(b + [x])[y] == multiset(b)[y] + multiset{x}[y];
    }
  }

  /** A swap of two positions below `k` acts on the prefix `s[..k]` alone. */
  lemma SwapBelow<T>(s: seq<T>, k: nat, j: nat)
    requires j < k <= |s|
    ensures Swap(s, k - 1, j)[..k] == Swap(s[..k], k - 1, j)
    ensures Swap(s, k - 1, j)[k..] == s[k..]
  {
  }

  /** Splitting a list around its position `k - 1`. */
  lemma SplitAt<T>(u: seq<T>, k: nat)
    requires 1 <= k <= |u|
    ensures u[..k] == u[..k - 1] + [u[k - 1]]
    ensures u[k - 1..] == [u[k - 1]] + u[k..]
  {
  }

  /** An element of `t[..k]` is found in `s[..k]` when the two prefixes hold the same elements. */
  lemma Occurs<T>(s: seq<T>, t: seq<T>, k: nat) returns (j: nat)
    requires 1 <= k <= |s| && k <= |t| && multiset(s[..k]) == multiset(t[..k])
    ensures j < k && s[j] == t[k - 1]
  {
    assert t[..k][k - 1] == t[k - 1];
    assert t[k - 1] in multiset(s[..k]);
    var i :| 0 <= i < k && s[..k][i] == t[k - 1];
    j := i;
  }

  /** One step of the construction: some j < k brings t[k - 1] to position k - 1 of s. */
  lemma SwapIntoPlace<T>(s: seq<T>, t: seq<T>, k: nat) returns (j: nat)
    requires |s| == |t| && 2 <= k <= |s|
    requires multiset(s[..k]) == multiset(t[..k]) && s[k..] == t[k..]
    ensures j < k
    ensures multiset(Swap(s, k - 1, j)[..k - 1]) == multiset(t[..k - 1])
    ensures Swap(s, k - 1, j)[k - 1..] == t[k - 1..]
  {
    j := Occurs(s, t, k);
    var s2 := Swap(s, k - 1, j);
    SwapBelow(s, k, j);
    assert multiset(s2[..k]) == multiset(t[..k]);
    SplitAt(s2, k);
    SplitAt(t, k);
    DropSameLast(s2[..k - 1], t[..k - 1], t[k - 1]);
  }

  /** Overwriting the draw at `k - 1` leaves the draws from `k` on as they were. */
  lemma UpdateBelow(js0: seq<int>, js: seq<int>, k: nat, j: int)
    requires 1 <= k <= |js0| == |js| && js[k - 1..] == js0[k - 1 := j][k - 1..]
    ensures js[k - 1] == j && js[k..] == js0[k..]
  {
    assert js[k - 1] == js[k - 1..][0];
    assert forall m :: k <= m < |js| ==> js[m] == js[k - 1..][m - k + 1];
  }

  lemma {:induction false} ReachFrom<T>(s: seq<T>, t: seq<T>, k: nat, js0: seq<int>) returns (js: seq<int>)
    requires |s| == |t| && k <= |s| && ValidDraws(js0, |s|)
    requires multiset(s[..k]) == multiset(t[..k]) && s[k..] == t[k..]
    ensures ValidDraws(js, |s|) && js[k..] == js0[k..] && ShuffleFrom(s, js, k) == t
    decreases k
  {
    js := js0;
    if k == 0 {
      assert s == s[0..] && t == t[0..];
    } else if k == 1 {
      var j := Occurs(s, t, 1);
      SplitAt(s, 1);
      SplitAt(t, 1);
    } else {
      var j := SwapIntoPlace(s, t, k);
      js := ReachFrom(Swap(s, k - 1, j), t, k - 1, js0[k - 1 := j]);
      UpdateBelow(js0, js, k, j);
    }
  }
}
