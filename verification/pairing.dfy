/**
 * Cutting the shuffled list into matches: the loop walks the list two at a
 * time and pushes `[a[i], a[i + 1]]` whenever `a[i + 1]` is truthy, that is,
 * exists and is not the empty string.
 */
module Pairing {

  /** One match: the two team names shown either side of "VS". */
  type Pairing = (string, string)

  /** The matches the loop produces from the list `s`. */
  function Pairs(s: seq<string>): seq<Pairing>
    decreases |s|
  {
    if |s| < 2 then []
    else (if s[1] != "" then [(s[0], s[1])] else []) + Pairs(s[2..])
  }

  /** The names of all matches, in order, first team before second. */
  function Flatten(ps: seq<Pairing>): (names: seq<string>)
    ensures |names| == 2 * |ps|
  {
    if ps == [] then [] else [ps[0].0, ps[0].1] + Flatten(ps[1..])
  }

  /**
   * The pairing loop:
   * `for (i = 0; i < a.length; i += 2) if (a[i + 1]) push([a[i], a[i + 1]])`.
   */
  method PairUp(a: array<string>) returns (pairs: seq<Pairing>)
    ensures pairs == Pairs(a[..])
  {
    pairs := [];
    var i := 0;
    while i < a.Length
      invariant 0 <= i <= a.Length + 1 && i % 2 == 0
      invariant i <= a.Length ==> pairs + Pairs(a[i..]) == Pairs(a[..])
      invariant i > a.Length ==> pairs == Pairs(a[..])
    {
      if i + 1 < a.Length && a[i + 1] != "" {
        pairs := pairs + [(a[i], a[i + 1])];
      }
      assert i + 2 <= a.Length ==> a[i..][2..] == a[i + 2..];
      i := i + 2;
    }
  }

  /**
   * On a list of non-empty names the loop pairs position 2k with 2k + 1 for
   * every k, so the matches give the list back in order; when the list has
   * odd length its last name is the only one left unpaired.
   */
  lemma {:induction false} PairsOfNamed(s: seq<string>)
    requires forall k :: 0 <= k < |s| ==> s[k] != ""
    ensures |Pairs(s)| == |s| / 2
    ensures forall k :: 0 <= k < |s| / 2 ==> Pairs(s)[k] == (s[2 * k], s[2 * k + 1])
    ensures Flatten(Pairs(s)) == s[..|s| - |s| % 2]
    decreases |s|
  {
    if |s| >= 2 {
      var rest := s[2..];
      PairsOfNamed(rest);
      assert Pairs(s) == [(s[0], s[1])] + Pairs(rest);
      forall k | 1 <= k < |s| / 2 ensures Pairs(s)[k] == (s[2 * k], s[2 * k + 1]) {
        assert Pairs(s)[k] == Pairs(rest)[k - 1];
        assert rest[2 * (k - 1)] == s[2 * k];
      }
      assert Flatten(Pairs(s)) == [s[0], s[1]] + Flatten(Pairs(rest));
      assert s[..|s| - |s| % 2] == [s[0], s[1]] + rest[..|rest| - |rest| % 2];
    } else {
      assert s[..|s| - |s| % 2] == [];
    }
  }

  /** The loop never invents or repeats a name: the paired names are drawn from the list. */
  lemma {:induction false} PairsDrawFromList(s: seq<string>)
    ensures multiset(Flatten(Pairs(s))) <= multiset(s)
    decreases |s|
  {
    if |s| >= 2 {
      var rest := s[2..];
      PairsDrawFromList(rest);
      var f := Flatten(Pairs(rest));
      assert s == [s[0], s[1]] + rest;
      assert multiset(s) == multiset([s[0], s[1]]) + multiset(rest);
      if s[1] != "" {
        assert Flatten(Pairs(s)) == [s[0], s[1]] + f;
        assert multiset(Flatten(Pairs(s))) == multiset([s[0], s[1]]) + multiset(f);
      } else {
        assert Pairs(s) == [] + Pairs(rest) == Pairs(rest);
      }
    }
  }
}
