/**
 * Normalisation of the entered team names: JavaScript's `String.prototype.trim`,
 * the `map(trim)` / `filter(name !== "")` pipeline, the count of non-blank
 * entries and the `[...new Set(names)]` de-duplication used to detect
 * repeated names.
 */
module TeamNames {

  /** The characters `trim` strips: ECMAScript WhiteSpace and LineTerminator. */
  predicate IsJsSpace(c: char) {
    || c == '\t' || c == '\n' || c == '\U{000B}' || c == '\U{000C}' || c == '\r'
    || c == ' ' || c == '\U{00A0}' || c == '\U{1680}' || ('\U{2000}' <= c <= '\U{200A}')
    || c == '\U{2028}' || c == '\U{2029}' || c == '\U{202F}' || c == '\U{205F}'
    || c == '\U{3000}' || c == '\U{FEFF}'
  }

  /** `s` with its leading white space removed. */
  function TrimStart(s: string): (r: string)
    ensures |r| <= |s| && r == s[|s| - |r|..]
    ensures r == [] || !IsJsSpace(r[0])
    ensures forall k :: 0 <= k < |s| - |r| ==> IsJsSpace(s[k])
  {
    if s != [] && IsJsSpace(s[0]) then TrimStart(s[1..]) else s
  }

  /** `s` with its trailing white space removed. */
  function TrimEnd(s: string): (r: string)
    ensures |r| <= |s| && r == s[..|r|]
    ensures r == [] || !IsJsSpace(r[|r| - 1])
    ensures forall k :: |r| <= k < |s| ==> IsJsSpace(s[k])
  {
    if s != [] && IsJsSpace(s[|s| - 1]) then TrimEnd(s[..|s| - 1]) else s
  }

  /**
   * `s.trim()`: the slice of `s` left after removing white space at both
   * ends; everything removed is white space and the slice neither starts nor
   * ends with it.
   */
  function Trim(s: string): (r: string)
    ensures var lead := |s| - |TrimStart(s)|;
      && lead + |r| <= |s|
      && r == s[lead..lead + |r|]
      && (forall k :: 0 <= k < lead ==> IsJsSpace(s[k]))
      && (forall k :: lead + |r| <= k < |s| ==> IsJsSpace(s[k]))
    ensures r == [] || (!IsJsSpace(r[0]) && !IsJsSpace(r[|r| - 1]))
  {
    TrimEnd(TrimStart(s))
  }

  /** Trimming twice changes nothing more. */
  lemma TrimIdempotent(s: string)
    ensures Trim(Trim(s)) == Trim(s)
  {
    var t := Trim(s);
    if t != [] {
      assert TrimStart(t) == t;
      assert TrimEnd(t) == t;
    }
  }

  /** A name trims to the empty string exactly when it is all white space. */
  lemma TrimBlank(s: string)
    ensures Trim(s) == "" <==> forall k :: 0 <= k < |s| ==> IsJsSpace(s[k])
  {
    var lead := |s| - |TrimStart(s)|;
    if Trim(s) != "" {
      assert s[lead] == Trim(s)[0];
    }
  }

  /** `names.map(n => n.trim())`. */
  function TrimAll(names: seq<string>): seq<string> {
    seq(|names|, k requires 0 <= k < |names| => Trim(names[k]))
  }

  /** `names.filter(n => n !== "")`. */
  function DropBlank(names: seq<string>): (r: seq<string>)
    ensures |r| <= |names|
    ensures forall x :: x in r <==> x in names && x != ""
  {
    if names == [] then []
    else (if names[0] == "" then [] else [names[0]]) + DropBlank(names[1..])
  }

  /** The names the round generator works with: trimmed, blanks removed. */
  function Normalize(names: seq<string>): seq<string> {
    DropBlank(TrimAll(names))
  }

  /** `teams.filter(t => t.name.trim() !== "").length`. */
  function NonBlankCount(names: seq<string>): nat {
    if names == [] then 0
    else (if Trim(names[0]) == "" then 0 else 1) + NonBlankCount(names[1..])
  }

  /** No name occurs twice. */
  predicate Distinct<T(==)>(s: seq<T>) {
    forall i, j :: 0 <= i < j < |s| ==> s[i] != s[j]
  }

  /** `[...new Set(s)]`: the first occurrence of every element, in order. */
  function Dedup(s: seq<string>): (r: seq<string>)
    ensures |r| <= |s|
    ensures forall x :: x in r <==> x in s
    ensures Distinct(r)
  {
    if s == [] then []
    else
      var d := Dedup(s[..|s| - 1]);
      var x := s[|s| - 1];
      if x in d then d else d + [x]
  }

  lemma {:induction false} DropBlankAppend(a: seq<string>, b: seq<string>)
    ensures DropBlank(a + b) == DropBlank(a) + DropBlank(b)
  {
    if a != [] {
      assert (a + b)[1..] == a[1..] + b;
      DropBlankAppend(a[1..], b);
    } else {
      assert a + b == b;
    }
  }

  /**
   * Normalisation keeps the input order: it acts on each entry on its own
   * (a single entry becomes its trimmed name, or nothing when that is
   * empty) and on a concatenation piece by piece.
   */
  lemma NormalizeInOrder(a: seq<string>, b: seq<string>, x: string)
    ensures Normalize(a + b) == Normalize(a) + Normalize(b)
    ensures Normalize([x]) == if Trim(x) == "" then [] else [Trim(x)]
  {
    assert TrimAll(a + b) == TrimAll(a) + TrimAll(b) by {
      forall k | 0 <= k < |a| + |b| ensures TrimAll(a + b)[k] == (TrimAll(a) + TrimAll(b))[k] {
        if k < |a| {
          assert (a + b)[k] == a[k];
        } else {
          assert (a + b)[k] == b[k - |a|];
        }
      }
    }
    DropBlankAppend(TrimAll(a), TrimAll(b));
    assert TrimAll([x]) == [Trim(x)];
    assert [Trim(x)][1..] == [];
  }

  /**
   * Every kept entry is the non-empty, already trimmed name of some team, and
   * every team whose trimmed name is non-empty is kept.
   */
  lemma NormalizeEntries(names: seq<string>)
    ensures forall x :: x in Normalize(names) ==> x != "" && Trim(x) == x
    ensures forall x :: x in Normalize(names) <==>
      exists k :: 0 <= k < |names| && Trim(names[k]) == x && x != ""
  {
    forall x | x in Normalize(names)
      ensures Trim(x) == x
    {
      var k :| 0 <= k < |TrimAll(names)| && TrimAll(names)[k] == x;
      TrimIdempotent(names[k]);
    }
    forall x | x in Normalize(names)
      ensures exists k :: 0 <= k < |names| && Trim(names[k]) == x
    {
      var k :| 0 <= k < |TrimAll(names)| && TrimAll(names)[k] == x;
    }
    forall x | exists k :: 0 <= k < |names| && Trim(names[k]) == x && x != ""
      ensures x in Normalize(names)
    {
      var k :| 0 <= k < |names| && Trim(names[k]) == x && x != "";
      assert TrimAll(names)[k] == x;
    }
  }

  /** No normalised name is empty. */
  lemma NormalizedNonBlank(names: seq<string>)
    ensures forall k :: 0 <= k < |Normalize(names)| ==> Normalize(names)[k] != ""
  {
    var n := Normalize(names);
    forall k | 0 <= k < |n| ensures n[k] != "" {
      assert n[k] in DropBlank(TrimAll(names));
    }
  }

  /** Normalising an already normalised list gives it back. */
  lemma {:induction false} NormalizeIdempotent(names: seq<string>)
    ensures Normalize(Normalize(names)) == Normalize(names)
  {
    NormalizeEntries(names);
    var n := Normalize(names);
    assert forall k :: 0 <= k < |n| ==> n[k] in n;
    FixedPoint(n);
  }

  lemma {:induction false} FixedPoint(s: seq<string>)
    requires forall k :: 0 <= k < |s| ==> s[k] != "" && Trim(s[k]) == s[k]
    ensures Normalize(s) == s
  {
    if s != [] {
      FixedPoint(s[1..]);
      assert Normalize([s[0]]) == [s[0]] by {
        NormalizeInOrder([], [], s[0]);
      }
      NormalizeInOrder([s[0]], s[1..], s[0]);
      assert [s[0]] + s[1..] == s;
    } else {
      assert TrimAll(s) == [];
    }
  }

  /** The code's count of non-blank teams is the length of the normalised list. */
  lemma {:induction false} NonBlankCountIsNormalizedLength(names: seq<string>)
    ensures NonBlankCount(names) == |Normalize(names)|
  {
    if names != [] {
      NonBlankCountIsNormalizedLength(names[1..]);
      NormalizeInOrder([names[0]], names[1..], names[0]);
      assert [names[0]] + names[1..] == names;
    } else {
      assert TrimAll(names) == [];
    }
  }

  /** A list without repetitions passes through the Set unchanged. */
  lemma {:induction false} DedupOfDistinct(s: seq<string>)
    requires Distinct(s)
    ensures Dedup(s) == s
  {
    if s != [] {
      var p := s[..|s| - 1];
      DedupOfDistinct(p);
      assert s[|s| - 1] !in p;
      assert p + [s[|s| - 1]] == s;
    }
  }

  /**
   * The Set-based check is exact: de-duplication keeps the length if and
   * only if no name occurs twice.
   */
  lemma {:induction false} DedupKeepsLengthIffDistinct(s: seq<string>)
    ensures |Dedup(s)| == |s| <==> Distinct(s)
  {
    if Distinct(s) {
      DedupOfDistinct(s);
    } else if s != [] {
      var p := s[..|s| - 1];
      var x := s[|s| - 1];
      if x !in p {
        var i, j :| 0 <= i < j < |s| && s[i] == s[j];
        assert j < |s| - 1;
        assert p[i] == p[j];
        DedupKeepsLengthIffDistinct(p);
      }
    }
  }
}
