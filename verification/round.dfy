/**
 * One press of "Generate Pairings", as a function of the entered names, the
 * remembered previous bye, the external bye selector and the random source:
 * normalise, reject too few or repeated names, settle the bye, shuffle and
 * pair. The component method `MeowsSelector.GeneratePairings` is proved to
 * leave exactly this outcome in its fields.
 */
module Round {
  import opened Options
  import opened TeamNames
  import opened Shuffle
  import opened Pairing

  const TooFewTeams: string := "Please enter at least two valid team names."
  const DuplicateNames: string := "Duplicate team names are not allowed. Please provide unique names."
  const ByeFailed: string := "An AI error occurred while assigning a bye. Please try again."

  /**
   * The answer of the external bye selector: the team given the bye and the
   * list left to pair, or `Unavailable` when the call throws or returns no
   * result. Nothing ties `updatedTeams` to the list that was sent.
   */
  datatype ByeReply = Assigned(byeTeam: string, updatedTeams: seq<string>) | Unavailable

  /** The external bye selector, asked with the working list and the previous bye. */
  type ByeSelector = (seq<string>, Option<string>) -> ByeReply

  /** `previousByeTeam || undefined`: an empty remembered name is not passed on. */
  function ByeHint(prev: Option<string>): (hint: Option<string>)
    ensures hint == None <==> prev == None || prev == Some("")
    ensures hint != None ==> hint == prev
  {
    if prev.Some? && prev.value != "" then prev else None
  }

  /** What the component shows after one round, and the bye it remembers for the next one. */
  datatype Outcome = Outcome(
    pairings: seq<Pairing>,
    bye: Option<string>,
    previousBye: Option<string>,
    error: Option<string>)

  /** Shuffle the list with the draws of `pick`, then cut it into matches. */
  function ShuffleAndPair(s: seq<string>, pick: nat -> nat): seq<Pairing> {
    Pairs(Shuffled(s, Draws(pick, |s|)))
  }

  /** The round generator: validation, then the bye and the matches. */
  function Generate(names: seq<string>, prev: Option<string>, selectBye: ByeSelector, pick: nat -> nat): Outcome {
    var current := Normalize(names);
    if |current| < 2 then Outcome([], None, prev, Some(TooFewTeams))
    else
      var unique := Dedup(current);
      if |unique| != NonBlankCount(names) then Outcome([], None, prev, Some(DuplicateNames))
      else SettleByeAndPair(unique, prev, selectBye, pick)
  }

  /**
   * The part after validation: with an odd count ask the selector and adopt
   * its answer, with an even count forget the previous bye; then shuffle and
   * pair.
   */
  function SettleByeAndPair(teams: seq<string>, prev: Option<string>, selectBye: ByeSelector, pick: nat -> nat): Outcome {
    if |teams| % 2 != 0 then
      match selectBye(teams, ByeHint(prev))
      case Unavailable => Outcome([], None, prev, Some(ByeFailed))
      case Assigned(b, rest) => Outcome(ShuffleAndPair(rest, pick), Some(b), Some(b), None)
    else Outcome(ShuffleAndPair(teams, pick), None, None, None)
  }

  /** A list that passed validation: at least two names, none empty, none repeated. */
  predicate ValidRoster(teams: seq<string>) {
    2 <= |teams| && Distinct(teams) && forall k :: 0 <= k < |teams| ==> teams[k] != ""
  }

  /** The names a bye takes out of the round. */
  function ByeSlot(bye: Option<string>): multiset<string> {
    if bye.Some? then multiset{bye.value} else multiset{}
  }

  /**
   * A bye answer that keeps to the selector's stated purpose: the bye team
   * is on the list and the list to pair is the rest of it.
   */
  predicate WellFormedReply(teams: seq<string>, reply: ByeReply) {
    && reply.Assigned?
    && reply.byeTeam in teams
    && multiset(reply.updatedTeams) == multiset(teams) - multiset{reply.byeTeam}
  }

  /**
   * The error paths. Too few names, repeated names (checked only once there
   * are at least two) and a failing bye selector are each reported exactly in
   * their case; on every error no matches and no bye are shown and the
   * remembered bye is kept.
   */
  lemma ErrorsExactly(names: seq<string>, prev: Option<string>, selectBye: ByeSelector, pick: nat -> nat)
    ensures var o := Generate(names, prev, selectBye, pick);
      var n := Normalize(names);
      && (o.error == Some(TooFewTeams) <==> |n| < 2)
      && (o.error == Some(DuplicateNames) <==> 2 <= |n| && !Distinct(n))
      && (o.error == Some(ByeFailed) <==>
            2 <= |n| && Distinct(n) && |n| % 2 == 1 && selectBye(n, ByeHint(prev)) == Unavailable)
      && (o.error == None <==>
            2 <= |n| && Distinct(n) && (|n| % 2 == 1 ==> selectBye(n, ByeHint(prev)).Assigned?))
      && (o.error != None ==> o.pairings == [] && o.bye == None && o.previousBye == prev)
  {
    var n := Normalize(names);
    var o := Generate(names, prev, selectBye, pick);
    NonBlankCountIsNormalizedLength(names);
    DedupKeepsLengthIffDistinct(n);
    assert |TooFewTeams| == 43 && |DuplicateNames| == 66 && |ByeFailed| == 61;
    if |n| < 2 {
      assert o == Outcome([], None, prev, Some(TooFewTeams));
    } else if !Distinct(n) {
      assert o == Outcome([], None, prev, Some(DuplicateNames));
    } else {
      DedupOfDistinct(n);
      assert o == SettleByeAndPair(n, prev, selectBye, pick);
    }
  }

  /** Past validation the round depends only on the normalised list, which the selector receives as is. */
  lemma GenerateOnValid(names: seq<string>, prev: Option<string>, selectBye: ByeSelector, pick: nat -> nat)
    requires 2 <= |Normalize(names)| && Distinct(Normalize(names))
    ensures ValidRoster(Normalize(names))
    ensures Generate(names, prev, selectBye, pick) == SettleByeAndPair(Normalize(names), prev, selectBye, pick)
  {
    NonBlankCountIsNormalizedLength(names);
    DedupOfDistinct(Normalize(names));
    NormalizedNonBlank(names);
  }

  /**
   * An even number of names: no bye, the remembered bye is cleared, and
   * every team is in exactly one of the `n / 2` matches.
   */
  lemma EvenRound(teams: seq<string>, prev: Option<string>, selectBye: ByeSelector, pick: nat -> nat)
    requires ValidRoster(teams) && |teams| % 2 == 0
    ensures var o := SettleByeAndPair(teams, prev, selectBye, pick);
      && o.error == None && o.bye == None && o.previousBye == None
      && |o.pairings| == |teams| / 2
      && multiset(Flatten(o.pairings)) == multiset(teams)
  {
    FullyPaired(teams, pick);
  }

  /**
   * An odd number of names and an answer from the selector: its bye team is
   * shown and remembered, and the matches are made from its `updatedTeams`,
   * whatever that list is. When that list has no empty name, every name on
   * it is paired except one left over when its length is odd.
   */
  lemma OddRound(teams: seq<string>, prev: Option<string>, selectBye: ByeSelector, pick: nat -> nat,
                 b: string, rest: seq<string>)
    requires ValidRoster(teams) && |teams| % 2 == 1
    requires selectBye(teams, ByeHint(prev)) == Assigned(b, rest)
    ensures var o := SettleByeAndPair(teams, prev, selectBye, pick);
      && o.error == None && o.bye == Some(b) && o.previousBye == Some(b)
      && multiset(Flatten(o.pairings)) <= multiset(rest)
      && ((forall k :: 0 <= k < |rest| ==> rest[k] != "") ==> |o.pairings| == |rest| / 2)
  {
    var js := Draws(pick, |rest|);
    var shuffled := Shuffled(rest, js);
    assert ShuffleAndPair(rest, pick) == Pairs(shuffled);
    ShuffledIsPermutation(rest, js);
    PairsDrawFromList(shuffled);
    if forall k :: 0 <= k < |rest| ==> rest[k] != "" {
      shuffled := ShuffledNamed(rest, pick);
      PairsOfNamed(shuffled);
    }
  }

  /**
   * The round's promise when the selector keeps to its purpose: every team
   * is either the bye or in exactly one match, there is a bye exactly when
   * the count is odd, and there are `n / 2` matches (rounded down).
   */
  lemma RoundPartitionsTeams(names: seq<string>, prev: Option<string>, selectBye: ByeSelector, pick: nat -> nat)
    requires 2 <= |Normalize(names)| && Distinct(Normalize(names))
    requires |Normalize(names)| % 2 == 1 ==>
      WellFormedReply(Normalize(names), selectBye(Normalize(names), ByeHint(prev)))
    ensures var o := Generate(names, prev, selectBye, pick);
      && o.error == None
      && multiset(Flatten(o.pairings)) + ByeSlot(o.bye) == multiset(Normalize(names))
      && (o.bye.Some? <==> |Normalize(names)| % 2 == 1)
      && |o.pairings| == |Normalize(names)| / 2
  {
    var n := Normalize(names);
    GenerateOnValid(names, prev, selectBye, pick);
    if |n| % 2 == 0 {
      EvenRound(n, prev, selectBye, pick);
    } else {
      PartitionWithBye(n, prev, selectBye, pick);
    }
  }

  lemma PartitionWithBye(teams: seq<string>, prev: Option<string>, selectBye: ByeSelector, pick: nat -> nat)
    requires ValidRoster(teams) && |teams| % 2 == 1
    requires WellFormedReply(teams, selectBye(teams, ByeHint(prev)))
    ensures var o := SettleByeAndPair(teams, prev, selectBye, pick);
      && o.error == None && o.bye.Some?
      && multiset(Flatten(o.pairings)) + ByeSlot(o.bye) == multiset(teams)
      && |o.pairings| == |teams| / 2
  {
    var reply := selectBye(teams, ByeHint(prev));
    var rest := reply.updatedTeams;
    RestOfRoster(teams, reply.byeTeam, rest);
    OddLessOne(|teams|);
    FullyPaired(rest, pick);
  }

  lemma OddLessOne(m: nat)
    requires m % 2 == 1
    ensures (m - 1) % 2 == 0 && (m - 1) / 2 == m / 2
  {
  }

  /** The rest of a roster of non-empty names, without one of them, is one shorter and has no empty name. */
  lemma RestOfRoster(n: seq<string>, b: string, rest: seq<string>)
    requires forall k :: 0 <= k < |n| ==> n[k] != ""
    requires b in n && multiset(rest) == multiset(n) - multiset{b}
    ensures |rest| == |n| - 1 && multiset(rest) + multiset{b} == multiset(n)
    ensures forall k :: 0 <= k < |rest| ==> rest[k] != ""
  {
    assert multiset(rest) + multiset{b} == multiset(n);
    assert |rest| == |multiset(rest)| == |n| - 1;
    forall k | 0 <= k < |rest| ensures rest[k] != "" {
      assert rest[k] in multiset(rest);
      assert rest[k] in n;
    }
  }

  /** Shuffling a list of non-empty names gives a rearrangement of it, again without an empty name. */
  lemma ShuffledNamed(s: seq<string>, pick: nat -> nat) returns (shuffled: seq<string>)
    requires forall k :: 0 <= k < |s| ==> s[k] != ""
    ensures shuffled == Shuffled(s, Draws(pick, |s|)) && ShuffleAndPair(s, pick) == Pairs(shuffled)
    ensures |shuffled| == |s| && multiset(shuffled) == multiset(s)
    ensures forall k :: 0 <= k < |shuffled| ==> shuffled[k] != ""
  {
    var js := Draws(pick, |s|);
    shuffled := Shuffled(s, js);
    ShuffledIsPermutation(s, js);
    forall k | 0 <= k < |shuffled| ensures shuffled[k] != "" {
      assert shuffled[k] in s;
    }
  }

  /** Shuffling and pairing a list of non-empty names of even length uses every name once. */
  lemma FullyPaired(s: seq<string>, pick: nat -> nat)
    requires |s| % 2 == 0 && forall k :: 0 <= k < |s| ==> s[k] != ""
    ensures |ShuffleAndPair(s, pick)| == |s| / 2
    ensures multiset(Flatten(ShuffleAndPair(s, pick))) == multiset(s)
  {
    var shuffled := ShuffledNamed(s, pick);
    PairsOfNamed(shuffled);
    assert |shuffled| - |shuffled| % 2 == |shuffled|;
    assert Flatten(Pairs(shuffled)) == shuffled by {
      assert shuffled[..|shuffled|] == shuffled;
    }
  }

  /**
   * The generator does not check the selector's answer. A selector that
   * names the first team as the bye but leaves it in the list to pair, with
   * the second team, makes that team both the bye and a player and leaves
   * the third team out of the round, whatever the shuffle does.
   */
  lemma UncheckedReplyBreaksPartition(teams: seq<string>, prev: Option<string>, selectBye: ByeSelector, pick: nat -> nat)
    requires ValidRoster(teams) && 3 <= |teams| && |teams| % 2 == 1
    requires selectBye(teams, ByeHint(prev)) == Assigned(teams[0], [teams[0], teams[1]])
    ensures var o := SettleByeAndPair(teams, prev, selectBye, pick);
      && o.error == None && o.bye == Some(teams[0])
      && teams[0] in Flatten(o.pairings)
      && teams[2] !in Flatten(o.pairings)
      && multiset(Flatten(o.pairings)) + ByeSlot(o.bye) != multiset(teams)
  {
    var rest := [teams[0], teams[1]];
    FullyPaired(rest, pick);
    var f := Flatten(ShuffleAndPair(rest, pick));
    assert multiset(f) == multiset{teams[0], teams[1]};
    assert teams[0] in multiset(f);
    assert teams[2] !in multiset(f) by {
      assert teams[2] != teams[0] && teams[2] != teams[1];
    }
    FirstOccursOnce(teams);
    assert (multiset(f) + multiset{teams[0]})[teams[0]] == 2;
  }

  lemma FirstOccursOnce(teams: seq<string>)
    requires 1 <= |teams| && Distinct(teams)
    ensures multiset(teams)[teams[0]] == 1
  {
    assert teams == [teams[0]] + teams[1..];
    assert teams[0] !in teams[1..];
  }

  /**
   * Every pairing can come out: with an even number of names, any ordering
   * of them is produced by some random source, so the shuffle reaches
   * every possible set of matches.
   */
  lemma EveryPairingReachable(teams: seq<string>, prev: Option<string>, selectBye: ByeSelector, t: seq<string>)
    requires ValidRoster(teams) && |teams| % 2 == 0
    requires multiset(t) == multiset(teams)
    ensures exists pick: nat -> nat :: Flatten(SettleByeAndPair(teams, prev, selectBye, pick).pairings) == t
  {
    var js := EveryArrangementReachable(teams, t);
    var pick: nat -> nat := (i: nat) => if i < |js| && js[i] >= 0 then js[i] else 0;
    DrawsCoverEveryChoice(js, |teams|);
    assert ShuffleAndPair(teams, pick) == Pairs(t);
    assert |t| == |teams| by { assert |multiset(t)| == |multiset(teams)|; }
    forall k | 0 <= k < |t| ensures t[k] != "" {
      assert t[k] in multiset(teams);
    }
    PairsOfNamed(t);
    assert t[..|t|] == t;
    assert Flatten(SettleByeAndPair(teams, prev, selectBye, pick).pairings) == t;
  }
}
