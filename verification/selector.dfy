/**
 * The MeowsSelector component's state and handlers: the roster form (a
 * list of `{id, name}` rows and the next id to hand out), the matches and
 * bye on display, the bye remembered from the previous round and the error
 * message. Each handler replaces the state the way its React setter calls
 * do.
 */
module Selector {
  import opened Options
  import opened TeamNames
  import opened Shuffle
  import opened Pairing
  import opened Round

  /** One row of the roster form. */
  datatype Team = Team(id: int, name: string)

  /** The names typed into the rows, in row order. */
  function Names(teams: seq<Team>): seq<string> {
    seq(|teams|, k requires 0 <= k < |teams| => teams[k].name)
  }

  /** No two rows share an id. */
  predicate DistinctIds(teams: seq<Team>) {
    forall i, j :: 0 <= i < j < |teams| ==> teams[i].id != teams[j].id
  }

  /** `teams.filter(team => team.id !== id)`: the rows whose id differs from `id`. */
  function WithoutId(teams: seq<Team>, id: int): (r: seq<Team>)
    ensures |r| <= |teams|
    ensures forall t :: t in r <==> t in teams && t.id != id
  {
    if teams == [] then []
    else (if teams[0].id == id then [] else [teams[0]]) + WithoutId(teams[1..], id)
  }

  /** `teams.map(team => team.id === id ? {...team, name: newName} : team)`. */
  function Renamed(teams: seq<Team>, id: int, newName: string): seq<Team> {
    seq(|teams|, k requires 0 <= k < |teams| =>
      if teams[k].id == id then Team(teams[k].id, newName) else teams[k])
  }

  /** Removal keeps the order of the remaining rows: it works row by row. */
  lemma {:induction false} WithoutIdInOrder(a: seq<Team>, b: seq<Team>, id: int)
    ensures WithoutId(a + b, id) == WithoutId(a, id) + WithoutId(b, id)
  {
    if a != [] {
      assert (a + b)[1..] == a[1..] + b;
      WithoutIdInOrder(a[1..], b, id);
    } else {
      assert a + b == b;
    }
  }

  lemma TailDistinctIds(teams: seq<Team>)
    requires teams != [] && DistinctIds(teams)
    ensures DistinctIds(teams[1..])
    ensures forall t :: t in teams[1..] ==> t.id != teams[0].id
  {
    var tail := teams[1..];
    forall i, j | 0 <= i < j < |tail| ensures tail[i].id != tail[j].id {
      assert tail[i] == teams[i + 1] && tail[j] == teams[j + 1];
    }
    forall t | t in tail ensures t.id != teams[0].id {
      var m :| 0 <= m < |tail| && tail[m] == t;
      assert teams[m + 1] == t;
    }
  }

  lemma ConsDistinctIds(t: Team, rest: seq<Team>)
    requires DistinctIds(rest) && forall u :: u in rest ==> u.id != t.id
    ensures DistinctIds([t] + rest)
  {
    var r := [t] + rest;
    forall i, j | 0 <= i < j < |r| ensures r[i].id != r[j].id {
      assert r[j] == rest[j - 1];
      if i > 0 {
        assert r[i] == rest[i - 1];
      }
    }
  }

  /** Removal never brings two rows with the same id together. */
  lemma {:induction false} WithoutIdKeepsDistinctIds(teams: seq<Team>, id: int)
    requires DistinctIds(teams)
    ensures DistinctIds(WithoutId(teams, id))
  {
    if teams != [] {
      TailDistinctIds(teams);
      WithoutIdKeepsDistinctIds(teams[1..], id);
      if teams[0].id != id {
        ConsDistinctIds(teams[0], WithoutId(teams[1..], id));
      }
    }
  }

  /** Removing an id no row carries changes nothing. */
  lemma {:induction false} WithoutAbsentId(teams: seq<Team>, id: int)
    requires forall k :: 0 <= k < |teams| ==> teams[k].id != id
    ensures WithoutId(teams, id) == teams
  {
    if teams != [] {
      WithoutAbsentId(teams[1..], id);
      assert teams == [teams[0]] + teams[1..];
    }
  }

  lemma WithoutPresentId(teams: seq<Team>, id: int, k: nat)
    requires DistinctIds(teams) && k < |teams| && teams[k].id == id
    ensures WithoutId(teams, id) == teams[..k] + teams[k + 1..]
  {
    var pre, post := teams[..k], teams[k + 1..];
    assert teams == pre + ([teams[k]] + post);
    assert forall m :: 0 <= m < |pre| ==> pre[m].id != id;
    assert forall m :: 0 <= m < |post| ==> post[m] == teams[k + 1 + m];
    WithoutAbsentId(pre, id);
    WithoutAbsentId(post, id);
    assert WithoutId([teams[k]], id) == [];
    WithoutIdInOrder([teams[k]], post, id);
    assert WithoutId([teams[k]] + post, id) == post;
    WithoutIdInOrder(pre, [teams[k]] + post, id);
  }

  /**
   * On rows with distinct ids, removal deletes the one row carrying `id`
   * when there is one and changes nothing otherwise; the ids stay distinct.
   */
  lemma RemoveOneRow(teams: seq<Team>, id: int)
    requires DistinctIds(teams)
    ensures DistinctIds(WithoutId(teams, id))
    ensures forall k :: 0 <= k < |teams| && teams[k].id == id ==>
      WithoutId(teams, id) == teams[..k] + teams[k + 1..]
    ensures (forall k :: 0 <= k < |teams| ==> teams[k].id != id) ==> WithoutId(teams, id) == teams
  {
    WithoutIdKeepsDistinctIds(teams, id);
    forall k | 0 <= k < |teams| && teams[k].id == id
      ensures WithoutId(teams, id) == teams[..k] + teams[k + 1..]
    {
      WithoutPresentId(teams, id, k);
    }
    if forall k :: 0 <= k < |teams| ==> teams[k].id != id {
      WithoutAbsentId(teams, id);
    }
  }

  /**
   * Renaming changes only the name of the rows carrying `id`: the order,
   * every id and every other row stay as they were, and on rows with
   * distinct ids at most one row changes.
   */
  lemma RenameOnlyThatRow(teams: seq<Team>, id: int, newName: string)
    ensures var r := Renamed(teams, id, newName);
      && |r| == |teams|
      && (forall k :: 0 <= k < |teams| ==> r[k].id == teams[k].id)
      && (forall k :: 0 <= k < |teams| && teams[k].id == id ==> r[k].name == newName)
      && (forall k :: 0 <= k < |teams| && teams[k].id != id ==> r[k] == teams[k])
    ensures DistinctIds(teams) ==>
      forall i, j :: 0 <= i < j < |teams| ==>
        Renamed(teams, id, newName)[i] == teams[i] || Renamed(teams, id, newName)[j] == teams[j]
  {
  }

  class MeowsSelector {
    var teams: seq<Team>
    var nextId: int
    var pairings: seq<Pairing>
    var byeTeam: Option<string>
    var previousByeTeam: Option<string>
    var error: Option<string>

    /** The roster is never empty, its ids are distinct and all below `nextId`. */
    ghost predicate Valid()
      reads this
    {
      && |teams| >= 1
      && DistinctIds(teams)
      && forall k :: 0 <= k < |teams| ==> 1 <= teams[k].id < nextId
    }

    /** The initial state: one empty row with id 1, nothing shown, no bye remembered. */
    constructor ()
      ensures Valid()
      ensures teams == [Team(1, "")] && nextId == 2
      ensures pairings == [] && byeTeam == None && previousByeTeam == None && error == None
    {
      teams := [Team(1, "")];
      nextId := 2;
      pairings := [];
      byeTeam := None;
      previousByeTeam := None;
      error := None;
    }

    /** `handleAddTeam`: append an empty row with a fresh id. */
    method AddTeam()
      requires Valid()
      modifies this`teams, this`nextId
      ensures Valid()
      ensures teams == old(teams) + [Team(old(nextId), "")]
      ensures nextId == old(nextId) + 1
    {
      var row := Team(nextId, "");
      assert 1 <= teams[0].id < row.id;
      assert forall k :: 0 <= k < |teams| ==> teams[k].id != row.id;
      teams := teams + [row];
      nextId := nextId + 1;
    }

    /** `handleRemoveTeam`: drop the row with `id`, unless it is the only row. */
    method RemoveTeam(id: int)
      requires Valid()
      modifies this`teams
      ensures Valid()
      ensures teams == if |old(teams)| > 1 then WithoutId(old(teams), id) else old(teams)
    {
      if |teams| > 1 {
        RemoveOneRow(teams, id);
        var rest := WithoutId(teams, id);
        assert forall k :: 0 <= k < |rest| ==> rest[k] in teams;
        teams := rest;
      }
    }

    /** `handleTeamNameChange`: give the row with `id` the name `newName`. */
    method TeamNameChange(id: int, newName: string)
      requires Valid()
      modifies this`teams
      ensures Valid()
      ensures teams == Renamed(old(teams), id, newName)
    {
      RenameOnlyThatRow(teams, id, newName);
      teams := Renamed(teams, id, newName);
    }

    /**
     * `handleGeneratePairings`: the matches, bye, remembered bye and error
     * it leaves are those of `Round.Generate` on the typed names (whose
     * error paths `Round.ErrorsExactly` describes).
     */
    method GeneratePairings(selectBye: ByeSelector, pick: nat -> nat)
      modifies this`pairings, this`byeTeam, this`previousByeTeam, this`error
      ensures Outcome(pairings, byeTeam, previousByeTeam, error)
           == Generate(Names(teams), old(previousByeTeam), selectBye, pick)
    {
      error := None;
      pairings := [];
      byeTeam := None;

      ghost var expected := Generate(Names(teams), previousByeTeam, selectBye, pick);
      var current := Normalize(Names(teams));
      if |current| < 2 {
        error := Some(TooFewTeams);
        assert expected == Outcome([], None, previousByeTeam, Some(TooFewTeams));
        return;
      }

      current := Dedup(current);
      if |current| != NonBlankCount(Names(teams)) {
        error := Some(DuplicateNames);
        assert expected == Outcome([], None, previousByeTeam, Some(DuplicateNames));
        return;
      }

      assert expected == SettleByeAndPair(current, previousByeTeam, selectBye, pick);
      PlayRound(current, selectBye, pick);
    }

    /**
     * The `try` block of `handleGeneratePairings`, entered with the
     * validated list: settle the bye, shuffle, pair.
     */
    method PlayRound(current: seq<string>, selectBye: ByeSelector, pick: nat -> nat)
      requires pairings == [] && byeTeam == None && error == None
      modifies this`pairings, this`byeTeam, this`previousByeTeam, this`error
      ensures Outcome(pairings, byeTeam, previousByeTeam, error)
           == SettleByeAndPair(current, old(previousByeTeam), selectBye, pick)
    {
      var working := current;
      if |working| % 2 != 0 {
        var reply := selectBye(working, ByeHint(previousByeTeam));
        if reply.Unavailable? {
          error := Some(ByeFailed);
          return;
        }
        byeTeam := Some(reply.byeTeam);
        previousByeTeam := Some(reply.byeTeam);
        working := reply.updatedTeams;
      } else {
        previousByeTeam := None;
      }

      var a := ToArray(working);
      ShuffleInPlace(a, Draws(pick, a.Length));
      pairings := PairUp(a);
    }
  }

  /** A fresh array holding the names of `s`, for the shuffle to work on in place. */
  method ToArray(s: seq<string>) returns (a: array<string>)
    ensures fresh(a) && a[..] == s
  {
    a := new string[|s|](k requires 0 <= k < |s| => s[k]);
  }
}
