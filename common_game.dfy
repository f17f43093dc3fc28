/**
 * The common package's game leaderboard (game.go): the players of a
 * game's points table, highest score first, cut to the top three.
 */
module CommonGame {
  import MapEnum
  import Sorting

  datatype Player = Player(username: string, score: int)

  /** How many players the leaderboard shows at most. */
  const LeaderboardSize: nat := 3

  /** The usernames a list of players shows. */
  function Usernames(lb: seq<Player>): set<string>
  {
    set i | 0 <= i < |lb| :: lb[i].username
  }

  /** Every entry is a username of `points` with that username's score. */
  ghost predicate FromPoints(lb: seq<Player>, points: map<string, int>)
  {
    forall i :: 0 <= i < |lb| ==> lb[i].username in points && points[lb[i].username] == lb[i].score
  }

  /** No username is listed twice. */
  ghost predicate DistinctUsernames(lb: seq<Player>)
  {
    forall i, j :: 0 <= i < j < |lb| ==> lb[i].username != lb[j].username
  }

  /** Highest score first. */
  ghost predicate ScoreDescending(lb: seq<Player>)
  {
    forall i, j :: 0 <= i < j < |lb| ==> lb[i].score >= lb[j].score
  }

  /** The first `LeaderboardSize` entries, or all of them when there are fewer. */
  function Top(s: seq<Player>): (r: seq<Player>)
    ensures |r| == if |s| > LeaderboardSize then LeaderboardSize else |s|
    ensures r == s[..|r|]
  {
    if |s| > LeaderboardSize then s[..LeaderboardSize] else s
  }

  /** The rank `sort.Slice` orders by: a higher score comes first. */
  function ByScoreDescending(p: Player): int
  {
    -p.score
  }

  /** The entries the collecting loop builds: one per username, in visiting order. */
  ghost predicate CollectedFrom(collected: seq<Player>, names: seq<string>, points: map<string, int>)
  {
    && MapEnum.Enumerates(names, points.Keys)
    && |collected| == |names| == |points|
    && forall i :: 0 <= i < |collected| ==> names[i] in points && collected[i] == Player(names[i], points[names[i]])
  }

  /**
   * `Game.GetLeaderboard`: at most three players, all from the points
   * table with their scores, each username once, highest score first, and
   * no player left out scores more than the last one shown.
   */
  method GetLeaderboard(points: map<string, int>) returns (lb: seq<Player>)
    ensures |lb| == if |points| > LeaderboardSize then LeaderboardSize else |points|
    ensures FromPoints(lb, points)
    ensures DistinctUsernames(lb)
    ensures ScoreDescending(lb)
    ensures forall u :: u in points && u !in Usernames(lb) ==> |lb| > 0 && points[u] <= lb[|lb| - 1].score
  {
    var names := MapEnum.Keys(points);
    var collected := CollectPlayers(points, names);
    var sorted := SortByScore(collected);
    lb := Top(sorted);
    LeaderboardOfSorted(collected, names, points, sorted);
  }

  /** The loop of `GetLeaderboard`: one player per username, in visiting order. */
  method CollectPlayers(points: map<string, int>, names: seq<string>) returns (collected: seq<Player>)
    requires MapEnum.Enumerates(names, points.Keys) && |names| == |points|
    ensures CollectedFrom(collected, names, points)
  {
    collected := [];
    var i := 0;
    while i < |names|
      invariant 0 <= i <= |names|
      invariant |collected| == i
      invariant forall j :: 0 <= j < i ==> names[j] in points && collected[j] == Player(names[j], points[names[j]])
    {
      assert names[i] in points.Keys;
      collected := collected + [Player(names[i], points[names[i]])];
      i := i + 1;
    }
  }

  /** `sort.Slice` by descending score: the same players, highest score first. */
  method SortByScore(s: seq<Player>) returns (r: seq<Player>)
    ensures multiset(r) == multiset(s)
    ensures Sorting.SortedBy(r, ByScoreDescending)
  {
    var a := new Player[|s|](j requires 0 <= j < |s| => s[j]);
    assert a[..] == s;
    Sorting.SortBy(a, ByScoreDescending);
    r := a[..];
  }

  /** The top three of the sorted entries have every property `GetLeaderboard` promises. */
  lemma LeaderboardOfSorted(collected: seq<Player>, names: seq<string>, points: map<string, int>, sorted: seq<Player>)
    requires CollectedFrom(collected, names, points)
    requires multiset(sorted) == multiset(collected)
    requires Sorting.SortedBy(sorted, ByScoreDescending)
    ensures var lb := Top(sorted);
      && |lb| == (if |points| > LeaderboardSize then LeaderboardSize else |points|)
      && FromPoints(lb, points)
      && DistinctUsernames(lb)
      && ScoreDescending(lb)
      && forall u :: u in points && u !in Usernames(lb) ==> |lb| > 0 && points[u] <= lb[|lb| - 1].score
  {
    SortedLeaderboard(collected, names, points, sorted);
    TopKeepsOrder(sorted, points);
  }

  /** Each collected entry occurs once: the usernames are visited once each. */
  lemma CollectedDistinct(collected: seq<Player>, names: seq<string>, points: map<string, int>)
    requires CollectedFrom(collected, names, points)
    ensures forall i, j :: 0 <= i < j < |collected| ==> collected[i] != collected[j]
  {
    forall i, j | 0 <= i < j < |collected|
      ensures collected[i] != collected[j]
    {
      assert names[i] != names[j];
    }
  }

  /**
   * Sorting the collected entries keeps them entries of the table, each
   * username once, puts them highest score first, and places every
   * username of the table somewhere.
   */
  lemma SortedLeaderboard(collected: seq<Player>, names: seq<string>, points: map<string, int>, sorted: seq<Player>)
    requires CollectedFrom(collected, names, points)
    requires multiset(sorted) == multiset(collected)
    requires Sorting.SortedBy(sorted, ByScoreDescending)
    ensures |sorted| == |points|
    ensures FromPoints(sorted, points)
    ensures DistinctUsernames(sorted)
    ensures ScoreDescending(sorted)
    ensures forall u :: u in points ==> u in Usernames(sorted)
  {
    assert |sorted| == |multiset(sorted)| == |multiset(collected)| == |collected|;
    forall i | 0 <= i < |sorted|
      ensures sorted[i].username in points && points[sorted[i].username] == sorted[i].score
    {
      assert sorted[i] in multiset(sorted);
      var j :| 0 <= j < |collected| && collected[j] == sorted[i];
    }
    CollectedDistinct(collected, names, points);
    forall i, j | 0 <= i < j < |sorted|
      ensures sorted[i].username != sorted[j].username
    {
      if sorted[i].username == sorted[j].username {
        assert sorted[i] == sorted[j];
        MapEnum.RepeatedOccursTwice(sorted, i, j);
        MapEnum.DistinctOccursOnce(collected, sorted[i]);
        assert false;
      }
    }
    forall i, j | 0 <= i < j < |sorted|
      ensures sorted[i].score >= sorted[j].score
    {
      assert ByScoreDescending(sorted[i]) <= ByScoreDescending(sorted[j]);
    }
    forall u | u in points
      ensures u in Usernames(sorted)
    {
      var j :| 0 <= j < |names| && names[j] == u;
      assert collected[j] in multiset(sorted);
      var p :| 0 <= p < |sorted| && sorted[p] == collected[j];
    }
  }

  /**
   * Cutting a sorted table to the top three keeps its properties, and no
   * username cut scores more than the last one shown.
   */
  lemma TopKeepsOrder(sorted: seq<Player>, points: map<string, int>)
    requires FromPoints(sorted, points) && DistinctUsernames(sorted) && ScoreDescending(sorted)
    requires forall u :: u in points ==> u in Usernames(sorted)
    ensures FromPoints(Top(sorted), points)
    ensures DistinctUsernames(Top(sorted)) && ScoreDescending(Top(sorted))
    ensures forall u :: u in points && u !in Usernames(Top(sorted)) ==>
              |Top(sorted)| > 0 && points[u] <= Top(sorted)[|Top(sorted)| - 1].score
  {
    var lb := Top(sorted);
    forall u | u in points && u !in Usernames(lb)
      ensures |lb| > 0 && points[u] <= lb[|lb| - 1].score
    {
      var p :| 0 <= p < |sorted| && sorted[p].username == u;
    }
  }
}
