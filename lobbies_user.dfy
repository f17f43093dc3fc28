/**
 * The lobbies package's `User` and the `ByScore` ordering the show-answer
 * handler sorts its leaderboard with (`sort.Sort(sort.Reverse(ByScore(..)))`).
 */
module LobbiesUser {
  import opened Wrappers
  import Sorting

  type ClientId = string

  /** A connected user; the websocket connection is left out. */
  datatype User = User(
    clientId: ClientId,
    username: string,
    submittedAnswerIdx: int,
    answerSubmissionTime: Option<int>,
    score: int,
    newPoints: int)

  /** `ByScore.Len`: the number of users in the slice. */
  function Len(a: array<User>): (n: int)
    ensures n == a.Length && n >= 0
  {
    a.Length
  }

  /** `ByScore.Less`: strictly lower score. */
  function Less(a: array<User>, i: int, j: int): (b: bool)
    reads a
    requires 0 <= i < a.Length && 0 <= j < a.Length
    ensures b <==> a[i].score < a[j].score
  {
    a[i].score < a[j].score
  }

  /** The sequence `s` with the elements at `i` and `j` exchanged. */
  function Swapped(s: seq<User>, i: int, j: int): (r: seq<User>)
    requires 0 <= i < |s| && 0 <= j < |s|
    ensures |r| == |s| && r[i] == s[j] && r[j] == s[i]
    ensures forall k :: 0 <= k < |s| && k != i && k != j ==> r[k] == s[k]
  {
    s[i := s[j]][j := s[i]]
  }

  /** Exchanging the same two positions twice restores the sequence. */
  lemma SwappedTwice(s: seq<User>, i: int, j: int)
    requires 0 <= i < |s| && 0 <= j < |s|
    ensures Swapped(Swapped(s, i, j), i, j) == s
  {
    var r := Swapped(Swapped(s, i, j), i, j);
    assert forall k :: 0 <= k < |s| ==> r[k] == s[k];
  }

  /** An exchange keeps the same users. */
  lemma SwappedPermutes(s: seq<User>, i: int, j: int)
    requires 0 <= i < |s| && 0 <= j < |s|
    ensures multiset(Swapped(s, i, j)) == multiset(s)
  {
    if i != j {
      calc {
        multiset(Swapped(s, i, j));
        multiset(s[i := s[j]][j := s[i]]);
        multiset(s[i := s[j]]) - multiset{s[i := s[j]][j]} + multiset{s[i]};
        multiset(s) - multiset{s[i]} + multiset{s[j]} - multiset{s[j]} + multiset{s[i]};
        multiset(s);
      }
    }
  }

  /** `ByScore.Swap`: exchanges positions `i` and `j` in place, nothing else. */
  method Swap(a: array<User>, i: int, j: int)
    requires 0 <= i < a.Length && 0 <= j < a.Length
    modifies a
    ensures a[..] == Swapped(old(a[..]), i, j)
  {
    a[i], a[j] := a[j], a[i];
  }

  /** Non-increasing score: what `sort.Reverse(ByScore)` orders by. */
  ghost predicate ByScoreDescending(s: seq<User>)
  {
    forall i, j :: 0 <= i < j < |s| ==> s[i].score >= s[j].score
  }

  /** `sort.Sort(sort.Reverse(ByScore(a)))`: the same users, highest score first. */
  method SortByScoreDescending(a: array<User>)
    modifies a
    ensures ByScoreDescending(a[..])
    ensures multiset(a[..]) == multiset(old(a[..]))
  {
    Sorting.SortBy(a, (u: User) => -u.score);
  }

  /** After `sort.Reverse(ByScore)` no user is `Less` than a user placed after it. */
  lemma DescendingHasNoInversion(a: array<User>, i: int, j: int)
    requires ByScoreDescending(a[..])
    requires 0 <= i < j < a.Length
    ensures !Less(a, i, j)
  {
    assert a[..][i] == a[i] && a[..][j] == a[j];
  }
}
