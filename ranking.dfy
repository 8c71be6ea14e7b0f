/** `User.leaderboard`: correct submissions are grouped per user (count and latest timestamp),
    inner-joined with the eligible users, ordered by count descending then latest timestamp
    ascending, and cut to `limit` rows. `Position` is `leaderboard(limit).index(user) + 1`. */
module Ranking {
  import opened Wrappers
  import opened Records

  /** The default of `limit` in `leaderboard` and `leaderboard_position`. */
  const DefaultLimit: nat := 10

  /** One row of the grouped subquery: `COUNT(*) AS solved`, `MAX(created_at) AS latest_solution`. */
  datatype Aggregate = Aggregate(solved: nat, latestSolution: int)

  /** A user row extended with the two aggregate columns, as the joined query returns it. */
  datatype Entry = Entry(user: UserRow, solved: nat, latestSolution: int)

  function Max(a: int, b: int): int {
    if a < b then b else a
  }

  function Min(a: nat, b: nat): nat {
    if a < b then a else b
  }

  // ---------------------------------------------------------------------------
  // Aggregation

  /** Reference definition: the correct submissions of user `uid`, in order. */
  function CorrectBy(subs: seq<Submission>, uid: nat): (r: seq<Submission>)
    ensures forall x :: x in r <==> x in subs && x.correct && x.userId == uid
  {
    if subs == [] then []
    else
      var init, s := subs[..|subs| - 1], subs[|subs| - 1];
      assert subs == init + [s];
      var p := CorrectBy(init, uid);
      if s.correct && s.userId == uid then p + [s] else p
  }

  /** User `uid` has at least one correct submission. */
  predicate Solves(subs: seq<Submission>, uid: nat) {
    exists i :: 0 <= i < |subs| && subs[i].correct && subs[i].userId == uid
  }

  /** `t` is the largest `createdAt` in `xs` (and occurs in it). */
  ghost predicate IsLatest(xs: seq<Submission>, t: int) {
    && (exists i :: 0 <= i < |xs| && xs[i].createdAt == t)
    && (forall i :: 0 <= i < |xs| ==> xs[i].createdAt <= t)
  }

  /** The subquery `Submission.correct.select(...).group('user_id')`, computed in one pass:
      one group per user id that has a correct submission. */
  function Solutions(subs: seq<Submission>): (g: map<nat, Aggregate>)
    ensures forall uid :: uid in g <==> Solves(subs, uid)
  {
    if subs == [] then map[]
    else
      var init, s := subs[..|subs| - 1], subs[|subs| - 1];
      var g := Solutions(init);
      var r :=
        if !s.correct then g
        else if s.userId in g then
          g[s.userId := Aggregate(g[s.userId].solved + 1, Max(g[s.userId].latestSolution, s.createdAt))]
        else g[s.userId := Aggregate(1, s.createdAt)];
      assert forall uid :: Solves(subs, uid) <==> Solves(init, uid) || (s.correct && s.userId == uid) by {
        forall uid | Solves(init, uid) ensures Solves(subs, uid) {
          var i :| 0 <= i < |init| && init[i].correct && init[i].userId == uid;
          assert subs[i] == init[i];
        }
        forall uid | s.correct && s.userId == uid ensures Solves(subs, uid) {
          assert subs[|subs| - 1] == s;
        }
        forall uid | Solves(subs, uid) && !(s.correct && s.userId == uid) ensures Solves(init, uid) {
          var i :| 0 <= i < |subs| && subs[i].correct && subs[i].userId == uid;
          assert i < |init| && init[i] == subs[i];
        }
      }
      r
  }

  lemma LatestOfOne(s: Submission)
    ensures IsLatest([s], s.createdAt)
  {
    assert [s][0].createdAt == s.createdAt;
  }

  lemma LatestExtend(xs: seq<Submission>, t: int, s: Submission)
    requires IsLatest(xs, t)
    ensures IsLatest(xs + [s], Max(t, s.createdAt))
  {
    var ys := xs + [s];
    var i :| 0 <= i < |xs| && xs[i].createdAt == t;
    if t < s.createdAt {
      assert ys[|xs|].createdAt == s.createdAt;
    } else {
      assert ys[i].createdAt == t;
    }
    forall k | 0 <= k < |ys| ensures ys[k].createdAt <= Max(t, s.createdAt) {
      if k < |xs| { assert ys[k] == xs[k]; }
    }
  }

  /** Each group of `Solutions` holds the number of the user's correct submissions and the
      latest timestamp among them, and there is a group exactly for the users with one. */
  lemma {:induction false} SolutionsAggregate(subs: seq<Submission>, uid: nat)
    ensures uid in Solutions(subs) <==> |CorrectBy(subs, uid)| > 0
    ensures uid in Solutions(subs) ==>
      && Solutions(subs)[uid].solved == |CorrectBy(subs, uid)|
      && IsLatest(CorrectBy(subs, uid), Solutions(subs)[uid].latestSolution)
  {
    if subs != [] {
      var init, s := subs[..|subs| - 1], subs[|subs| - 1];
      SolutionsAggregate(init, uid);
      var g, c := Solutions(init), CorrectBy(init, uid);
      if s.correct && s.userId == uid {
        assert CorrectBy(subs, uid) == c + [s];
        if uid in g {
          LatestExtend(c, g[uid].latestSolution, s);
        } else {
          assert c == [];
          LatestOfOne(s);
        }
      }
    }
  }

  // ---------------------------------------------------------------------------
  // Join and eligibility

  function JoinRow(u: UserRow, a: Aggregate): Entry {
    Entry(u, a.solved, a.latestSolution)
  }

  /** `INNER JOIN (...) q1 on q1.user_id = users.id`: a user row with a group gets one entry,
      one without a group is dropped. */
  function Join(users: seq<UserRow>, g: map<nat, Aggregate>): (r: seq<Entry>)
    ensures |r| <= |users|
    ensures forall e :: e in r <==> e.user in users && e.user.id in g && e == JoinRow(e.user, g[e.user.id])
  {
    if users == [] then []
    else
      var u := users[0];
      (if u.id in g then [JoinRow(u, g[u.id])] else []) + Join(users[1..], g)
  }

  lemma {:induction false} JoinUnique(users: seq<UserRow>, g: map<nat, Aggregate>)
    requires UniqueIds(users)
    ensures UniqueEntries(Join(users, g))
  {
    if users != [] {
      var rest := Join(users[1..], g);
      JoinUnique(users[1..], g);
      forall e | e in rest
        ensures e.user.id != users[0].id
      {
        var j :| 0 <= j < |users[1..]| && users[1..][j] == e.user;
        assert users[j + 1] == e.user;
      }
    }
  }

  /** The rows the ranking orders: eligible users joined with their groups. Filtering the user
      rows before the join is the same as filtering the joined rows, since the condition
      only reads user columns. */
  function Candidates(users: seq<UserRow>, subs: seq<Submission>): seq<Entry> {
    Join(EligibleForDisplay(users), Solutions(subs))
  }

  /** Every candidate is an eligible user row with a correct submission, carrying that user's
      count and latest timestamp; every such user row is a candidate. */
  lemma CandidatesExactly(users: seq<UserRow>, subs: seq<Submission>)
    ensures forall e :: e in Candidates(users, subs) ==>
      && e.user in users && Eligible(e.user)
      && e.solved == |CorrectBy(subs, e.user.id)| && e.solved >= 1
      && IsLatest(CorrectBy(subs, e.user.id), e.latestSolution)
    ensures forall u :: u in users && Eligible(u) && Solves(subs, u.id) ==>
      exists e :: e in Candidates(users, subs) && e.user == u
  {
    var g := Solutions(subs);
    forall e | e in Candidates(users, subs)
      ensures e.solved == |CorrectBy(subs, e.user.id)| && e.solved >= 1
      ensures IsLatest(CorrectBy(subs, e.user.id), e.latestSolution)
    {
      SolutionsAggregate(subs, e.user.id);
    }
    forall u | u in users && Eligible(u) && Solves(subs, u.id)
      ensures exists e :: e in Candidates(users, subs) && e.user == u
    {
      assert JoinRow(u, g[u.id]) in Candidates(users, subs);
    }
  }

  // ---------------------------------------------------------------------------
  // Ordering

  /** `order("solved DESC", "latest_solution")`: `a` may stand before `b`. */
  predicate RanksBefore(a: Entry, b: Entry) {
    a.solved > b.solved || (a.solved == b.solved && a.latestSolution <= b.latestSolution)
  }

  /** `a` must stand before `b`: it solved more, or as many with an earlier latest solution. */
  predicate StrictlyBetter(a: Entry, b: Entry) {
    a.solved > b.solved || (a.solved == b.solved && a.latestSolution < b.latestSolution)
  }

  predicate Sorted(s: seq<Entry>) {
    forall i, j :: 0 <= i < j < |s| ==> RanksBefore(s[i], s[j])
  }

  /** `s` is one of the orders the database may return for `cands`: sorted, and a permutation.
      Rows that tie on both keys may come in any order. */
  ghost predicate IsRanking(cands: seq<Entry>, s: seq<Entry>) {
    Sorted(s) && multiset(s) == multiset(cands)
  }

  function Insert(e: Entry, s: seq<Entry>): (r: seq<Entry>)
    requires Sorted(s)
    ensures Sorted(r)
    ensures multiset(r) == multiset(s) + multiset{e}
  {
    if s == [] then [e]
    else if RanksBefore(e, s[0]) then
      SortedCons(e, s);
      [e] + s
    else
      var t := Insert(e, s[1..]);
      assert s == [s[0]] + s[1..];
      forall k | 0 <= k < |t| ensures RanksBefore(s[0], t[k]) {
        assert t[k] in multiset(t);
        if t[k] != e {
          assert t[k] in multiset(s[1..]);
          var j :| 0 <= j < |s[1..]| && s[1..][j] == t[k];
          assert s[j + 1] == t[k];
        }
      }
      SortedCons(s[0], t);
      [s[0]] + t
  }

  lemma SortedCons(x: Entry, t: seq<Entry>)
    requires Sorted(t)
    requires forall k :: 0 <= k < |t| ==> RanksBefore(x, t[k])
    ensures Sorted([x] + t)
  {
    var r := [x] + t;
    forall i, j | 0 <= i < j < |r| ensures RanksBefore(r[i], r[j]) {
      if i > 0 { assert r[i] == t[i - 1]; }
      assert r[j] == t[j - 1];
    }
  }

  /** One admissible order: a stable insertion sort. */
  function Rank(es: seq<Entry>): (r: seq<Entry>)
    ensures IsRanking(es, r)
  {
    if es == [] then []
    else
      assert es == [es[0]] + es[1..];
      Insert(es[0], Rank(es[1..]))
  }

  // ---------------------------------------------------------------------------
  // The leaderboard

  /** `r` is a result `leaderboard(limit)` may return: the first `limit` rows of some admissible
      order of the candidates. The WHERE of `eligible_for_display` is applied before LIMIT. */
  ghost predicate IsLeaderboard(users: seq<UserRow>, subs: seq<Submission>, limit: nat, r: seq<Entry>) {
    exists s :: IsRanking(Candidates(users, subs), s) && r == s[..Min(limit, |s|)]
  }

  /** `User.leaderboard(limit)`, with the ties resolved by `Rank`. */
  function Leaderboard(users: seq<UserRow>, subs: seq<Submission>, limit: nat := DefaultLimit): (r: seq<Entry>)
    ensures IsLeaderboard(users, subs, limit, r)
  {
    var s := Rank(Candidates(users, subs));
    assert IsRanking(Candidates(users, subs), s);
    s[..Min(limit, |s|)]
  }

  /** Every returned row is an eligible user with at least one correct submission, whose
      `solved` is the number and whose `latestSolution` the latest timestamp of them. */
  lemma LeaderboardAggregates(users: seq<UserRow>, subs: seq<Submission>, limit: nat, r: seq<Entry>)
    requires IsLeaderboard(users, subs, limit, r)
    ensures forall k :: 0 <= k < |r| ==>
      && r[k].user in users
      && Eligible(r[k].user)
      && r[k].solved == |CorrectBy(subs, r[k].user.id)| && r[k].solved >= 1
      && IsLatest(CorrectBy(subs, r[k].user.id), r[k].latestSolution)
  {
    var s :| IsRanking(Candidates(users, subs), s) && r == s[..Min(limit, |s|)];
    CandidatesExactly(users, subs);
    forall k | 0 <= k < |r| ensures r[k] in Candidates(users, subs) {
      assert r[k] == s[k] && s[k] in multiset(s);
    }
  }

  /** Consecutive rows are ordered by `solved` descending, then `latestSolution` ascending. */
  lemma LeaderboardOrdered(users: seq<UserRow>, subs: seq<Submission>, limit: nat, r: seq<Entry>)
    requires IsLeaderboard(users, subs, limit, r)
    ensures forall k :: 0 <= k < |r| - 1 ==>
      r[k].solved > r[k + 1].solved
      || (r[k].solved == r[k + 1].solved && r[k].latestSolution <= r[k + 1].latestSolution)
  {
    var s :| IsRanking(Candidates(users, subs), s) && r == s[..Min(limit, |s|)];
    forall k | 0 <= k < |r| - 1 ensures RanksBefore(r[k], r[k + 1]) {
      assert r[k] == s[k] && r[k + 1] == s[k + 1];
    }
  }

  /** A row with more solutions, or as many solved earlier, always stands higher. */
  lemma LeaderboardStrictlyBetterFirst(users: seq<UserRow>, subs: seq<Submission>, limit: nat, r: seq<Entry>)
    requires IsLeaderboard(users, subs, limit, r)
    ensures forall i, j :: 0 <= i < |r| && 0 <= j < |r| && StrictlyBetter(r[i], r[j]) ==> i < j
  {
    var s :| IsRanking(Candidates(users, subs), s) && r == s[..Min(limit, |s|)];
    assert Sorted(r) by {
      forall i, j | 0 <= i < j < |r| ensures RanksBefore(r[i], r[j]) {
        assert r[i] == s[i] && r[j] == s[j];
      }
    }
    forall i, j | 0 <= j <= i < |r| ensures !StrictlyBetter(r[i], r[j]) {
      NotStrictlyBetterThanEarlier(r, i, j);
    }
  }

  /** In a sorted sequence no row is strictly better than one at or before it. */
  lemma NotStrictlyBetterThanEarlier(s: seq<Entry>, i: nat, j: nat)
    requires Sorted(s) && j <= i < |s|
    ensures !StrictlyBetter(s[i], s[j])
  {
    if j < i {
      assert RanksBefore(s[j], s[i]);
    }
  }

  /** A candidate left out by the limit ranks no better than any row that was kept. */
  lemma LeaderboardKeepsTheBest(users: seq<UserRow>, subs: seq<Submission>, limit: nat, r: seq<Entry>)
    requires IsLeaderboard(users, subs, limit, r)
    ensures forall e, x :: e in Candidates(users, subs) && e !in r && x in r ==> RanksBefore(x, e)
  {
    var s :| IsRanking(Candidates(users, subs), s) && r == s[..Min(limit, |s|)];
    forall e, x | e in Candidates(users, subs) && e !in r && x in r
      ensures RanksBefore(x, e)
    {
      assert e in multiset(s);
      var j :| 0 <= j < |s| && s[j] == e;
      var i :| 0 <= i < |r| && r[i] == x;
      assert s[i] == x;
    }
  }

  /** The result has `min(limit, number of candidates)` rows. */
  lemma LeaderboardLength(users: seq<UserRow>, subs: seq<Submission>, limit: nat, r: seq<Entry>)
    requires IsLeaderboard(users, subs, limit, r)
    ensures |r| == Min(limit, |Candidates(users, subs)|)
  {
    var s :| IsRanking(Candidates(users, subs), s) && r == s[..Min(limit, |s|)];
    assert |s| == |multiset(s)| == |Candidates(users, subs)|;
  }

  /** With a limit at least the number of candidates, every candidate is returned. */
  lemma LeaderboardComplete(users: seq<UserRow>, subs: seq<Submission>, limit: nat, r: seq<Entry>)
    requires IsLeaderboard(users, subs, limit, r)
    requires limit >= |Candidates(users, subs)|
    ensures multiset(r) == multiset(Candidates(users, subs))
  {
    var s :| IsRanking(Candidates(users, subs), s) && r == s[..Min(limit, |s|)];
    assert |s| == |multiset(s)| == |Candidates(users, subs)|;
    assert r == s;
  }

  // ---------------------------------------------------------------------------
  // Uniqueness and counting

  predicate UniqueEntries(es: seq<Entry>) {
    forall i, j :: 0 <= i < j < |es| ==> es[i].user.id != es[j].user.id
  }

  /** The ids of the eligible users that have a correct submission. */
  ghost function EligibleSolvers(users: seq<UserRow>, subs: seq<Submission>): set<nat> {
    set u | u in users && Eligible(u) && Solves(subs, u.id) :: u.id
  }

  /** The user ids occurring in `es`. */
  function Ids(es: seq<Entry>): (r: set<nat>)
    ensures forall e :: e in es ==> e.user.id in r
    ensures forall x :: x in r ==> exists k :: 0 <= k < |es| && es[k].user.id == x
  {
    if es == [] then {}
    else
      assert forall k :: 1 <= k < |es| ==> es[k] == es[1..][k - 1];
      {es[0].user.id} + Ids(es[1..])
  }

  lemma {:induction false} IdsCard(es: seq<Entry>)
    requires UniqueEntries(es)
    ensures |Ids(es)| == |es|
  {
    if es != [] {
      var rest := es[1..];
      IdsCard(rest);
      assert es[0].user.id !in Ids(rest) by {
        forall k | 0 <= k < |rest| ensures rest[k].user.id != es[0].user.id {
          assert rest[k] == es[k + 1];
        }
      }
    }
  }

  lemma CandidatesUnique(users: seq<UserRow>, subs: seq<Submission>)
    requires UniqueIds(users)
    ensures UniqueEntries(Candidates(users, subs))
    ensures |Candidates(users, subs)| == |EligibleSolvers(users, subs)|
  {
    EligibleForDisplayUnique(users);
    JoinUnique(EligibleForDisplay(users), Solutions(subs));
    IdsCard(Candidates(users, subs));
    CandidatesExactly(users, subs);
    assert Ids(Candidates(users, subs)) == EligibleSolvers(users, subs) by {
      forall x | x in EligibleSolvers(users, subs) ensures x in Ids(Candidates(users, subs)) {
        var u :| u in users && Eligible(u) && Solves(subs, u.id) && u.id == x;
        var e :| e in Candidates(users, subs) && e.user == u;
      }
    }
  }

  /** Each user appears at most once, and there are exactly `min(limit, #eligible solvers)` rows. */
  lemma LeaderboardUnique(users: seq<UserRow>, subs: seq<Submission>, limit: nat, r: seq<Entry>)
    requires UniqueIds(users)
    requires IsLeaderboard(users, subs, limit, r)
    ensures UniqueEntries(r)
    ensures |r| == Min(limit, |EligibleSolvers(users, subs)|)
  {
    var c := Candidates(users, subs);
    var s :| IsRanking(c, s) && r == s[..Min(limit, |s|)];
    CandidatesUnique(users, subs);
    LeaderboardLength(users, subs, limit, r);
    forall i, j | 0 <= i < j < |r| ensures r[i].user.id != r[j].user.id {
      MultisetUnique(c, s, i, j);
    }
  }

  /** Two positions of a permutation of a sequence with distinct ids hold distinct ids. */
  lemma MultisetUnique(c: seq<Entry>, s: seq<Entry>, i: nat, j: nat)
    requires UniqueEntries(c) && multiset(s) == multiset(c)
    requires i < j < |s|
    ensures s[i].user.id != s[j].user.id
  {
    if s[i].user.id == s[j].user.id {
      assert s[i] in multiset(c) && s[j] in multiset(c);
      var a :| 0 <= a < |c| && c[a] == s[i];
      var b :| 0 <= b < |c| && c[b] == s[j];
      if a == b {
        // The same row twice in s, but only once in c.
        assert s[i] == s[j];
        assert multiset(c)[c[a]] == 1 by { OnceInUnique(c, a); }
        assert multiset(s)[s[i]] >= 2 by { TwoOccurrences(s, i, j); }
        assert false;
      } else if a < b {
        assert false;
      } else {
        assert false;
      }
    }
  }

  lemma {:induction false} OnceInUnique(c: seq<Entry>, a: nat)
    requires UniqueEntries(c) && a < |c|
    ensures multiset(c)[c[a]] == 1
  {
    if a == 0 {
      assert c == [c[0]] + c[1..];
      forall k | 0 <= k < |c[1..]| ensures c[1..][k] != c[0] {
        assert c[k + 1].user.id != c[0].user.id;
      }
      assert c[0] !in c[1..];
    } else {
      assert c == [c[0]] + c[1..];
      assert c[1..][a - 1] == c[a];
      OnceInUnique(c[1..], a - 1);
      assert c[0] != c[a] by { assert c[0].user.id != c[a].user.id; }
    }
  }

  lemma {:induction false} TwoOccurrences(s: seq<Entry>, i: nat, j: nat)
    requires i < j < |s| && s[i] == s[j]
    ensures multiset(s)[s[i]] >= 2
  {
    var x := s[i];
    assert s == s[..j] + [s[j]] + s[j + 1..];
    assert s[..j][i] == x;
    assert x in multiset(s[..j]);
    assert multiset(s) == multiset(s[..j]) + multiset{x} + multiset(s[j + 1..]);
  }

  // ---------------------------------------------------------------------------
  // Position

  /** `board.index(user)` plus one: the first 1-based position of a row of user `uid`, or None. */
  function Position(board: seq<Entry>, uid: nat): (r: Option<nat>)
    ensures r.None? <==> forall k :: 0 <= k < |board| ==> board[k].user.id != uid
    ensures r.Some? ==>
      && 1 <= r.value <= |board|
      && board[r.value - 1].user.id == uid
      && forall k :: 0 <= k < r.value - 1 ==> board[k].user.id != uid
  {
    if board == [] then None
    else if board[0].user.id == uid then Some(1)
    else
      var p := Position(board[1..], uid);
      assert forall k :: 1 <= k < |board| ==> board[k] == board[1..][k - 1];
      match p
      case None => None
      case Some(k) => Some(k + 1)
  }

  /** On a board without repeated users, the position is `k + 1` exactly for the row `k` of the user. */
  lemma PositionIndex(board: seq<Entry>, uid: nat, k: nat)
    requires UniqueEntries(board) && k < |board|
    ensures Position(board, uid) == Some(k + 1) <==> board[k].user.id == uid
  {
    if board[k].user.id == uid {
      assert Position(board, uid).Some?;
    }
  }

  /** Any position returned for a leaderboard lies in `1..limit`. */
  lemma LeaderboardPositionBound(users: seq<UserRow>, subs: seq<Submission>, limit: nat, r: seq<Entry>, uid: nat)
    requires IsLeaderboard(users, subs, limit, r)
    ensures Position(r, uid).Some? ==> 1 <= Position(r, uid).value <= limit
  {
    LeaderboardLength(users, subs, limit, r);
  }

  /** An ineligible user, or one without a correct submission, has no position. */
  lemma LeaderboardPositionAbsent(users: seq<UserRow>, subs: seq<Submission>, limit: nat, r: seq<Entry>, u: UserRow)
    requires UniqueIds(users) && u in users
    requires IsLeaderboard(users, subs, limit, r)
    requires !Eligible(u) || !Solves(subs, u.id)
    ensures Position(r, u.id).None?
  {
    LeaderboardAggregates(users, subs, limit, r);
    forall k | 0 <= k < |r| ensures r[k].user.id != u.id {
      if r[k].user.id == u.id {
        var a :| 0 <= a < |users| && users[a] == u;
        var b :| 0 <= b < |users| && users[b] == r[k].user;
        assert a == b;
        SolutionsAggregate(subs, u.id);
      }
    }
  }
}
