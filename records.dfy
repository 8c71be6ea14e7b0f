/** The persisted rows the user model reads: users, submissions and puzzles. */
module Records {
  import opened Wrappers

  /** One row of the `users` table. `name`, `nickname` and `email` are nullable columns. */
  datatype UserRow = UserRow(
    id: nat,
    name: Option<string>,
    nickname: Option<string>,
    email: Option<string>,
    admin: bool,
    draftAccess: bool)

  /** One row of the `submissions` table; `createdAt` is a timestamp. */
  datatype Submission = Submission(userId: nat, puzzleId: nat, correct: bool, createdAt: int)

  datatype Puzzle = Puzzle(id: nat)

  /** The condition of the `eligible_for_display` scope. */
  predicate Eligible(u: UserRow) {
    !u.admin && !u.draftAccess
  }

  /** `users.id` is the table's primary key. */
  predicate UniqueIds(users: seq<UserRow>) {
    forall i, j :: 0 <= i < j < |users| ==> users[i].id != users[j].id
  }

  /** The scope `eligible_for_display`: the rows with neither flag set, in table order. */
  function EligibleForDisplay(users: seq<UserRow>): (r: seq<UserRow>)
    ensures |r| <= |users|
    ensures forall u :: u in r <==> u in users && Eligible(u)
  {
    if users == [] then []
    else (if Eligible(users[0]) then [users[0]] else []) + EligibleForDisplay(users[1..])
  }

  lemma {:induction false} EligibleForDisplayUnique(users: seq<UserRow>)
    requires UniqueIds(users)
    ensures UniqueIds(EligibleForDisplay(users))
  {
    if users != [] {
      var rest := EligibleForDisplay(users[1..]);
      EligibleForDisplayUnique(users[1..]);
      forall u | u in rest
        ensures u.id != users[0].id
      {
        var j :| 0 <= j < |users[1..]| && users[1..][j] == u;
        assert users[j + 1] == u;
      }
    }
  }

  /** A submission that answers `puzzleId` correctly and belongs to `userId`. */
  predicate IsSolution(s: Submission, userId: nat, puzzleId: nat) {
    s.userId == userId && s.puzzleId == puzzleId && s.correct
  }

  /** `where(:puzzle_id => .., :correct => true).first` over a user's submissions: one matching
      row if there is any. The database picks which; this definition takes the earliest in `subs`. */
  function FirstSolution(subs: seq<Submission>, userId: nat, puzzleId: nat): (r: Option<Submission>)
    ensures r.Some? ==> r.value in subs && IsSolution(r.value, userId, puzzleId)
    ensures r.None? <==> forall i :: 0 <= i < |subs| ==> !IsSolution(subs[i], userId, puzzleId)
  {
    if subs == [] then None
    else if IsSolution(subs[0], userId, puzzleId) then Some(subs[0])
    else
      var r := FirstSolution(subs[1..], userId, puzzleId);
      assert forall i :: 1 <= i < |subs| ==> subs[i] == subs[1..][i - 1];
      r
  }
}
