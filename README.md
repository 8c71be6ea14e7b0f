# PuzzleNode user model in Dafny

This project models the `User` model of the PuzzleNode puzzle site. That model holds a user
record and its leaderboard query. The leaderboard ranks users by their correct puzzle
submissions:

1. The correct submissions are grouped per user, with `solved` = how many there are and
   `latest_solution` = the newest of their timestamps.
2. The groups are inner-joined with the `users` table. Admins and users with draft access
   are dropped by the `eligible_for_display` scope.
3. The rows are ordered by `solved` descending, then `latest_solution` ascending.
4. The result is cut to `limit` rows.

A user's leaderboard position is their 1-based index in that list, or nil.

The record-level parts of the model are:
- the display-name fallback (`name`, `real_name`);
- `refresh_names`, which conditionally overwrites the profile fields;
- `solution_for`, which looks up one correct submission of the user for a puzzle.

Files:
- `wrappers.dfy`: `Option`. Ruby `nil` is `None`.
- `decimal.dfy`: the decimal rendering of an id, as `"#{id}"` writes it, with a proof that it reads back.
- `records.dfy`: the persisted rows (`UserRow`, `Submission`, `Puzzle`), the
  `eligible_for_display` scope, and the "first matching submission" query.
- `ranking.dfy`: the leaderboard pipeline and position lookup, and the lemmas about them.
- `users.dfy`: class `User`, holding the fields `refresh_names` updates in place, and the
  instance methods of the model.

Modelling decisions:
- Timestamps are integers, ids are naturals and `limit` is a `nat`. The Ruby default
  `limit = 10` is the default parameter value `DefaultLimit`.
- The database may return rows that tie on both `solved` and `latest_solution` in any order.
  `Ranking.IsLeaderboard` therefore describes every admissible result: the first `limit` rows
  of some sorted permutation of the candidates. All leaderboard lemmas hold for every
  admissible result. `Ranking.Leaderboard` computes one of them with a stable insertion sort.
- `.first` in `solution_for` has no ORDER BY, so the database may return any matching row.
  `User.SolutionFor` promises only what holds of every choice.
- The `eligible_for_display` condition is applied before the limit. ActiveRecord merges the
  scope's WHERE into the same statement, and SQL filters before LIMIT. The condition reads only
  user columns, so the model filters the user rows before the join. That gives the same rows.
- `users.id` is the table's primary key. The functions accept any sequence of rows. Only the
  lemmas about uniqueness and counting require `UniqueIds(users)`.
- Display name: Ruby's `||` falls through only on `nil`. An empty stored name or nickname is
  therefore returned as it is, not skipped. The model follows the code on this point.
- `refresh_names` reads `hash['user_info']['name']`. When `'user_info'` is missing that
  is `nil['name']`, which raises before anything is written. The model returns `NoUserInfo`
  and leaves the record unchanged in that case. The early return happens before the hash is
  read, so a user with a nickname and an email is skipped even when the payload is malformed.

## Model

| member | source | states |
|---|---|---|
| `Records.EligibleForDisplay` | app/models/user.rb:9 | the scope keeps exactly the rows with `admin` and `draft_access` both false, and never adds rows |
| `Records.EligibleForDisplayUnique` | app/models/user.rb:9 | filtering rows with distinct ids keeps the ids distinct |
| `Records.FirstSolution` | app/models/user.rb:35 | a result is a row of `subs` with the user id, the puzzle id and `correct`; None exactly when no row has all three |
| `Ranking.CorrectBy` | app/models/user.rb:47 | reference definition: holds exactly the correct submissions of the user |
| `Ranking.Solutions` | app/models/user.rb:47-49 | there is a group exactly for each user id with a correct submission |
| `Ranking.SolutionsAggregate` | app/models/user.rb:47-49 | a group's `solved` is the number of the user's correct submissions; its `latestSolution` occurs among them and is at least every one of their timestamps; a group exists iff there is such a submission |
| `Ranking.Join` | app/models/user.rb:59-60 | the inner join holds exactly the user rows that have a group, each with that group's two columns, and has no more entries than there are user rows |
| `Ranking.JoinUnique` | app/models/user.rb:60 | joining user rows with distinct ids gives entries with distinct ids |
| `Ranking.CandidatesExactly` | app/models/user.rb:47-62 | every joined and filtered row is an eligible user with one or more correct submissions and the right count and latest time; every such user row appears |
| `Ranking.Insert` | app/models/user.rb:61 | inserting into a sorted sequence keeps it sorted and adds exactly the one row |
| `Ranking.Rank` | app/models/user.rb:61 | the result is sorted by `solved` desc, `latestSolution` asc, and is a permutation of the input |
| `Ranking.Leaderboard` | app/models/user.rb:43-63 | the computed board is an admissible result: a prefix of length `min(limit, n)` of a sorted permutation of the candidates |
| `Ranking.LeaderboardAggregates` | app/models/user.rb:47-62 | every row of any admissible board is a user row that is neither admin nor draft-access, with `solved` = its number of correct submissions (at least one) and `latestSolution` = their latest timestamp |
| `Ranking.LeaderboardOrdered` | app/models/user.rb:61 | consecutive rows: more solved, or equal solved and a latest solution no later |
| `Ranking.LeaderboardStrictlyBetterFirst` | app/models/user.rb:61 | a row with more solved, or equal solved and an earlier latest solution, always stands at a smaller index |
| `Ranking.LeaderboardKeepsTheBest` | app/models/user.rb:61-62 | a candidate cut off by the limit ranks no better than any row that was kept |
| `Ranking.LeaderboardLength` | app/models/user.rb:61-62 | an admissible board has exactly `min(limit, number of candidates)` rows |
| `Ranking.LeaderboardComplete` | app/models/user.rb:61-62 | with a limit at least the candidate count, the board holds every candidate |
| `Ranking.CandidatesUnique` | app/models/user.rb:59-62 | with unique user ids, candidates have distinct ids and their number is the number of eligible users with a correct submission |
| `Ranking.LeaderboardUnique` | app/models/user.rb:59-62 | with unique user ids, each user appears at most once and the board has `min(limit, eligible solvers)` rows |
| `Ranking.Position` | app/models/user.rb:39-40 | None iff no row has the id; otherwise a 1-based index of a row with the id, and no earlier row has it |
| `Ranking.PositionIndex` | app/models/user.rb:39-40 | on a board without repeated users, the position is `k+1` exactly when row `k` is the user |
| `Ranking.LeaderboardPositionBound` | app/models/user.rb:38-41 | a position on an admissible board lies in `1..limit` |
| `Ranking.LeaderboardPositionAbsent` | app/models/user.rb:38-41 | an admin, a draft-access user, or a user without a correct submission has no position |
| `Users.User.LeaderboardPosition` | app/models/user.rb:38-41 | returns a value in `1..limit` whose row on `leaderboard(limit)` is this user; nil iff the user is not on it |
| `Users.User.Name` | app/models/user.rb:17-19 | the stored name when present (even if empty), else the nickname when present, else the anonymous name of the id |
| `Users.User.RealName` | app/models/user.rb:21-23 | the stored name itself: nil exactly when the stored name is nil; when present it is what `Name` shows, and when nil `Name` falls back to nickname or the anonymous name |
| `Users.User.RefreshNames` | app/models/user.rb:25-31 | with nickname and email present nothing changes; otherwise name, nickname and email are all taken from `hash['user_info']`, or the record is unchanged when that is missing; id, admin and draft access never change |
| `Users.User.SolutionFor` | app/models/user.rb:33-36 | nil for a nil puzzle; a result is this user's correct submission for the puzzle; nil only when there is none |
| `Users.AnonymousName` | app/models/user.rb:18 | "Anonymous #" followed by the canonical decimal of the id: digits only, no leading zero, reading back as the id |
| `Users.AnonymousNamesDistinct` | app/models/user.rb:18 | different ids give different anonymous names |
| `Decimal.FromNat` | app/models/user.rb:18 | a non-empty string of decimal digits without a leading zero |
| `Decimal.ToNatFromNat` | app/models/user.rb:18 | reading the decimal string of `n` back gives `n` |

## Left out

- Associations and cascade deletes (`has_many ... :dependent => :destroy`, lines 2-4): persistence-framework behaviour with no logic of its own. The model takes the submissions as a plain sequence of rows.
- `attr_protected :admin, :draft_access` (line 6): mass-assignment protection inside Rails. `RefreshNames` writes only name, nickname and email, and its contract says the flags stay unchanged.
- The `admin` scope (line 8): not used by the rest of the model.
- `create_from_hash!` (lines 11-15): a database insert from an external authentication payload. It copies the same three fields as `refresh_names`. The `User` constructor builds a record from a row instead.
- The SQL text and its `to_sql` splicing (lines 47-60): the model states what the query computes, not the string.
- Users.User.RefreshNames: does not model saving to the database or validation failures of `update_attributes`. The model has no validations, so the update always takes effect.
- Ranking.Leaderboard: the order the database gives rows that tie on both keys is not modelled. Which admissible result comes back is left open by `IsLeaderboard`.
- Users.User.SolutionFor: which matching row `.first` returns is database-dependent. `FirstSolution` picks the earliest in the sequence, and the contract promises only what holds for any choice.
- Negative `limit` values: their effect is database-specific, so `limit` is a `nat`.
- The `Submission.correct` scope is assumed to select the rows with `correct` true. The submission model is not part of this model.
- Storage failures: a failing query propagates unchanged in the original. Here the rows are given as values.
