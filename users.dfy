/** The `User` record itself: its display-name fallback, the refresh of its profile fields from an
    authentication payload, its solution lookup and its place on the leaderboard. */
module Users {
  import opened Wrappers
  import opened Records
  import Decimal
  import Ranking

  /** The inner hash `hash['user_info']`; a key that is missing or maps to nil reads as None. */
  type UserInfo = map<string, Option<string>>

  /** The authentication payload handed to `refresh_names`. */
  type AuthHash = map<string, UserInfo>

  const UserInfoKey: string := "user_info"

  function Lookup(info: UserInfo, key: string): Option<string> {
    if key in info then info[key] else None
  }

  /** `"Anonymous ##{id}"`: the fixed prefix followed by the decimal id. */
  function AnonymousName(id: nat): (r: string)
    ensures |r| > 11 && r[..11] == "Anonymous #"
    ensures Decimal.ToNat(r[11..]) == id
    ensures forall i :: 11 <= i < |r| ==> Decimal.IsDigit(r[i])
    ensures |r| > 12 ==> r[11] != '0'
  {
    var r := "Anonymous #" + Decimal.FromNat(id);
    assert r[11..] == Decimal.FromNat(id);
    Decimal.ToNatFromNat(id);
    r
  }

  /** Users without a stored name or nickname still get names that tell them apart. */
  lemma AnonymousNamesDistinct(a: nat, b: nat)
    requires a != b
    ensures AnonymousName(a) != AnonymousName(b)
  {
  }

  /** What `refresh_names` did. */
  datatype RefreshOutcome =
    | Skipped      // nickname and email were both present; nothing was read or written
    | Updated      // the three fields were overwritten from the payload
    | NoUserInfo   // `hash['user_info']` is nil, so reading `['name']` from it raises

  class User {
    var id: nat
    /** The stored `name` column (`read_attribute(:name)`). */
    var name: Option<string>
    var nickname: Option<string>
    var email: Option<string>
    var admin: bool
    var draftAccess: bool

    constructor (row: UserRow)
      ensures Row() == row
    {
      id, name, nickname, email := row.id, row.name, row.nickname, row.email;
      admin, draftAccess := row.admin, row.draftAccess;
    }

    /** The record as a row of the `users` table. */
    function Row(): UserRow
      reads this
    {
      UserRow(id, name, nickname, email, admin, draftAccess)
    }

    /** `name`: the stored name, else the nickname, else "Anonymous #<id>". Ruby's `||` only
        skips nil, so an empty stored name is returned as it is. */
    function Name(): (r: string)
      reads this
      ensures name.Some? ==> r == name.value
      ensures name.None? && nickname.Some? ==> r == nickname.value
      ensures name.None? && nickname.None? ==> r == AnonymousName(id)
    {
      match name
      case Some(n) => n
      case None =>
        match nickname
        case Some(n) => n
        case None => AnonymousName(id)
    }

    /** `real_name`: the stored name as it is, nil included, whatever `Name` falls back to. */
    function RealName(): (r: Option<string>)
      reads this
      ensures r.None? <==> name.None?
      ensures r.Some? ==> Name() == r.value
      ensures r.None? ==> Name() == (if nickname.Some? then nickname.value else AnonymousName(id))
    {
      name
    }

    /** `refresh_names(hash)`: when nickname or email is missing, overwrite name, nickname and
        email from `hash['user_info']`; the flags and the id never change. */
    method RefreshNames(hash: AuthHash) returns (outcome: RefreshOutcome)
      modifies this
      ensures old(nickname).Some? && old(email).Some? ==> outcome == Skipped
      ensures old(nickname).None? || old(email).None? ==>
        outcome == (if UserInfoKey in hash then Updated else NoUserInfo)
      ensures outcome != Updated ==> Row() == old(Row())
      ensures outcome == Updated ==>
        && name == Lookup(hash[UserInfoKey], "name")
        && nickname == Lookup(hash[UserInfoKey], "nickname")
        && email == Lookup(hash[UserInfoKey], "email")
      ensures id == old(id) && admin == old(admin) && draftAccess == old(draftAccess)
    {
      if nickname.Some? && email.Some? {
        return Skipped;
      }
      if UserInfoKey !in hash {
        return NoUserInfo;
      }
      var info := hash[UserInfoKey];
      name, nickname, email := Lookup(info, "name"), Lookup(info, "nickname"), Lookup(info, "email");
      outcome := Updated;
    }

    /** `solution_for(puzzle)`: nil for a nil puzzle; otherwise one correct submission of this
        user for the puzzle, nil only when there is none. */
    function SolutionFor(subs: seq<Submission>, puzzle: Option<Puzzle>): (r: Option<Submission>)
      reads this
      ensures puzzle.None? ==> r.None?
      ensures r.Some? ==> puzzle.Some? && r.value in subs && IsSolution(r.value, id, puzzle.value.id)
      ensures puzzle.Some? && r.None? ==>
        forall i :: 0 <= i < |subs| ==> !IsSolution(subs[i], id, puzzle.value.id)
    {
      match puzzle
      case None => None
      case Some(p) => FirstSolution(subs, id, p.id)
    }

    /** `leaderboard_position(limit)`: this user's 1-based position on `leaderboard(limit)`,
        nil when the user is not on it. */
    function LeaderboardPosition(users: seq<UserRow>, subs: seq<Submission>, limit: nat := Ranking.DefaultLimit)
      : (r: Option<nat>)
      reads this
      ensures r.Some? ==>
        && 1 <= r.value <= limit && r.value <= |Ranking.Leaderboard(users, subs, limit)|
        && Ranking.Leaderboard(users, subs, limit)[r.value - 1].user.id == id
      ensures r.None? <==> forall e :: e in Ranking.Leaderboard(users, subs, limit) ==> e.user.id != id
    {
      var board := Ranking.Leaderboard(users, subs, limit);
      Ranking.LeaderboardPositionBound(users, subs, limit, board, id);
      Ranking.Position(board, id)
    }
  }
}
