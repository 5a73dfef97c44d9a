/**
 * UserService (internal/services/user_service.go): account creation with username
 * validation, lookup by name, and the learning statistics view with its review streak.
 */
module UserService {
  import opened Wrappers
  import opened Models
  import Text
  import opened Storage

  /** A character of `[a-zA-Z0-9_]`. */
  predicate IsUsernameChar(c: char) {
    ('a' <= c <= 'z') || ('A' <= c <= 'Z') || ('0' <= c <= '9') || c == '_'
  }

  predicate AllUsernameChars(s: string) {
    forall k :: 0 <= k < |s| ==> IsUsernameChar(s[k])
  }

  lemma UsernameCharsAreAscii(s: string)
    requires AllUsernameChars(s)
    ensures Text.IsAscii(s)
  {
    forall k | 0 <= k < |s|
      ensures s[k] as int < 0x80
    {
      assert IsUsernameChar(s[k]);
    }
  }

  const MinUsernameLength: int := 3
  const MaxUsernameLength: int := 20

  /**
   * CreateUser's validation: trim white space, check the byte length is within 3..20,
   * then check the name against `^[a-zA-Z0-9_]+$`. An accepted name is the trimmed name,
   * 3 to 20 bytes long and drawn from the allowed set.
   */
  function ValidateUsername(raw: string): (r: Result<string, Error>)
    ensures r.Success? ==>
      && r.value == Text.TrimSpace(raw)
      && MinUsernameLength <= Text.ByteLen(r.value) <= MaxUsernameLength
      && AllUsernameChars(r.value)
    ensures r.Failure? ==> r.error == UsernameLength || r.error == UsernameChars
  {
    var name := Text.TrimSpace(raw);
    if Text.ByteLen(name) < MinUsernameLength || Text.ByteLen(name) > MaxUsernameLength then
      Failure(UsernameLength)
    else if !AllUsernameChars(name) then
      Failure(UsernameChars)
    else
      Success(name)
  }

  /** An accepted name is ASCII, so its byte length is its character count: 3 to 20 characters. */
  lemma AcceptedNameLength(raw: string)
    requires ValidateUsername(raw).Success?
    ensures var name := ValidateUsername(raw).value;
      Text.IsAscii(name) && MinUsernameLength <= |name| <= MaxUsernameLength
  {
    var name := ValidateUsername(raw).value;
    UsernameCharsAreAscii(name);
    Text.ByteLenAscii(name);
  }

  /** A trimmed name of 3 to 20 allowed characters is accepted as it is. */
  lemma AcceptsCleanName(name: string)
    requires Text.TrimSpace(name) == name
    requires MinUsernameLength <= |name| <= MaxUsernameLength && AllUsernameChars(name)
    ensures ValidateUsername(name) == Success(name)
  {
    UsernameCharsAreAscii(name);
    Text.ByteLenAscii(name);
    assert Text.ByteLen(Text.TrimSpace(name)) == |name|;
    assert AllUsernameChars(Text.TrimSpace(name));
  }

  /** A name that passes validation passes it again unchanged. */
  lemma ValidateUsernameIdempotent(raw: string)
    requires ValidateUsername(raw).Success?
    ensures ValidateUsername(ValidateUsername(raw).value) == ValidateUsername(raw)
  {
    var name := ValidateUsername(raw).value;
    assert ValidateUsername(raw) == Success(name);
    assert Text.TrimSpace(name) == name by {
      Text.TrimSpaceIdempotent(raw);
    }
    AcceptedNameLength(raw);
    AcceptsCleanName(name);
  }

  /** A name without surrounding white space passes through TrimSpace unchanged. */
  lemma Untrimmed(s: string)
    requires s != [] && !Text.IsSpace(s[0]) && !Text.IsSpace(s[|s| - 1])
    ensures Text.TrimSpace(s) == s
  {
    Text.TrimLeftIdle(s);
    Text.TrimRightIdle(s);
  }

  /** An ASCII name without surrounding white space and of the wrong length fails the length check. */
  lemma RejectsLength(name: string)
    requires Text.IsAscii(name) && name != [] && !Text.IsSpace(name[0]) && !Text.IsSpace(name[|name| - 1])
    requires !(MinUsernameLength <= |name| <= MaxUsernameLength)
    ensures ValidateUsername(name) == Failure(UsernameLength)
  {
    Untrimmed(name);
    Text.ByteLenAscii(name);
  }

  /** An ASCII name without surrounding white space, of the right length but with a disallowed character, fails the character check. */
  lemma RejectsChars(name: string, k: nat)
    requires Text.IsAscii(name) && name != [] && !Text.IsSpace(name[0]) && !Text.IsSpace(name[|name| - 1])
    requires MinUsernameLength <= |name| <= MaxUsernameLength
    requires k < |name| && !IsUsernameChar(name[k])
    ensures ValidateUsername(name) == Failure(UsernameChars)
  {
    Untrimmed(name);
    Text.ByteLenAscii(name);
  }

  /** A two-letter name fails on its length. */
  lemma ValidateUsernameShortExample()
    ensures ValidateUsername("ab") == Failure(UsernameLength)
  {
    RejectsLength("ab");
  }

  /** A name of valid length with a space and a '!' in it fails on its characters. */
  lemma ValidateUsernameCharsExample()
    ensures ValidateUsername("bad name!") == Failure(UsernameChars)
  {
    RejectsChars("bad name!", 3);
  }

  /** Surrounding white space is dropped before the checks. */
  lemma ValidateUsernameTrims()
    ensures ValidateUsername(" bob_1\n") == Success("bob_1")
  {
    var raw, name := " bob_1\n", "bob_1";
    assert raw[1..] == "bob_1\n";
    Text.TrimLeftIdle("bob_1\n");
    assert Text.TrimLeft(raw) == "bob_1\n";
    assert "bob_1\n"[..5] == name;
    Text.TrimRightIdle(name);
    assert Text.TrimSpace(raw) == name;
    assert AllUsernameChars(name);
    UsernameCharsAreAscii(name);
    Text.ByteLenAscii(name);
  }

  /** GetUser: the users row with that name, or "user not found". */
  function GetUser(users: map<string, User>, username: string): (r: Result<User, Error>)
    ensures r.Failure? <==> username !in users
    ensures r.Failure? ==> r.error == UserNotFound
    ensures r.Success? ==> r.value == users[username]
  {
    if username in users then Success(users[username]) else Failure(UserNotFound)
  }

  /**
   * CreateUser: validate, then insert; the UNIQUE constraint on username turns a
   * duplicate into "username already exists" and leaves the table as it was. `insertFault`
   * stands for any other failure of the insert.
   */
  method CreateUser(db: Database, raw: string, now: int, insertFault: bool) returns (r: Result<User, Error>)
    requires db.Valid()
    modifies db`users, db`nextUserId
    ensures db.Valid()
    ensures ValidateUsername(raw).Failure? ==>
      r == Failure(ValidateUsername(raw).error) && db.users == old(db.users) && db.nextUserId == old(db.nextUserId)
    ensures ValidateUsername(raw).Success? ==>
      var name := ValidateUsername(raw).value;
      && (name in old(db.users) ==> r == Failure(UsernameTaken) && db.users == old(db.users) && db.nextUserId == old(db.nextUserId))
      && (name !in old(db.users) && insertFault ==>
            r == Failure(CreateUserFailed) && db.users == old(db.users) && db.nextUserId == old(db.nextUserId))
      && (name !in old(db.users) && !insertFault ==>
            && r == Success(User(old(db.nextUserId), name, now))
            && db.users == old(db.users)[name := r.value]
            && db.nextUserId == old(db.nextUserId) + 1)
    ensures r.Success? ==> GetUser(db.users, r.value.username) == r
  {
    var valid := ValidateUsername(raw);
    if valid.Failure? {
      return Failure(valid.error);
    }
    var name := valid.value;
    if name in db.users {
      return Failure(UsernameTaken);
    }
    if insertFault {
      return Failure(CreateUserFailed);
    }
    db.users := db.users[name := User(db.nextUserId, name, now)];
    db.nextUserId := db.nextUserId + 1;
    r := GetUser(db.users, name);
  }

  // ---------------------------------------------------------------------------------
  // The review streak
  // ---------------------------------------------------------------------------------

  predicate StrictlyDescending(days: seq<int>) {
    forall i, j :: 0 <= i < j < |days| ==> days[i] > days[j]
  }

  /** The length of the run of one-day steps at the head of `days`, counting its first day. */
  function LeadingRun(days: seq<int>): (n: nat)
    requires |days| >= 1
    ensures 1 <= n <= |days|
    ensures forall i :: 0 < i < n ==> days[i - 1] - days[i] == 1
    ensures n < |days| ==> days[n - 1] - days[n] != 1
  {
    if |days| == 1 || days[0] - days[1] != 1 then 1 else 1 + LeadingRun(days[1..])
  }

  /**
   * The streak for the distinct review days `days` (most recent first) seen from day
   * `today`: 0 when there are none or the last one is more than a day ago, else the
   * leading run of consecutive days.
   */
  function Streak(days: seq<int>, today: int): nat {
    if days == [] || today - days[0] > 1 then 0 else LeadingRun(days)
  }

  /**
   * calculateStreak, from the day list the query returns (`None` when the query, a scan
   * or a date parse fails): 0 on failure or no days, 0 when the most recent day is more
   * than one day before today, else 1 plus each further day exactly one day before the
   * previous one, stopping at the first gap.
   */
  method CalculateStreak(dates: Option<seq<int>>, today: int) returns (streak: nat)
    ensures dates.None? ==> streak == 0
    ensures dates.Some? ==> streak == Streak(dates.value, today)
    ensures dates.Some? && (dates.value == [] || today - dates.value[0] > 1) ==> streak == 0
    ensures dates.Some? && dates.value != [] && today - dates.value[0] <= 1 ==>
      && 1 <= streak <= |dates.value|
      && (forall i :: 0 < i < streak ==> dates.value[i - 1] - dates.value[i] == 1)
      && (streak < |dates.value| ==> dates.value[streak - 1] - dates.value[streak] != 1)
  {
    if dates.None? {
      return 0;
    }
    var days := dates.value;
    if |days| == 0 {
      return 0;
    }
    var daysSince := today - days[0];
    if daysSince > 1 {
      return 0;
    }
    streak := 1;
    var i := 1;
    while i < |days|
      invariant 1 <= i <= |days| && streak == i
      invariant forall k :: 0 < k < i ==> days[k - 1] - days[k] == 1
    {
      if days[i - 1] - days[i] == 1 {
        streak := streak + 1;
      } else {
        break;
      }
      i := i + 1;
    }
  }

  lemma {:induction false} RunIsConsecutive(days: seq<int>, j: nat)
    requires |days| >= 1 && j < LeadingRun(days)
    ensures days[j] == days[0] - j
  {
    if j > 0 {
      RunIsConsecutive(days, j - 1);
    }
  }

  /**
   * On a strictly descending day list the streak counts calendar days: the n days ending
   * at the most recent one are all review days, and the day before them is not.
   */
  lemma StreakCountsConsecutiveDays(days: seq<int>, today: int)
    requires StrictlyDescending(days)
    ensures var n := Streak(days, today);
      n > 0 ==>
        && today - 1 <= days[0]
        && (forall j :: 0 <= j < n ==> days[j] == days[0] - j)
        && days[0] - n !in days
  {
    var n := Streak(days, today);
    if n > 0 {
      forall j | 0 <= j < n
        ensures days[j] == days[0] - j
      {
        RunIsConsecutive(days, j);
      }
      forall k | 0 <= k < |days|
        ensures days[k] != days[0] - n
      {
        if k < n {
          RunIsConsecutive(days, k);
        } else {
          RunIsConsecutive(days, n - 1);
          assert days[k] <= days[n];
        }
      }
    }
  }

  /** Days D, D-1, D-2, D-5 give 3 today and tomorrow, and 0 three days later. */
  lemma StreakExample(d: int)
    ensures Streak([d, d - 1, d - 2, d - 5], d) == 3
    ensures Streak([d, d - 1, d - 2, d - 5], d + 1) == 3
    ensures Streak([d, d - 1, d - 2, d - 5], d + 3) == 0
  {
    var days := [d, d - 1, d - 2, d - 5];
    assert days[1..] == [d - 1, d - 2, d - 5];
    assert days[1..][1..] == [d - 2, d - 5];
    assert LeadingRun([d - 2, d - 5]) == 1;
    assert LeadingRun([d - 1, d - 2, d - 5]) == 2;
  }

  // ---------------------------------------------------------------------------------
  // The statistics view
  // ---------------------------------------------------------------------------------

  /** Inserts a day into a strictly descending day list unless it is already there. */
  function InsertDay(days: seq<int>, d: int): (r: seq<int>)
    requires StrictlyDescending(days)
    ensures StrictlyDescending(r)
    ensures forall x :: x in r <==> x in days || x == d
  {
    if days == [] || d > days[0] then
      [d] + days
    else if d == days[0] then
      days
    else
      var rest := InsertDay(days[1..], d);
      forall x | x in rest
        ensures x < days[0]
      {
        if x != d {
          var j :| 0 <= j < |days[1..]| && days[1..][j] == x;
          assert days[j + 1] == x;
        }
      }
      assert days == [days[0]] + days[1..];
      var r := [days[0]] + rest;
      forall i, j | 0 <= i < j < |r|
        ensures r[i] > r[j]
      {
        assert r[j] == rest[j - 1];
        if i > 0 {
          assert r[i] == rest[i - 1];
        } else {
          assert rest[j - 1] in rest;
        }
      }
      r
  }

  /** `SELECT DISTINCT` review day of a user's reviews `ORDER BY` day descending. */
  function ReviewDays(rows: seq<ReviewRow>, userId: int): (days: seq<int>)
    ensures StrictlyDescending(days)
    ensures forall d :: d in days <==> exists i :: 0 <= i < |rows| && rows[i].userId == userId && DayOf(rows[i].reviewedAt) == d
  {
    if rows == [] then []
    else
      var init := rows[..|rows| - 1];
      var rest := ReviewDays(init, userId);
      var last := rows[|rows| - 1];
      assert forall i :: 0 <= i < |init| ==> init[i] == rows[i];
      if last.userId == userId then InsertDay(rest, DayOf(last.reviewedAt)) else rest
  }

  /** `SELECT MAX(reviewed_at)` over a user's reviews; `None` (SQL NULL) when there are none. */
  function LastReview(rows: seq<ReviewRow>, userId: int): (r: Option<int>)
    ensures r.None? <==> forall i :: 0 <= i < |rows| ==> rows[i].userId != userId
    ensures r.Some? ==> exists i :: 0 <= i < |rows| && rows[i].userId == userId && rows[i].reviewedAt == r.value
    ensures r.Some? ==> forall i :: 0 <= i < |rows| && rows[i].userId == userId ==> rows[i].reviewedAt <= r.value
  {
    if rows == [] then None
    else
      var init := rows[..|rows| - 1];
      var rest := LastReview(init, userId);
      var last := rows[|rows| - 1];
      assert forall i :: 0 <= i < |init| ==> init[i] == rows[i];
      if last.userId != userId then rest
      else if rest.Some? && rest.value >= last.reviewedAt then rest
      else Some(last.reviewedAt)
  }

  lemma DayOfMonotone(t1: int, t2: int)
    requires t1 <= t2
    ensures DayOf(t1) <= DayOf(t2)
  {
  }

  /** The day of the last review is the first day of the streak's day list. */
  lemma LastReviewLeadsDays(rows: seq<ReviewRow>, userId: int)
    requires LastReview(rows, userId).Some?
    ensures ReviewDays(rows, userId) != []
    ensures ReviewDays(rows, userId)[0] == DayOf(LastReview(rows, userId).value)
  {
    var t := LastReview(rows, userId).value;
    var days := ReviewDays(rows, userId);
    assert DayOf(t) in days;
    var j :| 0 <= j < |days| && days[j] == DayOf(t);
    assert days[0] in days;
    var i :| 0 <= i < |rows| && rows[i].userId == userId && DayOf(rows[i].reviewedAt) == days[0];
    DayOfMonotone(rows[i].reviewedAt, t);
  }

  /** `SELECT COUNT(*) FROM user_words WHERE ...`. */
  function CountRows(rows: seq<UserWordRow>, keep: UserWordRow -> bool): (n: nat)
    ensures n <= |rows|
  {
    if rows == [] then 0
    else CountRows(rows[..|rows| - 1], keep) + (if keep(rows[|rows| - 1]) then 1 else 0)
  }

  function OfUser(userId: int): UserWordRow -> bool {
    (row: UserWordRow) => row.userId == userId
  }

  function DueBy(userId: int, now: int): UserWordRow -> bool {
    (row: UserWordRow) => row.userId == userId && row.nextReviewDate <= now
  }

  function InStatus(userId: int, status: Status): UserWordRow -> bool {
    (row: UserWordRow) => row.userId == userId && row.status == status
  }

  /** Every study record is in exactly one of the three states, so the state counts add up to the total. */
  lemma {:induction false} StatusCountsPartition(rows: seq<UserWordRow>, userId: int)
    ensures CountRows(rows, InStatus(userId, Learning)) + CountRows(rows, InStatus(userId, Reviewing))
      + CountRows(rows, InStatus(userId, Mastered)) == CountRows(rows, OfUser(userId))
  {
    if rows != [] {
      StatusCountsPartition(rows[..|rows| - 1], userId);
    }
  }

  /** The words due are among the user's words. */
  lemma {:induction false} DueAmongTotal(rows: seq<UserWordRow>, userId: int, now: int)
    ensures CountRows(rows, DueBy(userId, now)) <= CountRows(rows, OfUser(userId))
  {
    if rows != [] {
      DueAmongTotal(rows[..|rows| - 1], userId, now);
    }
  }

  /** `SELECT COUNT(*) FROM review_history WHERE user_id = ?`. */
  function CountReviews(rows: seq<ReviewRow>, userId: int): (n: nat)
    ensures n <= |rows|
    ensures n == 0 <==> LastReview(rows, userId).None?
  {
    if rows == [] then 0
    else
      var init := rows[..|rows| - 1];
      assert forall i :: 0 <= i < |init| ==> init[i] == rows[i];
      CountReviews(init, userId) + (if rows[|rows| - 1].userId == userId then 1 else 0)
  }

  /**
   * GetUserStats: the counts of the user's study records (in total, due, and per status)
   * and of their reviews; the last review instant and the streak only when the
   * MAX(reviewed_at) text parses (`lastParses`). A failing streak query (`streakFault`)
   * gives a streak of 0 and never fails the call.
   */
  method GetUserStats(db: Database, username: string, now: int, lastParses: bool, streakFault: bool) returns (r: Result<UserStats, Error>)
    requires db.Valid()
    ensures username !in db.users ==> r == Failure(UserNotFound)
    ensures username in db.users ==> r.Success?
    ensures r.Success? ==>
      var s := r.value;
      var userId := db.users[username].id;
      var last := LastReview(db.history, userId);
      && s.username == username
      && s.totalWords == CountRows(db.userWords, OfUser(userId))
      && s.dueToday == CountRows(db.userWords, DueBy(userId, now))
      && s.dueToday <= s.totalWords
      && s.learning == CountRows(db.userWords, InStatus(userId, Learning))
      && s.reviewing == CountRows(db.userWords, InStatus(userId, Reviewing))
      && s.mastered == CountRows(db.userWords, InStatus(userId, Mastered))
      && s.learning + s.reviewing + s.mastered == s.totalWords
      && s.totalReviews == CountReviews(db.history, userId)
      && s.lastReviewDate == (if last.Some? && lastParses then last else None)
      && (s.currentStreak > 0 ==> s.totalReviews > 0 && lastParses && !streakFault)
      && s.currentStreak == (if last.Some? && lastParses && !streakFault then Streak(ReviewDays(db.history, userId), DayOf(now)) else 0)
  {
    var user := GetUser(db.users, username);
    if user.Failure? {
      return Failure(user.error);
    }
    var userId := user.value.id;
    var total := CountRows(db.userWords, OfUser(userId));
    var due := CountRows(db.userWords, DueBy(userId, now));
    var learning := CountRows(db.userWords, InStatus(userId, Learning));
    var reviewing := CountRows(db.userWords, InStatus(userId, Reviewing));
    var mastered := CountRows(db.userWords, InStatus(userId, Mastered));
    StatusCountsPartition(db.userWords, userId);
    DueAmongTotal(db.userWords, userId, now);
    var reviews := CountReviews(db.history, userId);
    var last := LastReview(db.history, userId);
    var lastReviewDate: Option<int> := None;
    var streak: nat := 0;
    if last.Some? && lastParses {
      lastReviewDate := last;
      streak := CalculateStreak(if streakFault then None else Some(ReviewDays(db.history, userId)), DayOf(now));
    }
    return Success(UserStats(username, total, due, learning, reviewing, mastered, reviews, streak, lastReviewDate));
  }
}
