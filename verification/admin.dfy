/**
  The admin read-outs (app/Http/Controllers/Api/AdminController.php): a
  yearly summary per non-admin user, and one user's entries of a year.

  Both are pure functions of the user list and the entry table; the
  current year is a parameter. The average and the tracking rate are exact
  rationals (`real`), without the rounding to one decimal the JSON response
  applies.
*/
module Admin {
  import opened Civil
  import opened MoodStore

  /** A user account: id, name, email and the admin flag. */
  datatype User = User(id: int, name: string, email: string, isAdmin: bool)

  /** The yearly statistics of one user. */
  datatype Stats = Stats(average: real, daysTracked: int, trackingRate: real)

  /** One item of the `users` listing. */
  datatype UserSummary = UserSummary(id: int, name: string, email: string, stats: Stats)

  /** The `userMoods` response: the user's identity and the year's entries. */
  datatype UserMoodsResponse = UserMoodsResponse(id: int, name: string, email: string, moods: seq<MoodEntry>)

  /**
    `(new DateTime("$year-12-31"))->format('z') + 1`: the 0-based day of
    the year of 31 December, plus one.
  */
  function TotalDaysInYear(year: int): (r: int)
    ensures r == DaysInYear(year)
    ensures r == 365 || r == 366
  {
    FieldsOfMakeDay(year, 11, 31);
    WholeYear(year);
    DayWithinYear(MakeDay(year, 11, 31)) + 1
  }

  /** The sum of the scores. */
  function SumScores(s: seq<MoodEntry>): int {
    if |s| == 0 then 0 else s[0].score + SumScores(s[1..])
  }

  /** `$yearEntries->avg('score') ?? 0`: the mean score, or 0 for no entries. */
  function Average(s: seq<MoodEntry>): (r: real)
    ensures |s| == 0 ==> r == 0.0
    ensures |s| > 0 ==> r * |s| as real == SumScores(s) as real
  {
    if |s| == 0 then 0.0 else SumScores(s) as real / |s| as real
  }

  /** The smallest and the largest score of a non-empty sequence. */
  function MinScore(s: seq<MoodEntry>): (m: int)
    requires |s| > 0
    ensures forall e :: e in s ==> m <= e.score
    ensures exists e :: e in s && e.score == m
  {
    if |s| == 1 then s[0].score
    else
      var rest := MinScore(s[1..]);
      assert s == [s[0]] + s[1..];
      if s[0].score <= rest then s[0].score else rest
  }

  function MaxScore(s: seq<MoodEntry>): (m: int)
    requires |s| > 0
    ensures forall e :: e in s ==> e.score <= m
    ensures exists e :: e in s && e.score == m
  {
    if |s| == 1 then s[0].score
    else
      var rest := MaxScore(s[1..]);
      assert s == [s[0]] + s[1..];
      if s[0].score >= rest then s[0].score else rest
  }

  /**
    The statistics of one user for one year: the mean score and the number
    of their entries dated in the year, and that number as a percentage of
    the days of the year.
  */
  function UserStats(rows: seq<MoodEntry>, userId: int, year: int): (r: Stats)
    ensures var entries := UserYearRows(rows, userId, year);
      && r.average == Average(entries)
      && r.daysTracked == |entries|
      && r.trackingRate == |entries| as real / DaysInYear(year) as real * 100.0
  {
    var entries := UserYearRows(rows, userId, year);
    var total := TotalDaysInYear(year);
    Stats(
      Average(entries),
      |entries|,
      if total > 0 then (|entries| as real / total as real) * 100.0 else 0.0)
  }

  /** `where('is_admin', false)`: the users who are not admins, in order. */
  function NonAdmins(users: seq<User>): (r: seq<User>)
    ensures forall u :: u in r <==> u in users && !u.isAdmin
  {
    if |users| == 0 then []
    else
      assert users == [users[0]] + users[1..];
      if users[0].isAdmin then NonAdmins(users[1..]) else [users[0]] + NonAdmins(users[1..])
  }

  /** The filter keeps every non-admin user as often as the list holds them, and no admin. */
  lemma {:induction false} NonAdminsCount(users: seq<User>)
    ensures forall u :: multiset(NonAdmins(users))[u] == if u.isAdmin then 0 else multiset(users)[u]
  {
    if |users| > 0 {
      NonAdminsCount(users[1..]);
      assert users == [users[0]] + users[1..];
      assert multiset(users) == multiset{users[0]} + multiset(users[1..]);
    }
  }

  /** No two users of the list share an id. */
  predicate DistinctIds(users: seq<User>) {
    forall i, j :: 0 <= i < j < |users| ==> users[i].id != users[j].id
  }

  /** With distinct ids, the first user's id is not among the filtered rest. */
  lemma FirstIdNotInRest(users: seq<User>)
    requires DistinctIds(users) && |users| > 0
    ensures forall x :: x in NonAdmins(users[1..]) ==> x.id != users[0].id
  {
    forall x | x in NonAdmins(users[1..])
      ensures x.id != users[0].id
    {
      var a :| 0 <= a < |users[1..]| && users[1..][a] == x;
      assert users[a + 1] == x;
    }
  }

  /** Users with distinct ids keep distinct ids through the filter. */
  lemma {:induction false} NonAdminsDistinctIds(users: seq<User>)
    requires DistinctIds(users)
    ensures DistinctIds(NonAdmins(users))
  {
    if |users| > 0 {
      var tail := users[1..];
      assert DistinctIds(tail) by {
        assert forall i :: 0 <= i < |tail| ==> tail[i] == users[i + 1];
      }
      NonAdminsDistinctIds(tail);
      var rest := NonAdmins(tail);
      var r := NonAdmins(users);
      if users[0].isAdmin {
        assert r == rest;
      } else {
        assert r == [users[0]] + rest;
        FirstIdNotInRest(users);
        forall i, j | 0 <= i < j < |r|
          ensures r[i].id != r[j].id
        {
          assert r[j] == rest[j - 1];
          if i == 0 {
            assert r[i] == users[0] && rest[j - 1] in rest;
          } else {
            assert r[i] == rest[i - 1];
            assert rest[i - 1].id != rest[j - 1].id;
          }
        }
      }
    }
  }

  /** The filter keeps the order of the user list: it distributes over concatenation. */
  lemma {:induction false} NonAdminsAppend(a: seq<User>, b: seq<User>)
    ensures NonAdmins(a + b) == NonAdmins(a) + NonAdmins(b)
  {
    if |a| == 0 {
      assert a + b == b;
    } else {
      assert (a + b)[0] == a[0];
      assert (a + b)[1..] == a[1..] + b;
      NonAdminsAppend(a[1..], b);
    }
  }

  /** The statistics of one user for one year: the summary of the `users` listing. */
  function Summary(u: User, rows: seq<MoodEntry>, year: int): (r: UserSummary)
    ensures r.id == u.id && r.name == u.name && r.email == u.email
    ensures r.stats == UserStats(rows, u.id, year)
  {
    UserSummary(u.id, u.name, u.email, UserStats(rows, u.id, year))
  }

  /** users: one summary per non-admin user, in the order of the user list. */
  function Users(users: seq<User>, rows: seq<MoodEntry>, year: int): (r: seq<UserSummary>)
    ensures |r| == |NonAdmins(users)|
    ensures forall k :: 0 <= k < |r| ==> r[k] == Summary(NonAdmins(users)[k], rows, year)
  {
    var nonAdmins := NonAdmins(users);
    seq(|nonAdmins|, k requires 0 <= k < |nonAdmins| => Summary(nonAdmins[k], rows, year))
  }

  /** userMoods: the user's id, name and email with their entries of the year by ascending date. */
  function UserMoods(user: User, rows: seq<MoodEntry>, year: int): (r: UserMoodsResponse)
    ensures r.id == user.id && r.name == user.name && r.email == user.email
    ensures SortedByDate(r.moods)
    ensures forall e :: e in r.moods <==> e in rows && e.userId == user.id && YearFromDay(e.date) == year
  {
    UserMoodsResponse(user.id, user.name, user.email, EntriesInYear(rows, user.id, year))
  }

  /**
    users lists every non-admin user and no admin: with distinct user ids,
    an id appears in the listing exactly when it belongs to a non-admin user.
  */
  lemma UsersAreNonAdmins(users: seq<User>, rows: seq<MoodEntry>, year: int)
    requires DistinctIds(users)
    ensures var r := Users(users, rows, year);
      forall u :: u in users ==> (!u.isAdmin <==> exists k :: 0 <= k < |r| && r[k].id == u.id)
    ensures var r := Users(users, rows, year);
      forall k1, k2 :: 0 <= k1 < |r| && 0 <= k2 < |r| && r[k1].id == r[k2].id ==> k1 == k2
  {
    var r := Users(users, rows, year);
    var nonAdmins := NonAdmins(users);
    assert forall k :: 0 <= k < |r| ==> r[k].id == nonAdmins[k].id;
    forall u | u in users
      ensures !u.isAdmin <==> exists k :: 0 <= k < |r| && r[k].id == u.id
    {
      if !u.isAdmin {
        var k :| 0 <= k < |nonAdmins| && nonAdmins[k] == u;
        assert r[k].id == u.id;
      }
      if exists k :: 0 <= k < |r| && r[k].id == u.id {
        var k :| 0 <= k < |r| && r[k].id == u.id;
        var v := nonAdmins[k];
        assert v in users && !v.isAdmin;
        var a :| 0 <= a < |users| && users[a] == u;
        var b :| 0 <= b < |users| && users[b] == v;
        assert a == b;
      }
    }
    NonAdminsDistinctIds(users);
  }

  /** Every score lies between bounds, so the sum lies between count times each bound. */
  lemma {:induction false} SumScoresBounds(s: seq<MoodEntry>, lo: int, hi: int)
    requires forall e :: e in s ==> lo <= e.score <= hi
    ensures lo * |s| <= SumScores(s) <= hi * |s|
  {
    if |s| > 0 {
      assert s == [s[0]] + s[1..];
      SumScoresBounds(s[1..], lo, hi);
      assert lo * |s| == lo * |s[1..]| + lo;
      assert hi * |s| == hi * |s[1..]| + hi;
    }
  }

  /** A sum between count times lo and count times hi has its mean between lo and hi. */
  lemma MeanBounds(sum: int, n: int, lo: int, hi: int)
    requires n > 0 && lo * n <= sum <= hi * n
    ensures lo as real <= sum as real / n as real <= hi as real
  {
    var mean := sum as real / n as real;
    assert mean * n as real == sum as real;
    assert (lo * n) as real == lo as real * n as real;
    assert (hi * n) as real == hi as real * n as real;
  }

  /** A part of a positive whole is between 0 and 100 percent of it. */
  lemma PercentBounds(part: int, whole: int)
    requires 0 <= part <= whole && whole > 0
    ensures 0.0 <= part as real / whole as real * 100.0 <= 100.0
  {
    var q := part as real / whole as real;
    assert q * whole as real == part as real;
  }

  /**
    The average is 0 for a user without entries this year, and otherwise
    lies between their lowest and highest score.
  */
  lemma AverageBetweenMinAndMax(s: seq<MoodEntry>)
    ensures |s| == 0 ==> Average(s) == 0.0
    ensures |s| > 0 ==> MinScore(s) as real <= Average(s) <= MaxScore(s) as real
  {
    if |s| > 0 {
      SumScoresBounds(s, MinScore(s), MaxScore(s));
      MeanBounds(SumScores(s), |s|, MinScore(s), MaxScore(s));
    }
  }

  /** In a valid table, every user's average is 0 or lies in the score range 1..10. */
  lemma AverageInScoreRange(t: Table, userId: int, year: int)
    requires TableValid(t)
    ensures var a := UserStats(t.rows, userId, year).average;
      a == 0.0 || 1.0 <= a <= 10.0
  {
    var s := UserYearRows(t.rows, userId, year);
    if |s| > 0 {
      forall e | e in s
        ensures 1 <= e.score <= 10
      {
        var i :| 0 <= i < |t.rows| && t.rows[i] == e;
      }
      SumScoresBounds(s, 1, 10);
      MeanBounds(SumScores(s), |s|, 1, 10);
    }
  }

  /** The days of a sequence of entries. */
  function Dates(s: seq<MoodEntry>): (d: set<Day>)
    ensures forall x :: x in d <==> exists e :: e in s && e.date == x
  {
    if |s| == 0 then {}
    else
      assert s == [s[0]] + s[1..];
      {s[0].date} + Dates(s[1..])
  }

  /** Entries on pairwise different days have as many days as entries. */
  lemma {:induction false} DatesCount(s: seq<MoodEntry>)
    requires forall i, j :: 0 <= i < j < |s| ==> s[i].date != s[j].date
    ensures |Dates(s)| == |s|
  {
    if |s| > 0 {
      DatesCount(s[1..]);
      assert s[0].date !in Dates(s[1..]);
    }
  }

  /** A set of days inside [lo, hi) has at most hi - lo elements. */
  lemma {:induction false} DaysWithin(d: set<Day>, lo: int, hi: int)
    requires lo <= hi
    requires forall x :: x in d ==> lo <= x < hi
    ensures |d| <= hi - lo
    decreases hi - lo
  {
    if lo < hi {
      DaysWithin(d - {hi - 1}, lo, hi - 1);
    } else {
      assert d == {};
    }
  }

  /**
    days_tracked counts the user's entries dated in the year, which in a
    valid table is the number of distinct days they tracked.
  */
  lemma DaysTrackedAreDistinctDays(t: Table, userId: int, year: int)
    requires TableValid(t)
    ensures var s := UserYearRows(t.rows, userId, year);
      UserStats(t.rows, userId, year).daysTracked == |s| == |Dates(s)|
  {
    var s := UserYearRows(t.rows, userId, year);
    OneUserRowsDistinctDates(t, userId, s);
    DatesCount(s);
  }

  /**
    The tracking rate is days_tracked / days in the year * 100 and lies in
    [0, 100], since a valid table holds at most one entry per user and day.
  */
  lemma TrackingRateBounds(t: Table, userId: int, year: int)
    requires TableValid(t)
    ensures var st := UserStats(t.rows, userId, year);
      && st.trackingRate == st.daysTracked as real / DaysInYear(year) as real * 100.0
      && 0.0 <= st.trackingRate <= 100.0
  {
    var s := UserYearRows(t.rows, userId, year);
    DaysTrackedAreDistinctDays(t, userId, year);
    forall x | x in Dates(s)
      ensures DayFromYear(year) <= x < DayFromYear(year + 1)
    {
      var e :| e in s && e.date == x;
    }
    YearStep(year);
    DaysWithin(Dates(s), DayFromYear(year), DayFromYear(year + 1));
    PercentBounds(|s|, DaysInYear(year));
  }
}
