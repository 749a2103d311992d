/**
  The per-user mood entry store behind the mood API
  (app/Http/Controllers/Api/MoodEntryController.php): a table of entries
  with one row per user and day, changed by store (an upsert), update and
  destroy, and listed per user and year by index.

  The table is a sequence of rows in insertion order together with the id
  the next inserted row receives (the auto-increment counter). The
  authenticated user is a parameter; validation outcomes are the error
  values of ApiError rather than HTTP responses.
*/
module MoodStore {
  import opened Civil
  import opened Wrappers

  /** A row of the mood entries table: id, owner, day, score and optional comment. */
  datatype MoodEntry = MoodEntry(id: int, userId: int, date: Day, score: int, comment: Option<string>)

  /**
    The `comment` field of a request after validation: absent from the
    request (and so from the validated data), or present as null or a string.
  */
  datatype CommentInput = Omitted | Given(comment: Option<string>)

  /** Why a request fails: invalid input (422), not the owner (403), or a server error (500). */
  datatype ApiError = ValidationFailed | Forbidden | ServerError

  /** The table: its rows and the id the next created row receives. */
  datatype Table = Table(rows: seq<MoodEntry>, nextId: int)

  /** The table after a request, with the request's response. */
  datatype Outcome<T> = Outcome(table: Table, response: Result<T, ApiError>)

  /** The score rule `required|integer|min:1|max:10`, for a score that is an integer. */
  predicate ValidScore(score: int) {
    1 <= score <= 10
  }

  /** Whether an entry is the one for (user, date), the key of the upsert. */
  predicate HasKey(e: MoodEntry, user: int, date: Day) {
    e.userId == user && e.date == date
  }

  /**
    The table invariant every request keeps: ids are unique and below the
    next id, scores lie in 1..10, and there is at most one entry per user and day.
  */
  predicate TableValid(t: Table) {
    && (forall i :: 0 <= i < |t.rows| ==> t.rows[i].id < t.nextId && ValidScore(t.rows[i].score))
    && (forall i, j :: 0 <= i < j < |t.rows| ==> t.rows[i].id != t.rows[j].id)
    && (forall i, j :: 0 <= i < j < |t.rows| ==> !HasKey(t.rows[j], t.rows[i].userId, t.rows[i].date))
  }

  /** The empty table a fresh database starts with. */
  function EmptyTable(): (t: Table)
    ensures TableValid(t) && |t.rows| == 0
  {
    Table([], 1)
  }

  /** The first row from index `from` on with key (user, date). */
  function FindKey(rows: seq<MoodEntry>, user: int, date: Day, from: nat): (r: Option<nat>)
    requires from <= |rows|
    ensures r.Some? ==> from <= r.value < |rows| && HasKey(rows[r.value], user, date)
    ensures forall j :: from <= j < |rows| && (r.None? || j < r.value) ==> !HasKey(rows[j], user, date)
    decreases |rows| - from
  {
    if from == |rows| then None
    else if HasKey(rows[from], user, date) then Some(from)
    else FindKey(rows, user, date, from + 1)
  }

  /** The first row from index `from` on with the given id: `MoodEntry::find`. */
  function FindId(rows: seq<MoodEntry>, id: int, from: nat): (r: Option<nat>)
    requires from <= |rows|
    ensures r.Some? ==> from <= r.value < |rows| && rows[r.value].id == id
    ensures forall j :: from <= j < |rows| && (r.None? || j < r.value) ==> rows[j].id != id
    decreases |rows| - from
  {
    if from == |rows| then None
    else if rows[from].id == id then Some(from)
    else FindId(rows, id, from + 1)
  }

  /** The comment a row keeps after a request: an omitted comment leaves the old one. */
  function ApplyComment(current: Option<string>, c: CommentInput): (r: Option<string>)
    ensures c.Given? ==> r == c.comment
    ensures c.Omitted? ==> r == current
  {
    match c
    case Omitted => current
    case Given(v) => v
  }

  /**
    store: validate, then update the entry for (user, date) when there is
    one, and create it with the next id when there is none.
  */
  function AfterStore(t: Table, user: int, date: Option<Day>, score: Option<int>, comment: CommentInput): (out: Outcome<MoodEntry>)
    ensures out.response.Err? <==> date.None? || score.None? || !ValidScore(score.value)
    ensures out.response.Err? ==> out == Outcome(t, Err(ValidationFailed))
  {
    if date.None? || score.None? || !ValidScore(score.value) then Outcome(t, Err(ValidationFailed))
    else
      match FindKey(t.rows, user, date.value, 0)
      case Some(i) =>
        var e := t.rows[i].(score := score.value, comment := ApplyComment(t.rows[i].comment, comment));
        Outcome(Table(t.rows[i := e], t.nextId), Ok(e))
      case None =>
        var e := MoodEntry(t.nextId, user, date.value, score.value, ApplyComment(None, comment));
        Outcome(Table(t.rows + [e], t.nextId + 1), Ok(e))
  }

  /**
    update: find the entry (a missing one makes the ownership check fail
    with a server error), refuse a caller who does not own it, validate,
    then set score and comment.
  */
  function AfterUpdate(t: Table, user: int, id: int, score: Option<int>, comment: CommentInput): (out: Outcome<MoodEntry>)
    ensures (forall e :: e in t.rows ==> e.id != id) ==> out == Outcome(t, Err(ServerError))
    ensures (exists e :: e in t.rows && e.id == id) && (forall e :: e in t.rows && e.id == id ==> e.userId != user)
      ==> out == Outcome(t, Err(Forbidden))
    ensures score.None? || !ValidScore(score.value) ==> out.table == t && out.response.Err?
  {
    match FindId(t.rows, id, 0)
    case None => Outcome(t, Err(ServerError))
    case Some(i) =>
      if t.rows[i].userId != user then Outcome(t, Err(Forbidden))
      else if score.None? || !ValidScore(score.value) then Outcome(t, Err(ValidationFailed))
      else
        var e := t.rows[i].(score := score.value, comment := ApplyComment(t.rows[i].comment, comment));
        Outcome(Table(t.rows[i := e], t.nextId), Ok(e))
  }

  /** destroy: refuse a missing entry or one the caller does not own, else delete it. */
  function AfterDestroy(t: Table, user: int, id: int): (out: Outcome<()>)
    ensures (forall e :: e in t.rows && e.id == id ==> e.userId != user) ==> out == Outcome(t, Err(Forbidden))
    ensures out.response.Err? ==> out == Outcome(t, Err(Forbidden))
  {
    match FindId(t.rows, id, 0)
    case None => Outcome(t, Err(Forbidden))
    case Some(i) =>
      if t.rows[i].userId != user then Outcome(t, Err(Forbidden))
      else Outcome(Table(t.rows[..i] + t.rows[i + 1..], t.nextId), Ok(()))
  }

  /** The query `where user_id = user and year(date) = year`, in table order. */
  function UserYearRows(rows: seq<MoodEntry>, user: int, year: int): (r: seq<MoodEntry>)
    ensures forall e :: e in r <==> e in rows && e.userId == user && YearFromDay(e.date) == year
    ensures multiset(r) <= multiset(rows)
  {
    if |rows| == 0 then []
    else
      var rest := UserYearRows(rows[1..], user, year);
      assert rows == [rows[0]] + rows[1..];
      if rows[0].userId == user && YearFromDay(rows[0].date) == year then [rows[0]] + rest else rest
  }

  /** Entries in ascending date order. */
  predicate SortedByDate(s: seq<MoodEntry>) {
    forall i, j :: 0 <= i < j < |s| ==> s[i].date <= s[j].date
  }

  /** Insert e after every leading entry not later than e. */
  function InsertByDate(e: MoodEntry, s: seq<MoodEntry>): (r: seq<MoodEntry>)
    ensures multiset(r) == multiset(s) + multiset{e}
  {
    if |s| == 0 then [e]
    else if e.date < s[0].date then [e] + s
    else
      assert s == [s[0]] + s[1..];
      [s[0]] + InsertByDate(e, s[1..])
  }

  /** Inserting into a date-sorted sequence keeps it sorted. */
  lemma {:induction false} InsertByDateSorted(e: MoodEntry, s: seq<MoodEntry>)
    requires SortedByDate(s)
    ensures SortedByDate(InsertByDate(e, s))
  {
    if |s| > 0 && e.date >= s[0].date {
      InsertByDateSorted(e, s[1..]);
      var rest := InsertByDate(e, s[1..]);
      var r := InsertByDate(e, s);
      assert r == [s[0]] + rest;
      forall i, j | 0 <= i < j < |r|
        ensures r[i].date <= r[j].date
      {
        if i == 0 {
          assert r[j] in multiset(rest);
          assert r[j] == e || r[j] in s[1..];
        } else {
          assert r[i] == rest[i - 1] && r[j] == rest[j - 1];
        }
      }
    }
  }

  /** `orderBy('date')`: the entries sorted by date, a permutation of the input. */
  function SortByDate(s: seq<MoodEntry>): (r: seq<MoodEntry>)
    ensures SortedByDate(r)
    ensures multiset(r) == multiset(s)
  {
    if |s| == 0 then []
    else
      assert s == [s[0]] + s[1..];
      var rest := SortByDate(s[1..]);
      InsertByDateSorted(s[0], rest);
      InsertByDate(s[0], rest)
  }

  /**
    index (and the moods of userMoods): the user's entries dated in the year,
    in ascending date order.
  */
  function EntriesInYear(rows: seq<MoodEntry>, user: int, year: int): (r: seq<MoodEntry>)
    ensures SortedByDate(r)
    ensures multiset(r) == multiset(UserYearRows(rows, user, year))
    ensures forall e :: e in r <==> e in rows && e.userId == user && YearFromDay(e.date) == year
  {
    var r := SortByDate(UserYearRows(rows, user, year));
    assert forall e :: e in r <==> e in UserYearRows(rows, user, year) by {
      forall e ensures e in r <==> e in UserYearRows(rows, user, year) {
        assert e in r <==> e in multiset(r);
      }
    }
    r
  }

  /** The entry table the controller works on, changed in place by store, update and destroy. */
  class MoodEntryTable {
    var rows: seq<MoodEntry>
    var nextId: int

    function State(): Table
      reads this
    {
      Table(rows, nextId)
    }

    ghost predicate Valid()
      reads this
    {
      TableValid(State())
    }

    constructor ()
      ensures State() == EmptyTable()
      ensures Valid()
    {
      rows := [];
      nextId := 1;
    }

    /** store: the upsert keyed on (user, date). */
    method Store(user: int, date: Option<Day>, score: Option<int>, comment: CommentInput) returns (response: Result<MoodEntry, ApiError>)
      requires Valid()
      modifies this
      ensures Outcome(State(), response) == AfterStore(old(State()), user, date, score, comment)
      ensures Valid()
    {
      StorePreservesValid(State(), user, date, score, comment);
      if date.None? || score.None? || !ValidScore(score.value) {
        return Err(ValidationFailed);
      }
      var found := FindKey(rows, user, date.value, 0);
      match found
      case Some(i) =>
        var e := rows[i].(score := score.value, comment := ApplyComment(rows[i].comment, comment));
        rows := rows[i := e];
        response := Ok(e);
      case None =>
        var e := MoodEntry(nextId, user, date.value, score.value, ApplyComment(None, comment));
        rows := rows + [e];
        nextId := nextId + 1;
        response := Ok(e);
    }

    /** update: ownership check, validation, then new score and comment. */
    method Update(user: int, id: int, score: Option<int>, comment: CommentInput) returns (response: Result<MoodEntry, ApiError>)
      requires Valid()
      modifies this
      ensures Outcome(State(), response) == AfterUpdate(old(State()), user, id, score, comment)
      ensures Valid()
    {
      UpdatePreservesValid(State(), user, id, score, comment);
      var found := FindId(rows, id, 0);
      if found.None? {
        return Err(ServerError);
      }
      var i := found.value;
      if rows[i].userId != user {
        return Err(Forbidden);
      }
      if score.None? || !ValidScore(score.value) {
        return Err(ValidationFailed);
      }
      var e := rows[i].(score := score.value, comment := ApplyComment(rows[i].comment, comment));
      rows := rows[i := e];
      response := Ok(e);
    }

    /** destroy: existence and ownership check, then deletion. */
    method Destroy(user: int, id: int) returns (response: Result<(), ApiError>)
      requires Valid()
      modifies this
      ensures Outcome(State(), response) == AfterDestroy(old(State()), user, id)
      ensures Valid()
    {
      DestroyPreservesValid(State(), user, id);
      var found := FindId(rows, id, 0);
      if found.None? || rows[found.value].userId != user {
        return Err(Forbidden);
      }
      var i := found.value;
      rows := rows[..i] + rows[i + 1..];
      response := Ok(());
    }

    /** index: the caller's entries of the year, by ascending date. */
    function Index(user: int, year: int): (r: seq<MoodEntry>)
      reads this
      ensures SortedByDate(r)
      ensures forall e :: e in r <==> e in rows && e.userId == user && YearFromDay(e.date) == year
    {
      EntriesInYear(rows, user, year)
    }
  }

  /** Every request keeps the table invariant: store. */
  lemma StorePreservesValid(t: Table, user: int, date: Option<Day>, score: Option<int>, comment: CommentInput)
    requires TableValid(t)
    ensures TableValid(AfterStore(t, user, date, score, comment).table)
  {
    if date.Some? && score.Some? && ValidScore(score.value) {
      var t' := AfterStore(t, user, date, score, comment).table;
      match FindKey(t.rows, user, date.value, 0)
      case Some(i) =>
        forall a, b | 0 <= a < b < |t'.rows|
          ensures t'.rows[a].id != t'.rows[b].id && !HasKey(t'.rows[b], t'.rows[a].userId, t'.rows[a].date)
        {
          assert t'.rows[a].id == t.rows[a].id && HasKey(t'.rows[a], t.rows[a].userId, t.rows[a].date);
          assert t'.rows[b].id == t.rows[b].id && HasKey(t'.rows[b], t.rows[b].userId, t.rows[b].date);
        }
      case None =>
        forall a, b | 0 <= a < b < |t'.rows|
          ensures t'.rows[a].id != t'.rows[b].id && !HasKey(t'.rows[b], t'.rows[a].userId, t'.rows[a].date)
        {
          if b == |t.rows| {
            assert t'.rows[a] == t.rows[a];
          }
        }
    }
  }

  /** Every request keeps the table invariant: update. */
  lemma UpdatePreservesValid(t: Table, user: int, id: int, score: Option<int>, comment: CommentInput)
    requires TableValid(t)
    ensures TableValid(AfterUpdate(t, user, id, score, comment).table)
  {
    var t' := AfterUpdate(t, user, id, score, comment).table;
    if t' != t {
      var i := FindId(t.rows, id, 0).value;
      forall a, b | 0 <= a < b < |t'.rows|
        ensures t'.rows[a].id != t'.rows[b].id && !HasKey(t'.rows[b], t'.rows[a].userId, t'.rows[a].date)
      {
        assert t'.rows[a].id == t.rows[a].id && HasKey(t'.rows[a], t.rows[a].userId, t.rows[a].date);
        assert t'.rows[b].id == t.rows[b].id && HasKey(t'.rows[b], t.rows[b].userId, t.rows[b].date);
      }
    }
  }

  /** Every request keeps the table invariant: destroy. */
  lemma DestroyPreservesValid(t: Table, user: int, id: int)
    requires TableValid(t)
    ensures TableValid(AfterDestroy(t, user, id).table)
  {
    var t' := AfterDestroy(t, user, id).table;
    if t' != t {
      var i := FindId(t.rows, id, 0).value;
      forall a | 0 <= a < |t'.rows|
        ensures t'.rows[a] == t.rows[if a < i then a else a + 1]
      {
      }
    }
  }

  /**
    A valid store leaves exactly one entry for (user, date): the one it
    returns, carrying the submitted score, the submitted comment (or, when
    the comment was omitted, the previous entry's comment, or none), and the
    id of the entry it replaced if there was one. Entries with another key
    are untouched.
  */
  lemma StoreUpserts(t: Table, user: int, date: Day, score: int, comment: CommentInput)
    requires TableValid(t) && ValidScore(score)
    ensures var out := AfterStore(t, user, Some(date), Some(score), comment);
      && out.response.Ok?
      && var e := out.response.value;
      && HasKey(e, user, date) && e.score == score
      && (comment.Given? ==> e.comment == comment.comment)
      && (comment.Omitted? && (forall f :: f in t.rows ==> !HasKey(f, user, date)) ==> e.comment.None?)
      && (forall f :: f in t.rows && HasKey(f, user, date) ==> e.id == f.id && (comment.Omitted? ==> e.comment == f.comment))
      && e in out.table.rows
      && (forall f :: f in out.table.rows && HasKey(f, user, date) ==> f == e)
      && (forall f :: !HasKey(f, user, date) ==> (f in out.table.rows <==> f in t.rows))
  {
    var out := AfterStore(t, user, Some(date), Some(score), comment);
    var t' := out.table;
    StorePreservesValid(t, user, Some(date), Some(score), comment);
    match FindKey(t.rows, user, date, 0)
    case Some(i) =>
      assert t'.rows[i] == out.response.value;
      forall f | f in t.rows && HasKey(f, user, date)
        ensures f == t.rows[i]
      {
        var j :| 0 <= j < |t.rows| && t.rows[j] == f;
        KeysUnique(t, i, j);
      }
      forall f | f in t'.rows && HasKey(f, user, date)
        ensures f == t'.rows[i]
      {
        var j :| 0 <= j < |t'.rows| && t'.rows[j] == f;
        KeysUnique(t', i, j);
      }
      forall f | !HasKey(f, user, date)
        ensures f in t'.rows <==> f in t.rows
      {
        if f in t.rows {
          var j :| 0 <= j < |t.rows| && t.rows[j] == f;
          assert t'.rows[j] == f;
        }
        if f in t'.rows {
          var j :| 0 <= j < |t'.rows| && t'.rows[j] == f;
          assert t.rows[j] == f;
        }
      }
    case None =>
      assert t'.rows == t.rows + [out.response.value];
      forall f | f in t'.rows && HasKey(f, user, date)
        ensures f == out.response.value
      {
        var j :| 0 <= j < |t'.rows| && t'.rows[j] == f;
        assert j == |t.rows|;
      }
  }

  /**
    Storing again for the same user and day never adds a row: the second
    store overwrites the entry the first one left, keeping its id.
  */
  lemma StoreTwice(t: Table, user: int, date: Day, score1: int, comment1: CommentInput, score2: int, comment2: CommentInput)
    requires TableValid(t) && ValidScore(score1) && ValidScore(score2)
    ensures var first := AfterStore(t, user, Some(date), Some(score1), comment1);
      var second := AfterStore(first.table, user, Some(date), Some(score2), comment2);
      && |second.table.rows| == |first.table.rows|
      && second.table.nextId == first.table.nextId
      && second.response.Ok? && second.response.value.id == first.response.value.id
      && second.response.value.score == score2
      && (forall f :: f in second.table.rows && HasKey(f, user, date) ==> f == second.response.value)
  {
    var first := AfterStore(t, user, Some(date), Some(score1), comment1);
    StoreUpserts(t, user, date, score1, comment1);
    StorePreservesValid(t, user, Some(date), Some(score1), comment1);
    StoreUpserts(first.table, user, date, score2, comment2);
    var i := FindKey(first.table.rows, user, date, 0);
    assert i.Some? by {
      var e := first.response.value;
      var j :| 0 <= j < |first.table.rows| && first.table.rows[j] == e;
      assert HasKey(first.table.rows[j], user, date);
    }
  }

  /** Repeating the same store request leaves the table as the first request left it. */
  lemma StoreIdempotent(t: Table, user: int, date: Option<Day>, score: Option<int>, comment: CommentInput)
    requires TableValid(t)
    ensures var first := AfterStore(t, user, date, score, comment);
      AfterStore(first.table, user, date, score, comment) == first
  {
    var first := AfterStore(t, user, date, score, comment);
    if date.Some? && score.Some? && ValidScore(score.value) {
      StoreUpserts(t, user, date.value, score.value, comment);
      StorePreservesValid(t, user, date, score, comment);
      var e := first.response.value;
      var j :| 0 <= j < |first.table.rows| && first.table.rows[j] == e;
      assert HasKey(first.table.rows[j], user, date.value);
      var i := FindKey(first.table.rows, user, date.value, 0).value;
      assert first.table.rows[i] == e;
      assert first.table.rows[i := e] == first.table.rows;
    }
  }

  /**
    A caller who does not own an entry changes nothing: update and destroy
    are refused with 403 and leave the table as it was.
  */
  lemma NonOwnersChangeNothing(t: Table, user: int, id: int, score: Option<int>, comment: CommentInput)
    requires exists e :: e in t.rows && e.id == id
    requires forall e :: e in t.rows && e.id == id ==> e.userId != user
    ensures AfterUpdate(t, user, id, score, comment) == Outcome(t, Err(Forbidden))
    ensures AfterDestroy(t, user, id) == Outcome(t, Err(Forbidden))
  {
  }

  /** store only ever touches the caller's own rows: every other user's rows stay, and none appear. */
  lemma StoreKeepsOtherUsersRows(t: Table, user: int, date: Option<Day>, score: Option<int>, comment: CommentInput)
    ensures var t' := AfterStore(t, user, date, score, comment).table;
      forall f: MoodEntry :: f.userId != user ==> (f in t'.rows <==> f in t.rows)
  {
    var out := AfterStore(t, user, date, score, comment);
    if out.response.Ok? {
      var t' := out.table;
      match FindKey(t.rows, user, date.value, 0)
      case Some(i) =>
        forall f: MoodEntry | f.userId != user
          ensures f in t'.rows <==> f in t.rows
        {
          if f in t.rows {
            var j :| 0 <= j < |t.rows| && t.rows[j] == f;
            assert t'.rows[j] == f;
          }
          if f in t'.rows {
            var j :| 0 <= j < |t'.rows| && t'.rows[j] == f;
            assert t.rows[j] == f;
          }
        }
      case None =>
        assert t'.rows == t.rows + [out.response.value];
    }
  }

  /**
    A successful update by the owner changes only the score and comment of
    that one entry: its id, owner and date stay, and every other row stays.
  */
  lemma UpdateChangesScoreAndComment(t: Table, user: int, id: int, score: Option<int>, comment: CommentInput)
    requires TableValid(t)
    ensures var out := AfterUpdate(t, user, id, score, comment);
      && (out.response.Ok? <==>
            (exists e :: e in t.rows && e.id == id && e.userId == user) && score.Some? && ValidScore(score.value))
      && (out.response.Ok? ==>
            && TableValid(out.table)
            && out.table.nextId == t.nextId
            && |out.table.rows| == |t.rows|
            && exists i :: 0 <= i < |t.rows| && t.rows[i].id == id && t.rows[i].userId == user
                 && out.table.rows[i] == out.response.value
                 && out.response.value == t.rows[i].(score := score.value, comment := ApplyComment(t.rows[i].comment, comment))
                 && (forall j :: 0 <= j < |t.rows| && j != i ==> out.table.rows[j] == t.rows[j]))
  {
    UpdatePreservesValid(t, user, id, score, comment);
    match FindId(t.rows, id, 0)
    case None =>
    case Some(i) =>
      if exists e :: e in t.rows && e.id == id && e.userId == user {
        var e :| e in t.rows && e.id == id && e.userId == user;
        var j :| 0 <= j < |t.rows| && t.rows[j] == e;
        IdsUnique(t, i, j);
      }
  }

  /** In a valid table two rows with the same id are the same row. */
  lemma IdsUnique(t: Table, i: int, j: int)
    requires TableValid(t) && 0 <= i < |t.rows| && 0 <= j < |t.rows|
    ensures t.rows[i].id == t.rows[j].id ==> i == j
  {
    if i < j {
      assert t.rows[i].id != t.rows[j].id;
    } else if j < i {
      assert t.rows[j].id != t.rows[i].id;
    }
  }

  /** In a valid table two rows with the same user and day are the same row. */
  lemma KeysUnique(t: Table, i: int, j: int)
    requires TableValid(t) && 0 <= i < |t.rows| && 0 <= j < |t.rows|
    ensures HasKey(t.rows[j], t.rows[i].userId, t.rows[i].date) ==> i == j
  {
    if i < j {
      assert !HasKey(t.rows[j], t.rows[i].userId, t.rows[i].date);
    } else if j < i {
      assert !HasKey(t.rows[i], t.rows[j].userId, t.rows[j].date);
    }
  }

  /** Removing row i of a table with unique ids removes exactly the rows with its id. */
  lemma RemoveRow(t: Table, i: int)
    requires TableValid(t) && 0 <= i < |t.rows|
    ensures forall f :: f in t.rows[..i] + t.rows[i + 1..] <==> f in t.rows && f.id != t.rows[i].id
  {
    var rows' := t.rows[..i] + t.rows[i + 1..];
    forall k | 0 <= k < |rows'|
      ensures rows'[k] == t.rows[if k < i then k else k + 1]
    {
    }
    forall f | f in rows'
      ensures f in t.rows && f.id != t.rows[i].id
    {
      var k :| 0 <= k < |rows'| && rows'[k] == f;
      IdsUnique(t, i, if k < i then k else k + 1);
    }
    forall f | f in t.rows && f.id != t.rows[i].id
      ensures f in rows'
    {
      var k :| 0 <= k < |t.rows| && t.rows[k] == f;
      assert rows'[if k < i then k else k - 1] == f;
    }
  }

  /**
    destroy removes exactly the entry with that id when the caller owns it,
    and otherwise (a missing entry or another user's) removes nothing.
  */
  lemma DestroyRemovesExactly(t: Table, user: int, id: int)
    requires TableValid(t)
    ensures var out := AfterDestroy(t, user, id);
      && (out.response.Ok? <==> exists e :: e in t.rows && e.id == id && e.userId == user)
      && (out.response.Ok? ==>
            && |out.table.rows| == |t.rows| - 1
            && out.table.nextId == t.nextId
            && forall f :: f in out.table.rows <==> f in t.rows && f.id != id)
      && (out.response.Err? ==> out.table == t)
  {
    match FindId(t.rows, id, 0)
    case None =>
    case Some(i) =>
      if exists e :: e in t.rows && e.id == id && e.userId == user {
        var e :| e in t.rows && e.id == id && e.userId == user;
        var j :| 0 <= j < |t.rows| && t.rows[j] == e;
        IdsUnique(t, i, j);
      }
      RemoveRow(t, i);
  }

  /** A sequence without repeated elements holds each value at most once. */
  lemma {:induction false} DistinctCount(s: seq<MoodEntry>)
    requires forall i, j :: 0 <= i < j < |s| ==> s[i] != s[j]
    ensures forall x :: multiset(s)[x] <= 1
  {
    if |s| > 0 {
      DistinctCount(s[1..]);
      assert s == [s[0]] + s[1..];
      assert s[0] !in s[1..];
    }
  }

  /** A value at two positions is counted at least twice. */
  lemma CountTwice(s: seq<MoodEntry>, i: int, j: int)
    requires 0 <= i < j < |s| && s[i] == s[j]
    ensures multiset(s)[s[i]] >= 2
  {
    assert s == s[..j] + s[j..];
    assert s[i] in s[..j];
    assert s[j..][0] == s[j];
  }

  /** A selection of one user's rows of a valid table has no two entries on one day. */
  lemma OneUserRowsDistinctDates(t: Table, user: int, r: seq<MoodEntry>)
    requires TableValid(t)
    requires multiset(r) <= multiset(t.rows)
    requires forall e :: e in r ==> e.userId == user
    ensures forall i, j :: 0 <= i < j < |r| ==> r[i].date != r[j].date
  {
    forall a, b | 0 <= a < b < |t.rows|
      ensures t.rows[a] != t.rows[b]
    {
      IdsUnique(t, a, b);
    }
    DistinctCount(t.rows);
    forall i, j | 0 <= i < j < |r|
      ensures r[i].date != r[j].date
    {
      if r[i].date == r[j].date {
        assert r[i] in multiset(t.rows) && r[j] in multiset(t.rows);
        var k1 :| 0 <= k1 < |t.rows| && t.rows[k1] == r[i];
        var k2 :| 0 <= k2 < |t.rows| && t.rows[k2] == r[j];
        KeysUnique(t, k1, k2);
        CountTwice(r, i, j);
      }
    }
  }

  /**
    In a valid table the listing of index has no two entries on one day, so
    its dates strictly ascend.
  */
  lemma IndexStrictlyAscending(t: Table, user: int, year: int)
    requires TableValid(t)
    ensures var r := EntriesInYear(t.rows, user, year);
      forall i, j :: 0 <= i < j < |r| ==> r[i].date < r[j].date
  {
    OneUserRowsDistinctDates(t, user, EntriesInYear(t.rows, user, year));
  }
}
