/** The database records (backend/models.py): one datatype per table, with
    the column defaults that SQLAlchemy fills in when a row is inserted
    without a value, the `year_week_key` property and the rule by which
    SQLite numbers new rows. */
module Models {
  import opened Common
  import opened Strings
  import opened Gregorian

  /** `users`: `username` is unique and non-null, `hashed_password` is
      non-null; `dob`, `nickname` and `avatar_url` are nullable. */
  datatype User = User(
    id: int,
    username: string,
    hashedPassword: string,
    isAdmin: bool,
    dob: Option<Date>,
    lifeExpectancy: int,
    nickname: Option<string>,
    avatarUrl: Option<string>)

  /** `events`: `user_id`, `year_idx` and `week_idx` are non-null; the two
      image columns hold JSON text or nothing. */
  datatype Event = Event(
    id: int,
    userId: int,
    yearIdx: int,
    weekIdx: int,
    title: Option<string>,
    content: Option<string>,
    mood: string,
    imageOriginal: Option<string>,
    imageThumbnail: Option<string>,
    updatedAt: Date)

  /** `goals`: `text` is non-null. */
  datatype Goal = Goal(id: int, userId: int, text: string, completed: bool)

  /** `special_days`: `title`, `date` and `type` (here `kind`) are
      non-null. */
  datatype SpecialDay = SpecialDay(
    id: int,
    userId: int,
    title: string,
    date: Date,
    kind: string,
    repeatYearly: bool,
    notifyDaysBefore: int,
    createdAt: Date)

  // ---------------------------------------------------------------------
  // Column defaults

  const DefaultLifeExpectancy := 100
  const DefaultMood := "neutral"
  const DefaultKind := "anniversary"

  /** A user row inserted with only its required columns: not an
      administrator, life expectancy 100, no birth date, nickname or
      avatar. */
  function NewUser(id: int, username: string, hashedPassword: string): (u: User)
    ensures u.id == id && u.username == username && u.hashedPassword == hashedPassword
    ensures !u.isAdmin && u.lifeExpectancy == 100 && u.dob.None? && u.nickname.None? && u.avatarUrl.None?
  {
    User(id, username, hashedPassword, false, None, DefaultLifeExpectancy, None, None)
  }

  /** An event row inserted with only its key columns, on day `today`:
      mood `neutral`, no title, content or images. */
  function NewEvent(id: int, userId: int, yearIdx: int, weekIdx: int, today: Date): (e: Event)
    ensures e.id == id && e.userId == userId && e.yearIdx == yearIdx && e.weekIdx == weekIdx
    ensures e.mood == "neutral" && e.title.None? && e.content.None?
    ensures e.imageOriginal.None? && e.imageThumbnail.None? && e.updatedAt == today
  {
    Event(id, userId, yearIdx, weekIdx, None, None, DefaultMood, None, None, today)
  }

  /** A goal row: not completed. */
  function NewGoal(id: int, userId: int, text: string): (g: Goal)
    ensures g.id == id && g.userId == userId && g.text == text && !g.completed
  {
    Goal(id, userId, text, false)
  }

  /** A special-day row inserted with only its required columns, on day
      `today`: type `anniversary`, repeated yearly, no advance notice. */
  function NewSpecialDay(id: int, userId: int, title: string, date: Date, today: Date): (d: SpecialDay)
    ensures d.id == id && d.userId == userId && d.title == title && d.date == date
    ensures d.kind == "anniversary" && d.repeatYearly && d.notifyDaysBefore == 0 && d.createdAt == today
  {
    SpecialDay(id, userId, title, date, DefaultKind, true, 0, today)
  }

  // ---------------------------------------------------------------------
  // Row ids

  function MaxOf(ids: seq<int>): (m: int)
    requires ids != []
    ensures forall k :: 0 <= k < |ids| ==> ids[k] <= m
    ensures exists k :: 0 <= k < |ids| && ids[k] == m
  {
    if |ids| == 1 then ids[0]
    else
      var rest := MaxOf(ids[..|ids| - 1]);
      assert forall k :: 0 <= k < |ids| - 1 ==> ids[..|ids| - 1][k] == ids[k];
      if ids[|ids| - 1] >= rest then ids[|ids| - 1] else rest
  }

  /** The id SQLite gives a new row of an `INTEGER PRIMARY KEY` table: one
      more than the largest id in use, or 1 for an empty table. */
  function NextId(ids: seq<int>): (n: int)
    ensures forall k :: 0 <= k < |ids| ==> ids[k] < n
    ensures ids == [] ==> n == 1
    ensures ids != [] ==> exists k :: 0 <= k < |ids| && ids[k] == n - 1
  {
    if ids == [] then 1 else MaxOf(ids) + 1
  }

  predicate Distinct(ids: seq<int>) {
    forall i, j :: 0 <= i < j < |ids| ==> ids[i] != ids[j]
  }

  /** A fresh id keeps the ids of a table distinct. */
  lemma NextIdKeepsDistinct(ids: seq<int>)
    requires Distinct(ids)
    ensures Distinct(ids + [NextId(ids)])
  {
    var all := ids + [NextId(ids)];
    forall i, j | 0 <= i < j < |all| ensures all[i] != all[j] {
      if j == |ids| {
        assert all[i] == ids[i];
      } else {
        assert all[i] == ids[i] && all[j] == ids[j];
      }
    }
  }

  // ---------------------------------------------------------------------
  // year_week_key

  /** `f"{year_idx}-{week_idx}"` (the same text backend/routes.py builds
      for the keys of the events map). */
  function YearWeekKey(yearIdx: int, weekIdx: int): (k: string)
    ensures ParseYearWeekKey(k) == Some((yearIdx, weekIdx))
  {
    KeyTextParses(yearIdx, weekIdx);
    IntToString(yearIdx) + "-" + IntToString(weekIdx)
  }

  /** The first `-` at or after position `i`, or `|s|` when there is none. */
  function DashFrom(s: string, i: nat): (j: nat)
    requires i <= |s|
    ensures i <= j <= |s|
    ensures j < |s| ==> s[j] == '-'
    ensures forall k :: i <= k < j ==> s[k] != '-'
    decreases |s| - i
  {
    if i == |s| then i else if s[i] == '-' then i else DashFrom(s, i + 1)
  }

  /** Text that `int()` reads back: an optional `-` and then at least one
      digit. */
  predicate IsIntText(s: string) {
    |s| > 0
    && (s[0] == '-' ==> |s| > 1 && AllDigits(s[1..]))
    && (s[0] != '-' ==> AllDigits(s))
  }

  /** Splits a key at its first `-` after the leading sign position: the
      inverse of `YearWeekKey`. */
  function ParseYearWeekKey(k: string): Option<(int, int)> {
    if |k| == 0 then None
    else
      var j := DashFrom(k, 1);
      if j < |k| && IsIntText(k[..j]) && IsIntText(k[j + 1..])
      then Some((ParseInt(k[..j]), ParseInt(k[j + 1..])))
      else None
  }

  lemma IntTextOfInt(i: int)
    ensures IsIntText(IntToString(i))
    ensures ParseInt(IntToString(i)) == i
  {
    IntToStringRoundTrip(i);
    if i < 0 {
      assert IntToString(i)[1..] == NatToString(-i);
    }
  }

  /** The text of a key reads back as the year and week it was made from. */
  lemma KeyTextParses(yearIdx: int, weekIdx: int)
    ensures ParseYearWeekKey(IntToString(yearIdx) + "-" + IntToString(weekIdx)) == Some((yearIdx, weekIdx))
  {
    var a, b := IntToString(yearIdx), IntToString(weekIdx);
    var k := a + "-" + b;
    assert forall t :: 1 <= t < |a| ==> k[t] == a[t];
    assert k[|a|] == '-';
    assert DashFrom(k, 1) == |a|;
    assert k[..|a|] == a && k[|a| + 1..] == b;
    IntTextOfInt(yearIdx);
    IntTextOfInt(weekIdx);
  }

  /** Distinct (year, week) pairs have distinct keys, so the events map
      never merges two weeks. */
  lemma YearWeekKeyInjective(y1: int, w1: int, y2: int, w2: int)
    requires YearWeekKey(y1, w1) == YearWeekKey(y2, w2)
    ensures y1 == y2 && w1 == w2
  {
  }
}
