/** The special-day handlers of backend/routes.py: listing, creating,
    updating and deleting a user's anniversaries and plan days, and the
    list of those coming up in the next `days` days. The `special_days`
    table is a class whose `rows` are in insertion order; every query is
    filtered by the current user, and a handler that raises leaves the
    table as it was. `today` is the server's `date.today()`. */
module SpecialDays {
  import opened Common
  import opened Strings
  import opened Gregorian
  import opened Models

  /** The body of `POST /special-days`. */
  datatype SpecialDayCreate = SpecialDayCreate(
    title: string, date: string, kind: string, repeatYearly: bool, notifyDaysBefore: int)

  /** A create request that gives only the required fields. */
  function CreateRequest(title: string, date: string): SpecialDayCreate {
    SpecialDayCreate(title, date, DefaultKind, true, 0)
  }

  /** The body of `PUT /special-days/{id}`: every field may be left out. */
  datatype SpecialDayUpdate = SpecialDayUpdate(
    title: Option<string>, date: Option<string>, kind: Option<string>,
    repeatYearly: Option<bool>, notifyDaysBefore: Option<int>)

  /** A special day as the handlers return it, dates in ISO text. */
  datatype SpecialDayView = SpecialDayView(
    id: int, title: string, date: string, kind: string,
    repeatYearly: bool, notifyDaysBefore: int, createdAt: string)

  /** One entry of the upcoming list. */
  datatype UpcomingView = UpcomingView(
    id: int, title: string, date: string, kind: string,
    repeatYearly: bool, notifyDaysBefore: int, daysUntil: int, originalDate: string)

  predicate RowValid(d: SpecialDay) {
    d.date.Valid() && d.createdAt.Valid()
  }

  function Ids(rows: seq<SpecialDay>): (ids: seq<int>)
    ensures |ids| == |rows| && forall k :: 0 <= k < |rows| ==> ids[k] == rows[k].id
  {
    seq(|rows|, k requires 0 <= k < |rows| => rows[k].id)
  }

  predicate RowsValid(rows: seq<SpecialDay>) {
    forall k :: 0 <= k < |rows| ==> RowValid(rows[k])
  }

  /** Every stored date exists (the handlers store only parsed dates) and
      ids are distinct (the primary key). */
  predicate TableValid(rows: seq<SpecialDay>) {
    RowsValid(rows) && Distinct(Ids(rows))
  }

  function ViewOf(d: SpecialDay): SpecialDayView
    requires RowValid(d)
  {
    SpecialDayView(d.id, d.title, IsoFormat(d.date), d.kind, d.repeatYearly, d.notifyDaysBefore,
                   IsoFormat(d.createdAt))
  }

  // ---------------------------------------------------------------------
  // Listing

  /** `.filter(SpecialDay.user_id == user).all()`: the user's rows, in
      order. */
  function Owned(rows: seq<SpecialDay>, userId: int): (r: seq<SpecialDay>)
    ensures |r| <= |rows|
    ensures forall k :: 0 <= k < |r| ==> r[k].userId == userId && r[k] in rows
  {
    if rows == [] then []
    else if rows[|rows| - 1].userId == userId
    then Owned(rows[..|rows| - 1], userId) + [rows[|rows| - 1]]
    else Owned(rows[..|rows| - 1], userId)
  }

  lemma {:induction false} OwnedAppend(rows: seq<SpecialDay>, d: SpecialDay, userId: int)
    ensures Owned(rows + [d], userId) == if d.userId == userId then Owned(rows, userId) + [d] else Owned(rows, userId)
  {
    assert (rows + [d])[..|rows|] == rows;
  }

  /** Every row of the user is listed. */
  lemma {:induction false} OwnedComplete(rows: seq<SpecialDay>, userId: int, k: nat)
    requires k < |rows| && rows[k].userId == userId
    ensures rows[k] in Owned(rows, userId)
  {
    if k < |rows| - 1 {
      var init := rows[..|rows| - 1];
      assert init[k] == rows[k];
      OwnedComplete(init, userId, k);
    }
  }

  lemma OwnedValid(rows: seq<SpecialDay>, userId: int)
    requires RowsValid(rows)
    ensures RowsValid(Owned(rows, userId))
    ensures forall k :: 0 <= k < |Owned(rows, userId)| ==> RowValid(Owned(rows, userId)[k])
  {
  }

  lemma DistinctSnoc(ids: seq<int>, x: int)
    requires Distinct(ids) && forall i :: 0 <= i < |ids| ==> ids[i] != x
    ensures Distinct(ids + [x])
  {
  }

  /** The user's rows keep the table's ids distinct. */
  lemma {:induction false} OwnedDistinct(rows: seq<SpecialDay>, userId: int)
    requires Distinct(Ids(rows))
    ensures Distinct(Ids(Owned(rows, userId)))
  {
    if rows != [] {
      var n := |rows| - 1;
      var init := rows[..n];
      assert Ids(init) == Ids(rows)[..n];
      OwnedDistinct(init, userId);
      var o := Owned(init, userId);
      if rows[n].userId == userId {
        forall i | 0 <= i < |o| ensures Ids(o)[i] != rows[n].id {
          var m :| 0 <= m < n && init[m] == o[i];
          assert Ids(rows)[m] != Ids(rows)[n];
        }
        assert Ids(o + [rows[n]]) == Ids(o) + [rows[n].id];
        DistinctSnoc(Ids(o), rows[n].id);
      }
    }
  }

  /** The views of some rows, in order. */
  function Views(ds: seq<SpecialDay>): (r: seq<SpecialDayView>)
    requires RowsValid(ds)
    ensures |r| == |ds|
  {
    seq(|ds|, k requires 0 <= k < |ds| => ViewOf(ds[k]))
  }

  lemma ViewsAppend(ds: seq<SpecialDay>, d: SpecialDay)
    requires RowsValid(ds) && RowValid(d)
    ensures RowsValid(ds + [d]) && Views(ds + [d]) == Views(ds) + [ViewOf(d)]
  {
    assert forall k :: 0 <= k < |ds| ==> (ds + [d])[k] == ds[k];
  }

  /** The views of the user's rows are the views of exactly the rows the
      user owns. */
  lemma OwnedViews(rows: seq<SpecialDay>, userId: int)
    requires RowsValid(rows)
    ensures RowsValid(Owned(rows, userId))
    ensures forall k :: 0 <= k < |rows| && rows[k].userId == userId ==> ViewOf(rows[k]) in Views(Owned(rows, userId))
    ensures forall v :: v in Views(Owned(rows, userId)) ==>
      exists k :: 0 <= k < |rows| && rows[k].userId == userId && v == ViewOf(rows[k])
  {
    OwnedValid(rows, userId);
    var owned := Owned(rows, userId);
    forall k | 0 <= k < |rows| && rows[k].userId == userId ensures ViewOf(rows[k]) in Views(owned) {
      OwnedComplete(rows, userId, k);
      var j :| 0 <= j < |owned| && owned[j] == rows[k];
      assert Views(owned)[j] == ViewOf(rows[k]);
    }
    forall v | v in Views(owned)
      ensures exists k :: 0 <= k < |rows| && rows[k].userId == userId && v == ViewOf(rows[k])
    {
      var j :| 0 <= j < |owned| && Views(owned)[j] == v;
      assert owned[j] in rows;
      var k :| 0 <= k < |rows| && rows[k] == owned[j];
      assert v == ViewOf(rows[k]);
    }
  }

  /** `GET /special-days`: the user's rows as views, in table order; every
      row of the user is listed and nothing else. */
  function ListSpecialDays(rows: seq<SpecialDay>, userId: int): (r: seq<SpecialDayView>)
    requires RowsValid(rows)
    ensures |r| <= |rows|
    ensures forall k :: 0 <= k < |rows| && rows[k].userId == userId ==> ViewOf(rows[k]) in r
    ensures forall v :: v in r ==> exists k :: 0 <= k < |rows| && rows[k].userId == userId && v == ViewOf(rows[k])
  {
    OwnedViews(rows, userId);
    Views(Owned(rows, userId))
  }

  /** `.filter(id, user).first()`: the row with that id, if it is the
      user's. */
  function Find(rows: seq<SpecialDay>, userId: int, id: int): (r: Option<nat>)
    ensures r.Some? ==> r.value < |rows| && rows[r.value].id == id && rows[r.value].userId == userId
    ensures r.None? ==> forall k :: 0 <= k < |rows| ==> !(rows[k].id == id && rows[k].userId == userId)
  {
    if rows == [] then None
    else if rows[0].id == id && rows[0].userId == userId then Some(0)
    else match Find(rows[1..], userId, id)
      case None => None
      case Some(i) => Some(i + 1)
  }

  // ---------------------------------------------------------------------
  // Update

  /** The field-by-field merge of `update_special_day`: each field given in
      the request replaces the stored one; `date` is the parsed date, when
      one was given. */
  function Merged(d: SpecialDay, upd: SpecialDayUpdate, date: Option<Date>): (m: SpecialDay)
    ensures m.id == d.id && m.userId == d.userId && m.createdAt == d.createdAt
    ensures upd.title.None? ==> m.title == d.title
    ensures upd.title.Some? ==> m.title == upd.title.value
    ensures date.None? ==> m.date == d.date
    ensures date.Some? ==> m.date == date.value
    ensures upd.kind.None? ==> m.kind == d.kind
    ensures upd.kind.Some? ==> m.kind == upd.kind.value
    ensures upd.repeatYearly.None? ==> m.repeatYearly == d.repeatYearly
    ensures upd.repeatYearly.Some? ==> m.repeatYearly == upd.repeatYearly.value
    ensures upd.notifyDaysBefore.None? ==> m.notifyDaysBefore == d.notifyDaysBefore
    ensures upd.notifyDaysBefore.Some? ==> m.notifyDaysBefore == upd.notifyDaysBefore.value
  {
    d.(title := if upd.title.Some? then upd.title.value else d.title,
       date := if date.Some? then date.value else d.date,
       kind := if upd.kind.Some? then upd.kind.value else d.kind,
       repeatYearly := if upd.repeatYearly.Some? then upd.repeatYearly.value else d.repeatYearly,
       notifyDaysBefore := if upd.notifyDaysBefore.Some? then upd.notifyDaysBefore.value else d.notifyDaysBefore)
  }

  /** The date an update request carries, parsed; None when it carries
      none. */
  function UpdateDate(upd: SpecialDayUpdate): Option<Date> {
    if upd.date.Some? then StrptimeYmd(upd.date.value) else None
  }

  /** What `update_special_day` answers: 404 unless the id is one of the
      user's rows, 400 for a date that strptime refuses, else the merged
      row at the same place. */
  function UpdateOutcome(rows: seq<SpecialDay>, userId: int, id: int, upd: SpecialDayUpdate)
    : (r: Result<seq<SpecialDay>>)
    ensures Find(rows, userId, id).None? ==> r == Err(NotFound)
    ensures Find(rows, userId, id).Some? && upd.date.Some? && StrptimeYmd(upd.date.value).None? ==>
      r == Err(BadRequest(InvalidDateFormat))
    ensures r.Ok? <==> Find(rows, userId, id).Some? && (upd.date.Some? ==> StrptimeYmd(upd.date.value).Some?)
    ensures r.Ok? ==>
      var i := Find(rows, userId, id).value;
      |r.value| == |rows| && r.value[i] == Merged(rows[i], upd, UpdateDate(upd))
      && forall k :: 0 <= k < |rows| && k != i ==> r.value[k] == rows[k]
  {
    match Find(rows, userId, id)
    case None => Err(NotFound)
    case Some(i) =>
      if upd.date.Some? && UpdateDate(upd).None? then Err(BadRequest(InvalidDateFormat))
      else Ok(rows[i := Merged(rows[i], upd, UpdateDate(upd))])
  }

  /** Sending the same update twice changes nothing the second time. */
  lemma MergeIdempotent(d: SpecialDay, upd: SpecialDayUpdate, date: Option<Date>)
    ensures Merged(Merged(d, upd, date), upd, date) == Merged(d, upd, date)
  {
  }

  /** An empty update leaves the row as it is. */
  lemma MergeEmpty(d: SpecialDay)
    ensures Merged(d, SpecialDayUpdate(None, None, None, None, None), None) == d
  {
  }

  /** A successful update keeps the table valid and touches one row only. */
  lemma UpdateKeepsTableValid(rows: seq<SpecialDay>, userId: int, id: int, upd: SpecialDayUpdate)
    requires TableValid(rows) && UpdateOutcome(rows, userId, id, upd).Ok?
    ensures var after := UpdateOutcome(rows, userId, id, upd).value;
      TableValid(after) && |after| == |rows|
      && forall k :: 0 <= k < |rows| && rows[k].id != id ==> after[k] == rows[k]
  {
    var i := Find(rows, userId, id).value;
    var after := UpdateOutcome(rows, userId, id, upd).value;
    assert Ids(after) == Ids(rows);
    forall k | 0 <= k < |rows| ensures RowValid(after[k]) {
      if k == i {
        assert RowValid(rows[i]);
      }
    }
  }

  /** The merged row is what a successful update commits. */
  lemma UpdateCommitted(rows: seq<SpecialDay>, userId: int, id: int, upd: SpecialDayUpdate, day: SpecialDay)
    requires TableValid(rows) && Find(rows, userId, id).Some?
    requires upd.date.Some? ==> UpdateDate(upd).Some?
    requires day == Merged(rows[Find(rows, userId, id).value], upd, UpdateDate(upd))
    ensures UpdateOutcome(rows, userId, id, upd) == Ok(rows[Find(rows, userId, id).value := day])
    ensures TableValid(rows[Find(rows, userId, id).value := day]) && RowValid(day)
  {
    UpdateKeepsTableValid(rows, userId, id, upd);
  }

  // ---------------------------------------------------------------------
  // Create and delete

  /** The row `create_special_day` inserts: the request's fields, the
      parsed date, today as creation date, and an id no row has. */
  function CreatedRow(rows: seq<SpecialDay>, userId: int, req: SpecialDayCreate, date: Date, today: Date)
    : (d: SpecialDay)
    ensures d.userId == userId && d.title == req.title && d.date == date && d.kind == req.kind
    ensures d.repeatYearly == req.repeatYearly && d.notifyDaysBefore == req.notifyDaysBefore && d.createdAt == today
    ensures forall k :: 0 <= k < |rows| ==> rows[k].id != d.id
  {
    SpecialDay(NextId(Ids(rows)), userId, req.title, date, req.kind, req.repeatYearly,
               req.notifyDaysBefore, today)
  }

  /** The created row takes an id no other row has. */
  lemma CreateKeepsTableValid(rows: seq<SpecialDay>, userId: int, req: SpecialDayCreate, date: Date, today: Date)
    requires TableValid(rows) && date.Valid() && today.Valid()
    ensures TableValid(rows + [CreatedRow(rows, userId, req, date, today)])
  {
    var d := CreatedRow(rows, userId, req, date, today);
    assert Ids(rows + [d]) == Ids(rows) + [NextId(Ids(rows))];
    NextIdKeepsDistinct(Ids(rows));
  }

  /** Appending a row adds its view at the end of its owner's list only. */
  lemma ListAppend(rows: seq<SpecialDay>, d: SpecialDay, userId: int)
    requires RowsValid(rows) && RowValid(d)
    ensures RowsValid(rows + [d])
    ensures ListSpecialDays(rows + [d], userId) ==
      if d.userId == userId then ListSpecialDays(rows, userId) + [ViewOf(d)] else ListSpecialDays(rows, userId)
  {
    ViewsAppend(rows, d);
    OwnedAppend(rows, d, userId);
    OwnedValid(rows, userId);
    if d.userId == userId {
      ViewsAppend(Owned(rows, userId), d);
    }
  }

  /** A created row appears at the end of its owner's list and of no one
      else's. */
  lemma CreateThenList(rows: seq<SpecialDay>, userId: int, other: int, req: SpecialDayCreate,
                       date: Date, today: Date)
    requires TableValid(rows) && date.Valid() && today.Valid() && other != userId
    ensures var d := CreatedRow(rows, userId, req, date, today);
      TableValid(rows + [d])
      && ListSpecialDays(rows + [d], userId) == ListSpecialDays(rows, userId) + [ViewOf(d)]
      && ListSpecialDays(rows + [d], other) == ListSpecialDays(rows, other)
  {
    var d := CreatedRow(rows, userId, req, date, today);
    CreateKeepsTableValid(rows, userId, req, date, today);
    ListAppend(rows, d, userId);
    ListAppend(rows, d, other);
  }

  /** Removes row `i`. */
  function RemoveAt(rows: seq<SpecialDay>, i: nat): (r: seq<SpecialDay>)
    requires i < |rows|
    ensures |r| == |rows| - 1
    ensures forall k :: 0 <= k < i ==> r[k] == rows[k]
    ensures forall k :: i <= k < |r| ==> r[k] == rows[k + 1]
  {
    rows[..i] + rows[i + 1..]
  }

  /** After a delete no row has that id any more, and every other row is
      kept, in order. */
  lemma DeleteRemovesOnlyThat(rows: seq<SpecialDay>, userId: int, id: int)
    requires TableValid(rows) && Find(rows, userId, id).Some?
    ensures var after := RemoveAt(rows, Find(rows, userId, id).value);
      TableValid(after)
      && (forall k :: 0 <= k < |after| ==> after[k].id != id)
      && (forall k :: 0 <= k < |rows| && rows[k].id != id ==> rows[k] in after)
  {
    var i := Find(rows, userId, id).value;
    var after := RemoveAt(rows, i);
    forall a, b | 0 <= a < b < |after| ensures Ids(after)[a] != Ids(after)[b] {
      var a', b' := if a < i then a else a + 1, if b < i then b else b + 1;
      assert Ids(rows)[a'] != Ids(rows)[b'];
    }
    forall k | 0 <= k < |after| ensures after[k].id != id {
      var k' := if k < i then k else k + 1;
      assert Ids(rows)[k'] != Ids(rows)[i];
    }
    forall k | 0 <= k < |rows| && rows[k].id != id ensures rows[k] in after {
      if k < i {
        assert after[k] == rows[k];
      } else {
        assert after[k - 1] == rows[k];
      }
    }
  }

  // ---------------------------------------------------------------------
  // Upcoming days

  /** `date(today.year, today.month, today.day + days)`: the end of the
      window, built in today's month (line 542). */
  function WindowEnd(today: Date, days: int): (r: Option<Date>)
    ensures today.Valid() ==> (r.Some? <==> 1 <= today.day + days <= DaysInMonth(today.year, today.month))
    ensures r.Some? ==>
      r.value.Valid() && r.value.year == today.year && r.value.month == today.month
      && r.value.day == today.day + days
  {
    MakeDate(today.year, today.month, today.day + days)
  }

  /** How a candidate date is tested: against an end date (the code as
      written) or against a number of days (the evidently intended
      `today + timedelta(days)`). */
  datatype Window = EndDate(end: Date) | Span(days: int)

  predicate InWindow(w: Window, today: Date, t: Date)
    requires today.Valid() && t.Valid() && (w.EndDate? ==> w.end.Valid())
  {
    match w
    case EndDate(end) => LessEq(today, t) && LessEq(t, end)
    case Span(n) => LessEq(today, t) && DaysBetween(t, today) <= n
  }

  /** This year's date with the stored month and day, or next year's when
      this year's has passed and the day repeats; None where `date()`
      raises. */
  function Projected(d: SpecialDay, today: Date): (r: Option<Date>)
    ensures r.Some? ==> r.value.Valid()
    ensures r.Some? ==>
      r.value.month == d.date.month && r.value.day == d.date.day
      && (r.value.year == today.year || (r.value.year == today.year + 1 && d.repeatYearly))
    ensures r.Some? && r.value.year == today.year + 1 ==>
      d.repeatYearly && Less(Date(today.year, d.date.month, d.date.day), today)
    ensures d.repeatYearly && r.Some? ==> LessEq(today, r.value)
    ensures !d.repeatYearly ==> r == MakeDate(today.year, d.date.month, d.date.day)
    ensures r.None? <==>
      MakeDate(today.year, d.date.month, d.date.day).None?
      || (d.repeatYearly && Less(Date(today.year, d.date.month, d.date.day), today)
          && MakeDate(today.year + 1, d.date.month, d.date.day).None?)
  {
    match MakeDate(today.year, d.date.month, d.date.day)
    case None => None
    case Some(t) =>
      if Less(t, today) && d.repeatYearly then MakeDate(today.year + 1, d.date.month, d.date.day)
      else Some(t)
  }

  /** One pass of the upcoming loop: an error where `date()` raises, the
      entry when the date is in the window, nothing otherwise. */
  function Candidate(d: SpecialDay, today: Date, w: Window): (r: Result<Option<UpcomingView>>)
    requires RowValid(d) && today.Valid() && (w.EndDate? ==> w.end.Valid())
    ensures r.Err? <==> Projected(d, today).None?
    ensures r.Err? ==> r.error == InternalError
    ensures Projected(d, today).Some? ==> (r == Ok(None) <==> !InWindow(w, today, Projected(d, today).value))
    ensures r.Ok? && r.value.Some? ==>
      var v := r.value.value;
      var t := Projected(d, today).value;
      v.id == d.id && v.title == d.title && v.kind == d.kind && v.repeatYearly == d.repeatYearly
      && v.notifyDaysBefore == d.notifyDaysBefore
      && v.date == IsoFormat(t) && v.originalDate == IsoFormat(d.date)
      && v.daysUntil == DaysBetween(t, today) && 0 <= v.daysUntil
  {
    match Projected(d, today)
    case None => Err(InternalError)
    case Some(t) =>
      if InWindow(w, today, t)
      then Ok(Some(UpcomingView(d.id, d.title, IsoFormat(t), d.kind, d.repeatYearly, d.notifyDaysBefore,
                                DaysBetween(t, today), IsoFormat(d.date))))
      else Ok(None)
  }

  function Candidates(ds: seq<SpecialDay>, today: Date, w: Window): (rs: seq<Result<Option<UpcomingView>>>)
    requires forall k :: 0 <= k < |ds| ==> RowValid(ds[k])
    requires today.Valid() && (w.EndDate? ==> w.end.Valid())
    ensures |rs| == |ds| && forall k :: 0 <= k < |ds| ==> rs[k] == Candidate(ds[k], today, w)
  {
    seq(|ds|, k requires 0 <= k < |ds| => Candidate(ds[k], today, w))
  }

  /** Runs the passes in order: the first error ends the request; otherwise
      the kept entries, in order. */
  function Gather(rs: seq<Result<Option<UpcomingView>>>): Result<seq<UpcomingView>> {
    if rs == [] then Ok([])
    else
      match Gather(rs[..|rs| - 1])
      case Err(e) => Err(e)
      case Ok(l) =>
        match rs[|rs| - 1]
        case Err(e) => Err(e)
        case Ok(None) => Ok(l)
        case Ok(Some(v)) => Ok(l + [v])
  }

  /** The passes that keep the entry `v`. */
  ghost function KeptAt(rs: seq<Result<Option<UpcomingView>>>, v: UpcomingView): set<int> {
    set k | 0 <= k < |rs| && rs[k] == Ok(Some(v))
  }

  /** One more pass keeps `v` once more, or not at all. */
  lemma KeptAtStep(rs: seq<Result<Option<UpcomingView>>>, v: UpcomingView)
    requires rs != []
    ensures |KeptAt(rs, v)| == |KeptAt(rs[..|rs| - 1], v)| + if rs[|rs| - 1] == Ok(Some(v)) then 1 else 0
  {
    var n := |rs| - 1;
    var a := KeptAt(rs[..n], v);
    assert forall k :: 0 <= k < n ==> rs[..n][k] == rs[k];
    if rs[n] == Ok(Some(v)) {
      assert KeptAt(rs, v) == a + {n};
      assert n !in a;
    } else {
      assert KeptAt(rs, v) == a;
    }
  }

  lemma {:induction false} GatherPrefixError(rs: seq<Result<Option<UpcomingView>>>, j: nat)
    requires j <= |rs| && Gather(rs[..j]).Err?
    ensures Gather(rs) == Gather(rs[..j])
    decreases |rs| - j
  {
    if j < |rs| {
      var init := rs[..|rs| - 1];
      assert init[..j] == rs[..j];
      GatherPrefixError(init, j);
    } else {
      assert rs[..j] == rs;
    }
  }

  /** One more pass extends the gathered prefix. */
  lemma GatherStep(rs: seq<Result<Option<UpcomingView>>>, i: nat, l: seq<UpcomingView>)
    requires i < |rs| && Gather(rs[..i]) == Ok(l)
    ensures Gather(rs[..i + 1]) == match rs[i]
      case Err(e) => Err(e)
      case Ok(None) => Ok(l)
      case Ok(Some(v)) => Ok(l + [v])
  {
    assert rs[..i + 1][..i] == rs[..i];
  }

  /** The gathered list holds exactly the kept entries, each as many times
      as passes kept it, and only errors that some pass raised end the
      request. */
  lemma {:induction false} GatherContents(rs: seq<Result<Option<UpcomingView>>>)
    ensures Gather(rs).Ok? <==> forall k :: 0 <= k < |rs| ==> rs[k].Ok?
    ensures Gather(rs).Ok? ==> forall v :: v in Gather(rs).value <==> exists k :: 0 <= k < |rs| && rs[k] == Ok(Some(v))
    ensures Gather(rs).Ok? ==> forall v :: multiset(Gather(rs).value)[v] == |KeptAt(rs, v)|
    ensures Gather(rs).Err? ==> exists k :: 0 <= k < |rs| && rs[k] == Err(Gather(rs).error)
  {
    if rs != [] {
      var init := rs[..|rs| - 1];
      assert forall k :: 0 <= k < |init| ==> init[k] == rs[k];
      GatherContents(init);
      if Gather(rs).Ok? {
        forall v ensures v in Gather(rs).value <==> exists k :: 0 <= k < |rs| && rs[k] == Ok(Some(v)) {
          if v in Gather(rs).value && v !in Gather(init).value {
            assert rs[|rs| - 1] == Ok(Some(v));
          }
        }
      }
    }
    GatherCounts(rs);
  }

  lemma {:induction false} GatherCounts(rs: seq<Result<Option<UpcomingView>>>)
    ensures Gather(rs).Ok? ==> forall v :: multiset(Gather(rs).value)[v] == |KeptAt(rs, v)|
  {
    if rs != [] && Gather(rs).Ok? {
      var init := rs[..|rs| - 1];
      GatherCounts(init);
      var l := Gather(init).value;
      forall v ensures multiset(Gather(rs).value)[v] == |KeptAt(rs, v)| {
        KeptAtStep(rs, v);
      }
    }
  }

  /** No two entries share an id. */
  predicate DistinctIds(s: seq<UpcomingView>) {
    forall i, j :: 0 <= i < j < |s| ==> s[i].id != s[j].id
  }

  lemma DistinctIdsSnoc(s: seq<UpcomingView>, v: UpcomingView)
    requires DistinctIds(s) && forall u :: u in s ==> u.id != v.id
    ensures DistinctIds(s + [v])
  {
    forall i, j | 0 <= i < j < |s| + 1 ensures (s + [v])[i].id != (s + [v])[j].id {
      if j == |s| { assert (s + [v])[i] == s[i] && s[i] in s; }
    }
  }

  lemma DistinctIdsCons(v: UpcomingView, s: seq<UpcomingView>)
    requires DistinctIds(s) && forall u :: u in s ==> u.id != v.id
    ensures DistinctIds([v] + s)
  {
    forall i, j | 0 <= i < j < |s| + 1 ensures ([v] + s)[i].id != ([v] + s)[j].id {
      if i == 0 { assert ([v] + s)[j] == s[j - 1] && s[j - 1] in s; }
    }
  }

  /** Over rows with distinct ids, the passes keep entries with distinct ids:
      each entry carries the id of the row it came from. */
  lemma {:induction false} GatherDistinctIds(ds: seq<SpecialDay>, today: Date, w: Window)
    requires RowsValid(ds) && Distinct(Ids(ds)) && today.Valid() && (w.EndDate? ==> w.end.Valid())
    ensures Gather(Candidates(ds, today, w)).Ok? ==> DistinctIds(Gather(Candidates(ds, today, w)).value)
  {
    var rs := Candidates(ds, today, w);
    if ds != [] && Gather(rs).Ok? {
      var n := |ds| - 1;
      var init := ds[..n];
      assert forall k :: 0 <= k < n ==> init[k] == ds[k] && Ids(init)[k] == Ids(ds)[k];
      assert Candidates(init, today, w) == rs[..n];
      GatherDistinctIds(init, today, w);
      GatherContents(rs[..n]);
      var l := Gather(rs[..n]).value;
      if rs[n].value.Some? {
        var v := rs[n].value.value;
        forall u | u in l ensures u.id != v.id {
          var k :| 0 <= k < n && rs[..n][k] == Ok(Some(u));
          assert rs[k] == Candidate(ds[k], today, w);
          assert Ids(ds)[k] != Ids(ds)[n];
        }
        DistinctIdsSnoc(l, v);
      }
    }
  }

  /** `upcoming.sort(key=lambda x: x["date"])`: a stable sort on the ISO
      text, written as insertion sort (an entry goes before the first one
      whose date is not smaller). */
  function Insert(x: UpcomingView, s: seq<UpcomingView>): (r: seq<UpcomingView>)
    ensures multiset(r) == multiset(s) + multiset{x}
  {
    if s == [] || !StrLess(s[0].date, x.date) then [x] + s
    else
      assert s == [s[0]] + s[1..];
      [s[0]] + Insert(x, s[1..])
  }

  function SortByDate(s: seq<UpcomingView>): (r: seq<UpcomingView>)
    ensures multiset(r) == multiset(s)
  {
    if s == [] then []
    else
      assert s == [s[0]] + s[1..];
      Insert(s[0], SortByDate(s[1..]))
  }

  /** `a <= b` on strings. */
  predicate DateLeq(a: string, b: string) {
    !StrLess(b, a)
  }

  predicate SortedByDate(s: seq<UpcomingView>) {
    forall i, j :: 0 <= i < j < |s| ==> DateLeq(s[i].date, s[j].date)
  }

  lemma DateLeqTrans(a: string, b: string, c: string)
    requires DateLeq(a, b) && DateLeq(b, c)
    ensures DateLeq(a, c)
  {
    if StrLess(c, a) && a != b && b != c {
      StrLessTotal(a, b);
      StrLessTotal(b, c);
      StrLessTransitive(c, a, b);
    }
  }

  lemma {:induction false} InsertSorted(x: UpcomingView, s: seq<UpcomingView>)
    requires SortedByDate(s)
    ensures SortedByDate(Insert(x, s))
  {
    if s == [] || !StrLess(s[0].date, x.date) {
      forall j | 0 < j < |s| ensures DateLeq(x.date, s[j].date) {
        DateLeqTrans(x.date, s[0].date, s[j].date);
      }
    } else {
      InsertSorted(x, s[1..]);
      var r := Insert(x, s[1..]);
      StrLessIrreflexive(s[0].date);
      forall j | 0 <= j < |r| ensures DateLeq(s[0].date, r[j].date) {
        assert r[j] in multiset(r);
        if r[j] != x {
          assert r[j] in multiset(s[1..]);
          var k :| 0 <= k < |s[1..]| && s[1..][k] == r[j];
          assert s[k + 1] == r[j];
        } else {
          StrLessTotal(s[0].date, x.date);
          if StrLess(x.date, s[0].date) {
            StrLessTransitive(x.date, s[0].date, x.date);
            StrLessIrreflexive(x.date);
          }
        }
      }
    }
  }

  lemma {:induction false} SortByDateSorted(s: seq<UpcomingView>)
    ensures SortedByDate(SortByDate(s))
  {
    if s != [] {
      SortByDateSorted(s[1..]);
      InsertSorted(s[0], SortByDate(s[1..]));
    }
  }

  /** An entry whose id is new keeps the ids distinct when inserted. */
  lemma {:induction false} InsertDistinctIds(x: UpcomingView, s: seq<UpcomingView>)
    requires DistinctIds(s) && forall u :: u in s ==> u.id != x.id
    ensures DistinctIds(Insert(x, s))
  {
    if s == [] || !StrLess(s[0].date, x.date) {
      DistinctIdsCons(x, s);
    } else {
      var t := Insert(x, s[1..]);
      assert forall u :: u in s[1..] ==> u in s;
      InsertDistinctIds(x, s[1..]);
      forall u | u in t ensures u.id != s[0].id {
        assert u in multiset(t);
        if u != x {
          assert u in multiset(s[1..]);
          var k :| 0 <= k < |s[1..]| && s[1..][k] == u;
          assert s[k + 1] == u;
        } else {
          assert s[0] in s;
        }
      }
      DistinctIdsCons(s[0], t);
    }
  }

  /** Sorting keeps the ids distinct. */
  lemma {:induction false} SortByDateDistinctIds(s: seq<UpcomingView>)
    requires DistinctIds(s)
    ensures DistinctIds(SortByDate(s))
  {
    if s != [] {
      var t := SortByDate(s[1..]);
      SortByDateDistinctIds(s[1..]);
      forall u | u in t ensures u.id != s[0].id {
        assert u in multiset(t);
        assert u in multiset(s[1..]);
        var k :| 0 <= k < |s[1..]| && s[1..][k] == u;
        assert s[k + 1] == u;
      }
      InsertDistinctIds(s[0], t);
    }
  }

  /** The entries of `s` with ISO date `k`, in order. */
  function WithDate(s: seq<UpcomingView>, k: string): seq<UpcomingView> {
    if s == [] then []
    else (if s[0].date == k then [s[0]] else []) + WithDate(s[1..], k)
  }

  lemma WithDateCons(x: UpcomingView, s: seq<UpcomingView>, k: string)
    ensures WithDate([x] + s, k) == (if x.date == k then [x] else []) + WithDate(s, k)
  {
    assert ([x] + s)[0] == x && ([x] + s)[1..] == s;
  }

  /** Two entries with different dates can trade places in front of a
      `WithDate` list: at most one of them has date `k`. */
  lemma WithDateSwap(a: UpcomingView, b: UpcomingView, t: seq<UpcomingView>, k: string)
    requires a.date != b.date
    ensures (if a.date == k then [a] else []) + ((if b.date == k then [b] else []) + t)
         == (if b.date == k then [b] else []) + ((if a.date == k then [a] else []) + t)
  {
  }

  lemma {:induction false} InsertWithDate(x: UpcomingView, s: seq<UpcomingView>, k: string)
    ensures WithDate(Insert(x, s), k) == (if x.date == k then [x] else []) + WithDate(s, k)
  {
    if s == [] || !StrLess(s[0].date, x.date) {
      WithDateCons(x, s, k);
    } else {
      var tail := Insert(x, s[1..]);
      WithDateCons(s[0], tail, k);
      InsertWithDate(x, s[1..], k);
      assert s == [s[0]] + s[1..];
      WithDateCons(s[0], s[1..], k);
      StrLessIrreflexive(x.date);
      WithDateSwap(s[0], x, WithDate(s[1..], k), k);
    }
  }

  /** Entries with equal dates keep their relative order: `list.sort` is
      stable. */
  lemma {:induction false} SortByDateStable(s: seq<UpcomingView>, k: string)
    ensures WithDate(SortByDate(s), k) == WithDate(s, k)
  {
    if s != [] {
      SortByDateStable(s[1..], k);
      InsertWithDate(s[0], SortByDate(s[1..]), k);
    }
  }

  /** Sorting keeps exactly the entries it was given. */
  lemma SortByDateMembers(s: seq<UpcomingView>)
    ensures forall v :: v in SortByDate(s) <==> v in s
  {
    assert forall v :: v in SortByDate(s) <==> v in multiset(SortByDate(s));
    assert forall v :: v in s <==> v in multiset(s);
  }

  /** What `GET /special-days/upcoming` answers when the window is tested
      with `w`: it fails (with a 500) exactly when one of the user's days
      has no date this year or, when repeating and passed, next year;
      otherwise it holds exactly the user's entries in the window, sorted
      by date, each once: the number of times an entry is listed is the
      number of passes that kept it, and no two entries share an id. */
  function UpcomingWith(rows: seq<SpecialDay>, userId: int, today: Date, w: Window)
    : (r: Result<seq<UpcomingView>>)
    requires TableValid(rows) && today.Valid() && (w.EndDate? ==> w.end.Valid())
    ensures RowsValid(Owned(rows, userId))
    ensures var owned := Owned(rows, userId);
      r.Ok? <==> forall k :: 0 <= k < |owned| ==> Projected(owned[k], today).Some?
    ensures r.Err? ==> r.error == InternalError
    ensures r.Ok? ==>
      var owned := Owned(rows, userId);
      SortedByDate(r.value)
      && forall v :: v in r.value <==> exists k :: 0 <= k < |owned| && Candidate(owned[k], today, w) == Ok(Some(v))
    ensures r.Ok? ==>
      var owned := Owned(rows, userId);
      (forall v :: multiset(r.value)[v] == |KeptAt(Candidates(owned, today, w), v)|)
      && DistinctIds(r.value)
  {
    OwnedValid(rows, userId);
    OwnedDistinct(rows, userId);
    var rs := Candidates(Owned(rows, userId), today, w);
    GatherContents(rs);
    GatherDistinctIds(Owned(rows, userId), today, w);
    match Gather(rs)
    case Err(e) => Err(e)
    case Ok(l) =>
      SortByDateSorted(l);
      SortByDateMembers(l);
      SortByDateDistinctIds(l);
      Ok(SortByDate(l))
  }

  /** The answer for a window in terms of the passes over the user's rows. */
  lemma UpcomingWithGather(rows: seq<SpecialDay>, userId: int, today: Date, w: Window)
    requires TableValid(rows) && today.Valid() && (w.EndDate? ==> w.end.Valid())
    ensures RowsValid(Owned(rows, userId))
    ensures UpcomingWith(rows, userId, today, w) ==
      match Gather(Candidates(Owned(rows, userId), today, w))
      case Err(e) => Err(e)
      case Ok(l) => Ok(SortByDate(l))
  {
  }

  /** Against an end date in today's month, a date is in the window exactly
      when it is at most `days` days away. */
  lemma WindowsAgree(today: Date, days: int, t: Date)
    requires today.Valid() && t.Valid() && WindowEnd(today, days).Some?
    ensures InWindow(EndDate(WindowEnd(today, days).value), today, t) <==> InWindow(Span(days), today, t)
  {
    var end := WindowEnd(today, days).value;
    DaysBetweenSameMonth(today, end);
    OrdinalOrder(t, end);
  }

  /** Whenever the end date exists, testing against it answers what
      testing against `days` does. */
  lemma EndDateAgreesWithSpan(rows: seq<SpecialDay>, userId: int, today: Date, days: int)
    requires TableValid(rows) && today.Valid() && WindowEnd(today, days).Some?
    ensures UpcomingWith(rows, userId, today, EndDate(WindowEnd(today, days).value)) ==
            UpcomingWith(rows, userId, today, Span(days))
  {
    var end := WindowEnd(today, days).value;
    var owned := Owned(rows, userId);
    OwnedValid(rows, userId);
    forall k | 0 <= k < |owned|
      ensures Candidate(owned[k], today, EndDate(end)) == Candidate(owned[k], today, Span(days))
    {
      if Projected(owned[k], today).Some? {
        WindowsAgree(today, days, Projected(owned[k], today).value);
      }
    }
    assert Candidates(owned, today, EndDate(end)) == Candidates(owned, today, Span(days));
  }

  /** The handler as written: a 500 when the window end does not exist in
      today's month, and otherwise the answer of the intended handler. */
  function Upcoming(rows: seq<SpecialDay>, userId: int, today: Date, days: int): (r: Result<seq<UpcomingView>>)
    requires TableValid(rows) && today.Valid()
    ensures WindowEnd(today, days).None? ==> r == Err(InternalError)
    ensures WindowEnd(today, days).Some? ==> r == UpcomingIntended(rows, userId, today, days)
  {
    match WindowEnd(today, days)
    case None => Err(InternalError)
    case Some(end) =>
      EndDateAgreesWithSpan(rows, userId, today, days);
      UpcomingWith(rows, userId, today, EndDate(end))
  }

  /** The handler as written, once the window end exists. */
  lemma UpcomingAtEnd(rows: seq<SpecialDay>, userId: int, today: Date, days: int, end: Date)
    requires TableValid(rows) && today.Valid() && WindowEnd(today, days) == Some(end)
    ensures end.Valid() && Upcoming(rows, userId, today, days) == UpcomingWith(rows, userId, today, EndDate(end))
  {
  }

  /** Every entry of the list for a `days`-day window is between 0 and
      `days` days away. */
  lemma SpanBounds(rows: seq<SpecialDay>, userId: int, today: Date, days: int)
    requires TableValid(rows) && today.Valid()
    ensures var r := UpcomingWith(rows, userId, today, Span(days));
      r.Ok? ==> forall v :: v in r.value ==> 0 <= v.daysUntil <= days
  {
    var r := UpcomingWith(rows, userId, today, Span(days));
    var owned := Owned(rows, userId);
    if r.Ok? {
      forall v | v in r.value ensures 0 <= v.daysUntil <= days {
        var k :| 0 <= k < |owned| && Candidate(owned[k], today, Span(days)) == Ok(Some(v));
      }
    }
  }

  /** The handler as evidently intended: the window is `days` days long, so
      every entry listed is between 0 and `days` days away; no day is
      listed twice. */
  function UpcomingIntended(rows: seq<SpecialDay>, userId: int, today: Date, days: int)
    : (r: Result<seq<UpcomingView>>)
    requires TableValid(rows) && today.Valid()
    ensures r.Err? ==> r.error == InternalError
    ensures r.Ok? ==> SortedByDate(r.value) && DistinctIds(r.value)
    ensures r.Ok? ==> forall v :: v in r.value ==> 0 <= v.daysUntil <= days
  {
    SpanBounds(rows, userId, today, days);
    UpcomingWith(rows, userId, today, Span(days))
  }

  /** A pass whose projection `date()` refuses ends the whole request with
      a 500. */
  lemma PassFails(all: seq<SpecialDay>, today: Date, w: Window, i: nat, upcoming: seq<UpcomingView>)
    requires RowsValid(all) && today.Valid() && (w.EndDate? ==> w.end.Valid()) && i < |all|
    requires Gather(Candidates(all, today, w)[..i]) == Ok(upcoming)
    requires Projected(all[i], today).None?
    ensures Gather(Candidates(all, today, w)) == Err(InternalError)
  {
    var rs := Candidates(all, today, w);
    GatherStep(rs, i, upcoming);
    GatherPrefixError(rs, i + 1);
  }

  /** A pass whose projected date is `t` keeps the entry exactly when `t`
      is in the window. */
  lemma PassKeeps(all: seq<SpecialDay>, today: Date, w: Window, i: nat, upcoming: seq<UpcomingView>, t: Date)
    requires RowsValid(all) && today.Valid() && (w.EndDate? ==> w.end.Valid()) && i < |all|
    requires Gather(Candidates(all, today, w)[..i]) == Ok(upcoming)
    requires Projected(all[i], today) == Some(t)
    ensures t.Valid()
    ensures var d := all[i];
      Gather(Candidates(all, today, w)[..i + 1]) ==
      if InWindow(w, today, t)
      then Ok(upcoming + [UpcomingView(d.id, d.title, IsoFormat(t), d.kind, d.repeatYearly, d.notifyDaysBefore,
                                       DaysBetween(t, today), IsoFormat(d.date))])
      else Ok(upcoming)
  {
    var rs := Candidates(all, today, w);
    GatherStep(rs, i, upcoming);
  }

  /** The loop of `GET /special-days/upcoming` over one user's rows: stops
      with 500 at the first date `date()` refuses, and otherwise collects,
      in order, the entries in the window. */
  method CollectUpcoming(all: seq<SpecialDay>, today: Date, w: Window) returns (r: Result<seq<UpcomingView>>)
    requires RowsValid(all) && today.Valid() && (w.EndDate? ==> w.end.Valid())
    ensures r == Gather(Candidates(all, today, w))
  {
    var upcoming: seq<UpcomingView> := [];
    var i := 0;
    while i < |all|
      invariant 0 <= i <= |all|
      invariant Gather(Candidates(all, today, w)[..i]) == Ok(upcoming)
    {
      var day := all[i];
      var thisYearDate := MakeDate(today.year, day.date.month, day.date.day);
      if thisYearDate.None? {
        PassFails(all, today, w, i, upcoming);
        return Err(InternalError);
      }
      if Less(thisYearDate.value, today) && day.repeatYearly {
        thisYearDate := MakeDate(today.year + 1, day.date.month, day.date.day);
        if thisYearDate.None? {
          PassFails(all, today, w, i, upcoming);
          return Err(InternalError);
        }
      }
      var t := thisYearDate.value;
      PassKeeps(all, today, w, i, upcoming, t);
      if InWindow(w, today, t) {
        var daysUntil := DaysBetween(t, today);
        upcoming := upcoming + [UpcomingView(day.id, day.title, IsoFormat(t), day.kind, day.repeatYearly,
                                             day.notifyDaysBefore, daysUntil, IsoFormat(day.date))];
      }
      i := i + 1;
    }
    assert Candidates(all, today, w)[..i] == Candidates(all, today, w);
    r := Ok(upcoming);
  }

  /** A February 29 of one of the user's days makes the whole request fail
      in a year without one. */
  lemma LeapDayFails(rows: seq<SpecialDay>, userId: int, today: Date, days: int, k: nat)
    requires TableValid(rows) && today.Valid() && !IsLeapYear(today.year)
    requires k < |rows| && rows[k].userId == userId && rows[k].date.month == 2 && rows[k].date.day == 29
    ensures Upcoming(rows, userId, today, days) == Err(InternalError)
  {
    if WindowEnd(today, days).Some? {
      OwnedComplete(rows, userId, k);
      var owned := Owned(rows, userId);
      var j :| 0 <= j < |owned| && owned[j] == rows[k];
      assert Projected(owned[j], today).None?;
    }
  }

  /** In a leap year after 29 February, a repeating 29 February is moved
      to next year, which has none, so the whole request fails as well. */
  lemma RepeatingLeapDayFails(rows: seq<SpecialDay>, userId: int, today: Date, days: int, k: nat)
    requires TableValid(rows) && today.Valid() && IsLeapYear(today.year) && Less(Date(today.year, 2, 29), today)
    requires k < |rows| && rows[k].userId == userId && rows[k].repeatYearly
    requires rows[k].date.month == 2 && rows[k].date.day == 29
    ensures Upcoming(rows, userId, today, days) == Err(InternalError)
  {
    if today.year < MaxYear {
      Feb29Exists(today.year + 1);
    }
    if WindowEnd(today, days).Some? {
      OwnedComplete(rows, userId, k);
      var owned := Owned(rows, userId);
      var j :| 0 <= j < |owned| && owned[j] == rows[k];
      assert Projected(owned[j], today).None?;
    }
  }

  /** On 30 January a 7-day window ends on "37 January", which `date()`
      refuses, so the request fails although 2 February is three days
      away. */
  lemma WindowEndPastMonthEnd(rows: seq<SpecialDay>, userId: int, y: int)
    requires TableValid(rows) && MinYear <= y <= MaxYear
    ensures WindowEnd(Date(y, 1, 30), 7).None?
    ensures Upcoming(rows, userId, Date(y, 1, 30), 7) == Err(InternalError)
    ensures InWindow(Span(7), Date(y, 1, 30), Date(y, 2, 2))
    ensures DaysBetween(Date(y, 2, 2), Date(y, 1, 30)) == 3
  {
    assert DaysBeforeMonth(y, 2) == 31;
  }

  /** The intended window does list such a day: on 30 January, any day
      stored as 2 February is three days away. */
  lemma IntendedListsNextMonth(d: SpecialDay, y: int)
    requires RowValid(d) && d.date.month == 2 && d.date.day == 2 && MinYear <= y <= MaxYear
    ensures var r := UpcomingIntended([d], d.userId, Date(y, 1, 30), 7);
      r.Ok? && |r.value| == 1 && r.value[0].daysUntil == 3 && r.value[0].date == IsoFormat(Date(y, 2, 2))
  {
    var v := NextMonthCandidate(d, y);
    SingleRowUpcoming(d, Date(y, 1, 30), Span(7), v);
  }

  /** A table of one row lists that row's entry. */
  lemma SingleRowUpcoming(d: SpecialDay, today: Date, w: Window, v: UpcomingView)
    requires RowValid(d) && today.Valid() && (w.EndDate? ==> w.end.Valid())
    requires Candidate(d, today, w) == Ok(Some(v))
    ensures TableValid([d]) && UpcomingWith([d], d.userId, today, w) == Ok([v])
  {
    assert [d][..0] == [];
    assert Owned([d], d.userId) == [d];
    var rs := Candidates([d], today, w);
    assert rs == [Ok(Some(v))];
    assert rs[..0] == [] && rs[..1] == rs;
    GatherStep(rs, 0, []);
    assert SortByDate([v]) == [v] by {
      assert [v][1..] == [];
    }
  }

  lemma NextMonthCandidate(d: SpecialDay, y: int) returns (v: UpcomingView)
    requires RowValid(d) && d.date.month == 2 && d.date.day == 2 && MinYear <= y <= MaxYear
    ensures Candidate(d, Date(y, 1, 30), Span(7)) == Ok(Some(v))
    ensures v.daysUntil == 3 && v.date == IsoFormat(Date(y, 2, 2))
  {
    var today, t := Date(y, 1, 30), Date(y, 2, 2);
    assert DaysBetween(t, today) == 3 by {
      assert DaysBeforeMonth(y, 2) == 31;
    }
    assert Projected(d, today) == Some(t);
    v := UpcomingView(d.id, d.title, IsoFormat(t), d.kind, d.repeatYearly, d.notifyDaysBefore, 3, IsoFormat(d.date));
  }

  class SpecialDayTable {
    var rows: seq<SpecialDay>

    constructor ()
      ensures rows == []
    {
      rows := [];
    }

    /** `POST /special-days` */
    method Create(userId: int, req: SpecialDayCreate, today: Date) returns (r: Result<SpecialDayView>)
      requires TableValid(rows) && today.Valid()
      modifies this
      ensures TableValid(rows)
      ensures StrptimeYmd(req.date).None? ==> r == Err(BadRequest(InvalidDateFormat)) && rows == old(rows)
      ensures StrptimeYmd(req.date).Some? ==>
        var d := CreatedRow(old(rows), userId, req, StrptimeYmd(req.date).value, today);
        rows == old(rows) + [d] && r == Ok(ViewOf(d))
    {
      var date := StrptimeYmd(req.date);
      if date.None? {
        return Err(BadRequest(InvalidDateFormat));
      }
      var d := SpecialDay(NextId(Ids(rows)), userId, req.title, date.value, req.kind, req.repeatYearly,
                          req.notifyDaysBefore, today);
      CreateKeepsTableValid(rows, userId, req, date.value, today);
      rows := rows + [d];
      r := Ok(ViewOf(d));
    }

    /** `PUT /special-days/{id}`: the fetched row is changed field by field
        and committed only when every step succeeded. */
    method Update(userId: int, id: int, upd: SpecialDayUpdate) returns (r: Result<SpecialDayView>)
      requires TableValid(rows)
      modifies this
      ensures TableValid(rows)
      ensures var out := UpdateOutcome(old(rows), userId, id, upd);
        (out.Err? ==> r == Err(out.error) && rows == old(rows))
        && (out.Ok? ==> rows == out.value && r == Ok(ViewOf(rows[Find(old(rows), userId, id).value])))
    {
      var found := Find(rows, userId, id);
      if found.None? {
        return Err(NotFound);
      }
      var i := found.value;
      var day := rows[i];
      if upd.title.Some? {
        day := day.(title := upd.title.value);
      }
      if upd.date.Some? {
        var date := StrptimeYmd(upd.date.value);
        if date.None? {
          return Err(BadRequest(InvalidDateFormat));
        }
        day := day.(date := date.value);
      }
      if upd.kind.Some? {
        day := day.(kind := upd.kind.value);
      }
      if upd.repeatYearly.Some? {
        day := day.(repeatYearly := upd.repeatYearly.value);
      }
      if upd.notifyDaysBefore.Some? {
        day := day.(notifyDaysBefore := upd.notifyDaysBefore.value);
      }
      assert day == Merged(rows[i], upd, UpdateDate(upd));
      UpdateCommitted(rows, userId, id, upd, day);
      rows := rows[i := day];
      r := Ok(ViewOf(day));
    }

    /** `DELETE /special-days/{id}` */
    method Delete(userId: int, id: int) returns (r: Result<()>)
      requires TableValid(rows)
      modifies this
      ensures TableValid(rows)
      ensures Find(old(rows), userId, id).None? ==> r == Err(NotFound) && rows == old(rows)
      ensures Find(old(rows), userId, id).Some? ==>
        r == Ok(()) && rows == RemoveAt(old(rows), Find(old(rows), userId, id).value)
    {
      var found := Find(rows, userId, id);
      if found.None? {
        return Err(NotFound);
      }
      DeleteRemovesOnlyThat(rows, userId, id);
      rows := RemoveAt(rows, found.value);
      r := Ok(());
    }

    /** `GET /special-days/upcoming?days=...` as written: the window ends
        on `date(today.year, today.month, today.day + days)`, and a day
        number past the end of today's month is a 500. */
    method GetUpcoming(userId: int, today: Date, days: int) returns (r: Result<seq<UpcomingView>>)
      requires TableValid(rows) && today.Valid()
      ensures r == Upcoming(rows, userId, today, days)
    {
      var endDate := MakeDate(today.year, today.month, today.day + days);
      if endDate.None? {
        return Err(InternalError);
      }
      var end := endDate.value;
      UpcomingAtEnd(rows, userId, today, days, end);
      var all := Owned(rows, userId);
      UpcomingWithGather(rows, userId, today, EndDate(end));
      var found := CollectUpcoming(all, today, EndDate(end));
      match found
      case Err(e) => r := Err(e);
      case Ok(upcoming) => r := Ok(SortByDate(upcoming));
    }

    /** The same handler with the evidently intended window, ending `days`
        days after today (`today + timedelta(days)`). */
    method GetUpcomingIntended(userId: int, today: Date, days: int) returns (r: Result<seq<UpcomingView>>)
      requires TableValid(rows) && today.Valid()
      ensures r == UpcomingIntended(rows, userId, today, days)
    {
      var all := Owned(rows, userId);
      UpcomingWithGather(rows, userId, today, Span(days));
      var found := CollectUpcoming(all, today, Span(days));
      match found
      case Err(e) => r := Err(e);
      case Ok(upcoming) => r := Ok(SortByDate(upcoming));
    }
  }
}
