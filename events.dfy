/** The week-event handlers of backend/routes.py: `save_event`, which
    upserts the event of one (user, year, week) and stores its uploaded
    images, and `get_events`, which returns the user's events keyed
    `"year-week"`. The `events` table is a class whose `rows` are in
    insertion order (the order `.first()` and `.all()` see them). A handler
    that raises has its session closed without commit, so an error leaves
    the table as it was. `json.dumps` and `json.loads` are parameters. */
module EventStore {
  import opened Common
  import opened Gregorian
  import opened Models
  import opened Uploads

  /** The form fields of `POST /events`. */
  datatype EventForm = EventForm(
    yearIdx: int,
    weekIdx: int,
    title: Option<string>,
    content: Option<string>,
    mood: string,
    image: Option<Upload>,
    images: seq<Upload>)

  /** The parallel path lists built by the upload loop. */
  datatype ImageLists = ImageLists(originals: seq<string>, thumbnails: seq<string>)

  /** One entry of the `get_events` answer. `image` and `imageOriginal` are
      None when their list is empty. */
  datatype EventView = EventView(
    id: int,
    title: Option<string>,
    content: Option<string>,
    mood: string,
    image: Option<Json>,
    imageOriginal: Option<Json>,
    images: seq<Json>,
    imagesOriginal: seq<Json>)

  // ---------------------------------------------------------------------
  // The upload loop

  /** `images` when that list is non-empty, else the single legacy `image`,
      else nothing: the multi-image list wins over the single image. */
  function ChosenImages(form: EventForm): (us: seq<Upload>)
    ensures |form.images| > 0 ==> us == form.images
    ensures |form.images| == 0 && form.image.Some? ==> us == [form.image.value]
    ensures us == [] <==> |form.images| == 0 && form.image.None?
  {
    if |form.images| > 0 then form.images
    else if form.image.Some? then [form.image.value]
    else []
  }

  /** What each pass of the upload loop would produce, file by file. */
  function Outcomes(us: seq<Upload>, maxMb: int): (rs: seq<Result<StoredPaths>>)
    ensures |rs| == |us| && forall k :: 0 <= k < |us| ==> rs[k] == StoreUpload(us[k], maxMb)
  {
    seq(|us|, k requires 0 <= k < |us| => StoreUpload(us[k], maxMb))
  }

  /** Runs the passes in order: the first error ends the loop; otherwise
      each pass appends its two paths. */
  function Collect(rs: seq<Result<StoredPaths>>): (r: Result<ImageLists>)
    ensures r.Ok? ==> |r.value.originals| == |rs| && |r.value.thumbnails| == |rs|
  {
    if rs == [] then Ok(ImageLists([], []))
    else
      match Collect(rs[..|rs| - 1])
      case Err(e) => Err(e)
      case Ok(l) =>
        match rs[|rs| - 1]
        case Err(e) => Err(e)
        case Ok(p) => Ok(ImageLists(l.originals + [p.original], l.thumbnails + [p.thumbnail]))
  }

  /** The outcome of the upload loop over `us`: it succeeds exactly when
      every file is stored, and then entry `k` of both lists comes from file
      `k`; otherwise the error is that of the first file that fails. */
  function StoreAll(us: seq<Upload>, maxMb: int): (r: Result<ImageLists>)
    ensures r.Ok? <==> forall k :: 0 <= k < |us| ==> StoreUpload(us[k], maxMb).Ok?
    ensures r.Ok? ==>
      |r.value.originals| == |us| && |r.value.thumbnails| == |us|
      && forall k :: 0 <= k < |us| ==>
           r.value.originals[k] == StoreUpload(us[k], maxMb).value.original
           && r.value.thumbnails[k] == StoreUpload(us[k], maxMb).value.thumbnail
    ensures r.Err? ==> exists j :: 0 <= j < |us| && StoreUpload(us[j], maxMb) == Err(r.error)
                                   && forall k :: 0 <= k < j ==> StoreUpload(us[k], maxMb).Ok?
  {
    var rs := Outcomes(us, maxMb);
    CollectOk(rs);
    CollectFirstError(rs);
    Collect(rs)
  }

  /** The loop succeeds exactly when every pass does, and then the two
      lists are parallel: entry `k` of each comes from pass `k`. */
  lemma {:induction false} CollectOk(rs: seq<Result<StoredPaths>>)
    ensures Collect(rs).Ok? <==> forall k :: 0 <= k < |rs| ==> rs[k].Ok?
    ensures Collect(rs).Ok? ==>
      var l := Collect(rs).value;
      |l.originals| == |rs| && |l.thumbnails| == |rs|
      && forall k :: 0 <= k < |rs| ==>
           l.originals[k] == rs[k].value.original && l.thumbnails[k] == rs[k].value.thumbnail
  {
    if rs != [] {
      var init := rs[..|rs| - 1];
      assert forall k :: 0 <= k < |init| ==> init[k] == rs[k];
      CollectOk(init);
    }
  }

  /** A failing loop reports the error of the first pass that fails. */
  lemma {:induction false} CollectFirstError(rs: seq<Result<StoredPaths>>)
    ensures Collect(rs).Err? ==>
      exists j :: 0 <= j < |rs| && rs[j] == Err(Collect(rs).error)
                  && (forall k :: 0 <= k < j ==> rs[k].Ok?)
  {
    if Collect(rs).Ok? { return; }
    var init := rs[..|rs| - 1];
    assert forall k :: 0 <= k < |init| ==> init[k] == rs[k];
    if Collect(init).Err? {
      CollectFirstError(init);
      var j :| 0 <= j < |init| && init[j] == Err(Collect(init).error)
               && (forall k :: 0 <= k < j ==> init[k].Ok?);
      assert rs[j] == Err(Collect(rs).error);
    } else {
      CollectOk(init);
      assert rs[|rs| - 1] == Err(Collect(rs).error);
    }
  }

  /** Once a prefix of the passes fails, the whole loop fails the same way. */
  lemma {:induction false} CollectPrefixError(rs: seq<Result<StoredPaths>>, j: nat)
    requires j <= |rs| && Collect(rs[..j]).Err?
    ensures Collect(rs) == Collect(rs[..j])
    decreases |rs| - j
  {
    if j < |rs| {
      var init := rs[..|rs| - 1];
      assert init[..j] == rs[..j];
      CollectPrefixError(init, j);
    } else {
      assert rs[..j] == rs;
    }
  }

  /** One more pass extends the collected prefix. */
  lemma CollectStep(rs: seq<Result<StoredPaths>>, i: nat, l: ImageLists)
    requires i < |rs| && Collect(rs[..i]) == Ok(l)
    ensures Collect(rs[..i + 1]) == match rs[i]
      case Err(e) => Err(e)
      case Ok(p) => Ok(ImageLists(l.originals + [p.original], l.thumbnails + [p.thumbnail]))
  {
    assert rs[..i + 1][..i] == rs[..i];
  }

  /** The `for img in all_images` loop of `save_event`. */
  method ProcessUploads(us: seq<Upload>, maxMb: int) returns (r: Result<ImageLists>)
    ensures r == StoreAll(us, maxMb)
  {
    ghost var rs := Outcomes(us, maxMb);
    var originals: seq<string> := [];
    var thumbnails: seq<string> := [];
    var i := 0;
    while i < |us|
      invariant 0 <= i <= |us|
      invariant Collect(rs[..i]) == Ok(ImageLists(originals, thumbnails))
    {
      var paths := StoreUpload(us[i], maxMb);
      assert rs[i] == paths;
      CollectStep(rs, i, ImageLists(originals, thumbnails));
      if paths.Err? {
        CollectPrefixError(rs, i + 1);
        return Err(paths.error);
      }
      originals := originals + [paths.value.original];
      thumbnails := thumbnails + [paths.value.thumbnail];
      i := i + 1;
    }
    assert rs[..i] == rs;
    r := Ok(ImageLists(originals, thumbnails));
  }

  // ---------------------------------------------------------------------
  // The upsert

  predicate Matches(e: Event, userId: int, yearIdx: int, weekIdx: int) {
    e.userId == userId && e.yearIdx == yearIdx && e.weekIdx == weekIdx
  }

  /** `.filter(user, year, week).first()`: the first matching row. */
  function FirstMatch(rows: seq<Event>, userId: int, yearIdx: int, weekIdx: int): (r: Option<nat>)
    ensures r.Some? ==> r.value < |rows| && Matches(rows[r.value], userId, yearIdx, weekIdx)
    ensures r.Some? ==> forall k :: 0 <= k < r.value ==> !Matches(rows[k], userId, yearIdx, weekIdx)
    ensures r.None? ==> forall k :: 0 <= k < |rows| ==> !Matches(rows[k], userId, yearIdx, weekIdx)
  {
    if rows == [] then None
    else if Matches(rows[0], userId, yearIdx, weekIdx) then Some(0)
    else match FirstMatch(rows[1..], userId, yearIdx, weekIdx)
      case None => None
      case Some(i) => Some(i + 1)
  }

  function Ids(rows: seq<Event>): (ids: seq<int>)
    ensures |ids| == |rows| && forall k :: 0 <= k < |rows| ==> ids[k] == rows[k].id
  {
    seq(|rows|, k requires 0 <= k < |rows| => rows[k].id)
  }

  /** The row `save_event` commits: the existing event or a new one, with
      title, content, mood and date overwritten (even by None) and the image
      columns replaced only when some image was stored. */
  function SavedRow(rows: seq<Event>, userId: int, form: EventForm, lists: ImageLists,
                    today: Date, dumps: seq<string> -> string): (e: Event)
    ensures Matches(e, userId, form.yearIdx, form.weekIdx)
    ensures e.title == form.title && e.content == form.content && e.mood == form.mood && e.updatedAt == today
    ensures |lists.originals| > 0 ==>
      e.imageOriginal == Some(dumps(lists.originals)) && e.imageThumbnail == Some(dumps(lists.thumbnails))
    ensures |lists.originals| == 0 ==>
      match FirstMatch(rows, userId, form.yearIdx, form.weekIdx)
      case Some(i) => e.imageOriginal == rows[i].imageOriginal && e.imageThumbnail == rows[i].imageThumbnail
      case None => e.imageOriginal.None? && e.imageThumbnail.None?
    ensures match FirstMatch(rows, userId, form.yearIdx, form.weekIdx)
      case Some(i) => e.id == rows[i].id
      case None => forall k :: 0 <= k < |rows| ==> rows[k].id != e.id
  {
    var base := match FirstMatch(rows, userId, form.yearIdx, form.weekIdx)
      case Some(i) => rows[i]
      case None => NewEvent(NextId(Ids(rows)), userId, form.yearIdx, form.weekIdx, today);
    var e := base.(title := form.title, content := form.content, mood := form.mood, updatedAt := today);
    if |lists.originals| > 0
    then e.(imageOriginal := Some(dumps(lists.originals)), imageThumbnail := Some(dumps(lists.thumbnails)))
    else e
  }

  /** The table after a successful `save_event`: an existing (user, year,
      week) row is replaced in place and every other row is kept; without
      one, exactly one row is added at the end. */
  function Upserted(rows: seq<Event>, userId: int, form: EventForm, lists: ImageLists,
                    today: Date, dumps: seq<string> -> string): (after: seq<Event>)
    ensures var e := SavedRow(rows, userId, form, lists, today, dumps);
      match FirstMatch(rows, userId, form.yearIdx, form.weekIdx)
      case Some(i) =>
        |after| == |rows| && after[i] == e && forall k :: 0 <= k < |rows| && k != i ==> after[k] == rows[k]
      case None =>
        |after| == |rows| + 1 && after[..|rows|] == rows && after[|rows|] == e
  {
    var e := SavedRow(rows, userId, form, lists, today, dumps);
    match FirstMatch(rows, userId, form.yearIdx, form.weekIdx)
    case Some(i) => rows[i := e]
    case None => rows + [e]
  }

  /** The outcome of `save_event`: it succeeds exactly when every chosen
      file is stored, fails with the error of the first file that is not,
      and keeps a valid table valid. */
  function SaveOutcome(rows: seq<Event>, userId: int, form: EventForm, maxMb: int,
                       today: Date, dumps: seq<string> -> string): (r: Result<seq<Event>>)
    ensures var us := ChosenImages(form);
      r.Ok? <==> forall k :: 0 <= k < |us| ==> StoreUpload(us[k], maxMb).Ok?
    ensures var us := ChosenImages(form);
      r.Err? ==> exists j :: 0 <= j < |us| && StoreUpload(us[j], maxMb) == Err(r.error)
                             && forall k :: 0 <= k < j ==> StoreUpload(us[k], maxMb).Ok?
    ensures r.Ok? ==> |r.value| >= |rows|
    ensures r.Ok? && TableValid(rows) ==> TableValid(r.value)
  {
    match StoreAll(ChosenImages(form), maxMb)
    case Err(e) => Err(e)
    case Ok(lists) =>
      SaveKeepsTableValid(rows, userId, form, lists, today, dumps);
      Ok(Upserted(rows, userId, form, lists, today, dumps))
  }

  /** No two rows of one user share a (year, week). */
  predicate KeysUnique(rows: seq<Event>) {
    forall i, j :: 0 <= i < j < |rows| ==>
      !Matches(rows[j], rows[i].userId, rows[i].yearIdx, rows[i].weekIdx)
  }

  predicate TableValid(rows: seq<Event>) {
    Distinct(Ids(rows)) && KeysUnique(rows)
  }

  // ---------------------------------------------------------------------
  // get_events

  /** An image column as a list: nothing or empty text is `[]`, a JSON list
      is that list, any other JSON value is a one-element list, and text
      that is not JSON is a one-element list of that text. */
  function NormaliseColumn(col: Option<string>, loads: string -> Option<Json>): (r: seq<Json>)
    ensures r == [] <==> col.None? || col.value == [] || loads(col.value) == Some(JArray([]))
    ensures col.Some? && col.value != [] && loads(col.value).None? ==> r == [JString(col.value)]
    ensures col.Some? && col.value != [] && loads(col.value).Some? && loads(col.value).value.JArray? ==>
      r == loads(col.value).value.items
    ensures col.Some? && col.value != [] && loads(col.value).Some? && !loads(col.value).value.JArray? ==>
      r == [loads(col.value).value]
  {
    if col.None? || col.value == [] then []
    else match loads(col.value)
      case None => [JString(col.value)]
      case Some(JArray(items)) => items
      case Some(v) => [v]
  }

  function FirstOf(s: seq<Json>): (r: Option<Json>)
    ensures r.None? <==> s == []
    ensures r.Some? ==> r.value == s[0]
  {
    if s == [] then None else Some(s[0])
  }

  /** A row as `get_events` shows it: its own fields, both image columns
      normalised alike, and as main image the first of each list, if any. */
  function View(e: Event, loads: string -> Option<Json>): (v: EventView)
    ensures v.id == e.id && v.title == e.title && v.content == e.content && v.mood == e.mood
    ensures v.images == NormaliseColumn(e.imageThumbnail, loads)
    ensures v.imagesOriginal == NormaliseColumn(e.imageOriginal, loads)
    ensures v.image.Some? <==> |v.images| > 0
    ensures v.image.Some? ==> v.image.value == v.images[0]
    ensures v.imageOriginal.Some? <==> |v.imagesOriginal| > 0
    ensures v.imageOriginal.Some? ==> v.imageOriginal.value == v.imagesOriginal[0]
  {
    var thumbs := NormaliseColumn(e.imageThumbnail, loads);
    var origs := NormaliseColumn(e.imageOriginal, loads);
    EventView(e.id, e.title, e.content, e.mood, FirstOf(thumbs), FirstOf(origs), thumbs, origs)
  }

  function KeyOf(e: Event): string {
    YearWeekKey(e.yearIdx, e.weekIdx)
  }

  /** What one row contributes to the `get_events` answer: its key and its
      view, when it belongs to the user. */
  function Entry(e: Event, userId: int, loads: string -> Option<Json>): Option<(string, EventView)> {
    if e.userId == userId then Some((KeyOf(e), View(e, loads))) else None
  }

  function Entries(rows: seq<Event>, userId: int, loads: string -> Option<Json>)
    : (es: seq<Option<(string, EventView)>>)
    ensures |es| == |rows|
  {
    seq(|rows|, k requires 0 <= k < |rows| => Entry(rows[k], userId, loads))
  }

  /** Entry `i` is the last of the first `n` entries with its key. */
  predicate LastAt(es: seq<Option<(string, EventView)>>, n: nat, i: nat)
    requires i < n <= |es| && es[i].Some?
  {
    forall j :: i < j < n ==> !(es[j].Some? && es[j].value.0 == es[i].value.0)
  }

  /** The dictionary after storing the first `n` entries, one after the
      other. */
  function StoreEntries(es: seq<Option<(string, EventView)>>, n: nat): map<string, EventView>
    requires n <= |es|
  {
    if n == 0 then map[]
    else
      var m := StoreEntries(es, n - 1);
      if es[n - 1].Some? then m[es[n - 1].value.0 := es[n - 1].value.1] else m
  }

  /** The answer of `get_events`: its keys are exactly the weeks the user
      has an event for. */
  function EventsMap(rows: seq<Event>, userId: int, loads: string -> Option<Json>): (m: map<string, EventView>)
    ensures forall k :: k in m <==> exists i :: 0 <= i < |rows| && rows[i].userId == userId && KeyOf(rows[i]) == k
  {
    EntriesKeys(rows, userId, loads);
    StoreEntries(Entries(rows, userId, loads), |rows|)
  }

  /** The loop of `get_events`: each of the user's rows, in order, stores
      its view under its year-week key, a later row replacing an earlier
      one with the same key. */
  method CollectEvents(rows: seq<Event>, userId: int, loads: string -> Option<Json>)
    returns (result: map<string, EventView>)
    ensures result == StoreEntries(Entries(rows, userId, loads), |rows|)
  {
    result := map[];
    var i := 0;
    while i < |rows|
      invariant 0 <= i <= |rows|
      invariant result == StoreEntries(Entries(rows, userId, loads), i)
    {
      var entry := Entry(rows[i], userId, loads);
      StoreStep(rows, userId, loads, i);
      if entry.Some? {
        result := result[entry.value.0 := entry.value.1];
      }
      i := i + 1;
    }
  }

  /** Storing one more row's entry. */
  lemma StoreStep(rows: seq<Event>, userId: int, loads: string -> Option<Json>, i: nat)
    requires i < |rows|
    ensures var entry := Entry(rows[i], userId, loads);
      var m := StoreEntries(Entries(rows, userId, loads), i);
      StoreEntries(Entries(rows, userId, loads), i + 1) ==
        if entry.Some? then m[entry.value.0 := entry.value.1] else m
  {
  }

  /** The dictionary has exactly the keys of the stored entries. */
  lemma {:induction false} StoreEntriesKeys(es: seq<Option<(string, EventView)>>, n: nat, k: string)
    requires n <= |es|
    ensures k in StoreEntries(es, n) <==> exists i :: 0 <= i < n && es[i].Some? && es[i].value.0 == k
  {
    if n > 0 {
      StoreEntriesKeys(es, n - 1, k);
      if es[n - 1].Some? && es[n - 1].value.0 == k {
        assert k in StoreEntries(es, n);
      }
    }
  }

  /** Each key holds the value of the last entry stored under it. */
  lemma {:induction false} StoreEntriesLast(es: seq<Option<(string, EventView)>>, n: nat, i: nat)
    requires i < n <= |es| && es[i].Some? && LastAt(es, n, i)
    ensures es[i].value.0 in StoreEntries(es, n) && StoreEntries(es, n)[es[i].value.0] == es[i].value.1
  {
    if i < n - 1 {
      assert LastAt(es, n - 1, i);
      StoreEntriesLast(es, n - 1, i);
    }
  }

  /** The keys of the stored entries are exactly the weeks the user has
      an event for. */
  lemma EntriesKeys(rows: seq<Event>, userId: int, loads: string -> Option<Json>)
    ensures forall k :: k in StoreEntries(Entries(rows, userId, loads), |rows|) <==>
      exists i :: 0 <= i < |rows| && rows[i].userId == userId && KeyOf(rows[i]) == k
  {
    var es := Entries(rows, userId, loads);
    forall k ensures k in StoreEntries(es, |rows|) <==>
      exists i :: 0 <= i < |rows| && rows[i].userId == userId && KeyOf(rows[i]) == k
    {
      StoreEntriesKeys(es, |rows|, k);
      if k in StoreEntries(es, |rows|) {
        var i :| 0 <= i < |rows| && es[i].Some? && es[i].value.0 == k;
        assert rows[i].userId == userId && KeyOf(rows[i]) == k;
      }
      if exists i :: 0 <= i < |rows| && rows[i].userId == userId && KeyOf(rows[i]) == k {
        var i :| 0 <= i < |rows| && rows[i].userId == userId && KeyOf(rows[i]) == k;
        assert es[i].Some? && es[i].value.0 == k;
      }
    }
  }

  /** A user's row that no later row of the user shares a week with is
      what the answer shows for that week: a later row replaces an
      earlier one. */
  lemma EventsMapLast(rows: seq<Event>, userId: int, loads: string -> Option<Json>, i: nat)
    requires i < |rows| && rows[i].userId == userId
    requires forall j :: i < j < |rows| && rows[j].userId == userId ==> KeyOf(rows[j]) != KeyOf(rows[i])
    ensures KeyOf(rows[i]) in EventsMap(rows, userId, loads)
    ensures EventsMap(rows, userId, loads)[KeyOf(rows[i])] == View(rows[i], loads)
  {
    var es := Entries(rows, userId, loads);
    assert es[i] == Some((KeyOf(rows[i]), View(rows[i], loads)));
    StoreEntriesLast(es, |rows|, i);
  }

  /** With unique (user, year, week) rows every row of the user is the last
      one with its key. */
  lemma UniqueKeyIsLast(rows: seq<Event>, userId: int, loads: string -> Option<Json>, i: nat)
    requires KeysUnique(rows) && i < |rows| && rows[i].userId == userId
    ensures LastAt(Entries(rows, userId, loads), |rows|, i)
  {
    var es := Entries(rows, userId, loads);
    forall j | i < j < |rows| && es[j].Some?
      ensures es[j].value.0 != es[i].value.0
    {
      if KeyOf(rows[j]) == KeyOf(rows[i]) {
        YearWeekKeyInjective(rows[j].yearIdx, rows[j].weekIdx, rows[i].yearIdx, rows[i].weekIdx);
      }
    }
  }

  class EventTable {
    var rows: seq<Event>

    constructor ()
      ensures rows == []
    {
      rows := [];
    }

    /** `POST /events` for the user `userId`. */
    method SaveEvent(userId: int, form: EventForm, maxMb: int, today: Date,
                     dumps: seq<string> -> string) returns (r: Result<()>)
      modifies this
      ensures var out := SaveOutcome(old(rows), userId, form, maxMb, today, dumps);
        (r.Ok? <==> out.Ok?)
        && (out.Ok? ==> rows == out.value)
        && (out.Err? ==> r == Err(out.error) && rows == old(rows))
    {
      var found := FirstMatch(rows, userId, form.yearIdx, form.weekIdx);
      var event := if found.Some? then rows[found.value]
                   else NewEvent(NextId(Ids(rows)), userId, form.yearIdx, form.weekIdx, today);
      event := event.(title := form.title, content := form.content, mood := form.mood, updatedAt := today);
      var lists := ProcessUploads(ChosenImages(form), maxMb);
      if lists.Err? {
        return Err(lists.error);
      }
      if |lists.value.originals| > 0 {
        event := event.(imageOriginal := Some(dumps(lists.value.originals)),
                        imageThumbnail := Some(dumps(lists.value.thumbnails)));
      }
      if found.Some? {
        rows := rows[found.value := event];
      } else {
        rows := rows + [event];
      }
      r := Ok(());
    }

    /** `GET /events` for the user `userId`. */
    method GetEvents(userId: int, loads: string -> Option<Json>) returns (result: map<string, EventView>)
      ensures result == EventsMap(rows, userId, loads)
    {
      result := CollectEvents(rows, userId, loads);
    }
  }

  // ---------------------------------------------------------------------
  // Properties of save_event

  /** `save_event` keeps ids distinct and (user, year, week) unique. */
  lemma SaveKeepsTableValid(rows: seq<Event>, userId: int, form: EventForm, lists: ImageLists,
                            today: Date, dumps: seq<string> -> string)
    ensures TableValid(rows) ==> TableValid(Upserted(rows, userId, form, lists, today, dumps))
  {
    var after := Upserted(rows, userId, form, lists, today, dumps);
    if !TableValid(rows) { return; }
    match FirstMatch(rows, userId, form.yearIdx, form.weekIdx)
    case Some(i) =>
      assert Ids(after) == Ids(rows);
      forall a, b | 0 <= a < b < |after|
        ensures !Matches(after[b], after[a].userId, after[a].yearIdx, after[a].weekIdx)
      {
        if a != i && b != i {
          assert after[a] == rows[a] && after[b] == rows[b];
        } else if a == i {
          assert after[b] == rows[b];
        } else {
          assert after[a] == rows[a];
        }
      }
    case None =>
      assert Ids(after) == Ids(rows) + [NextId(Ids(rows))];
      NextIdKeepsDistinct(Ids(rows));
      forall a, b | 0 <= a < b < |after|
        ensures !Matches(after[b], after[a].userId, after[a].yearIdx, after[a].weekIdx)
      {
        assert after[a] == rows[a];
        if b < |rows| {
          assert after[b] == rows[b];
        }
      }
  }

  /** What json.loads gives back for the text json.dumps made of a list of
      paths. */
  predicate DumpsLoadsPaths(dumps: seq<string> -> string, loads: string -> Option<Json>, paths: seq<string>) {
    dumps(paths) != [] && loads(dumps(paths)) == Some(JArray(JStrings(paths)))
  }

  /** The saved row seen through `get_events`. */
  lemma SavedView(rows: seq<Event>, userId: int, form: EventForm, lists: ImageLists, today: Date,
                  dumps: seq<string> -> string, loads: string -> Option<Json>)
    ensures var v := View(SavedRow(rows, userId, form, lists, today, dumps), loads);
      v.title == form.title && v.content == form.content && v.mood == form.mood
      && (|lists.originals| > 0 && DumpsLoadsPaths(dumps, loads, lists.originals)
          && DumpsLoadsPaths(dumps, loads, lists.thumbnails) ==>
            v.imagesOriginal == JStrings(lists.originals) && v.images == JStrings(lists.thumbnails))
  {
  }

  /** Where the saved row sits in the new table. */
  lemma SavedRowIndex(rows: seq<Event>, userId: int, form: EventForm, lists: ImageLists,
                      today: Date, dumps: seq<string> -> string) returns (i: nat)
    ensures var after := Upserted(rows, userId, form, lists, today, dumps);
      i < |after| && after[i] == SavedRow(rows, userId, form, lists, today, dumps)
      && after[i].userId == userId && KeyOf(after[i]) == YearWeekKey(form.yearIdx, form.weekIdx)
  {
    i := match FirstMatch(rows, userId, form.yearIdx, form.weekIdx)
      case Some(i) => i
      case None => |rows|;
  }

  /** A saved week reads back through `get_events`: its key is present and
      shows the form's fields, and the images stored by this request come
      back in upload order. */
  lemma SaveThenGet(rows: seq<Event>, userId: int, form: EventForm, lists: ImageLists, today: Date,
                    dumps: seq<string> -> string, loads: string -> Option<Json>)
    requires TableValid(rows)
    ensures var m := EventsMap(Upserted(rows, userId, form, lists, today, dumps), userId, loads);
      YearWeekKey(form.yearIdx, form.weekIdx) in m
      && var v := m[YearWeekKey(form.yearIdx, form.weekIdx)];
      v.title == form.title && v.content == form.content && v.mood == form.mood
      && (|lists.originals| > 0 && DumpsLoadsPaths(dumps, loads, lists.originals)
          && DumpsLoadsPaths(dumps, loads, lists.thumbnails) ==>
            v.imagesOriginal == JStrings(lists.originals) && v.images == JStrings(lists.thumbnails))
  {
    var after := Upserted(rows, userId, form, lists, today, dumps);
    var m := EventsMap(after, userId, loads);
    var e := SavedRow(rows, userId, form, lists, today, dumps);
    SaveKeepsTableValid(rows, userId, form, lists, today, dumps);
    var i := SavedRowIndex(rows, userId, form, lists, today, dumps);
    UniqueKeyIsLast(after, userId, loads, i);
    assert Entries(after, userId, loads)[i] == Some((KeyOf(e), View(e, loads)));
    StoreEntriesLast(Entries(after, userId, loads), |after|, i);
    assert m[YearWeekKey(form.yearIdx, form.weekIdx)] == View(e, loads);
    SavedView(rows, userId, form, lists, today, dumps, loads);
  }
}
