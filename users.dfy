/** The user handlers of backend/routes.py: registration by an administrator,
    the profile update and the avatar upload. The `users` table is a class
    whose `rows` are in insertion order; the signed-in user is the row at
    index `me` (the one `get_current_user` resolved from the token). A
    handler that raises leaves the table as it was. */
module Users {
  import opened Common
  import opened Strings
  import opened Gregorian
  import opened Models

  function Ids(rows: seq<User>): (ids: seq<int>)
    ensures |ids| == |rows| && forall k :: 0 <= k < |rows| ==> ids[k] == rows[k].id
  {
    seq(|rows|, k requires 0 <= k < |rows| => rows[k].id)
  }

  /** The first row with that username, if any. */
  function FindByName(rows: seq<User>, username: string): (r: Option<nat>)
    ensures r.Some? ==> (r.value < |rows| && rows[r.value].username == username
      && forall k :: 0 <= k < r.value ==> rows[k].username != username)
    ensures r.None? ==> forall k :: 0 <= k < |rows| ==> rows[k].username != username
  {
    if rows == [] then None
    else if rows[0].username == username then Some(0)
    else match FindByName(rows[1..], username)
      case None => None
      case Some(i) => Some(i + 1)
  }

  predicate UsernamesUnique(rows: seq<User>) {
    forall i, j :: 0 <= i < j < |rows| ==> rows[i].username != rows[j].username
  }

  /** The primary key and the unique index on `username`. */
  predicate TableValid(rows: seq<User>) {
    Distinct(Ids(rows)) && UsernamesUnique(rows)
  }

  // ---------------------------------------------------------------------
  // Registration

  /** What `register` does to the table: 403 unless the caller is an
      administrator (`get_current_admin_user`), 400 for a username in use,
      and otherwise one new ordinary user with the hashed password. The
      role test comes first; a success keeps every row and appends one,
      with a fresh id, that the login lookup then finds under the new name. */
  function RegisterOutcome(rows: seq<User>, me: nat, username: string, hashed: string): (r: Result<seq<User>>)
    requires me < |rows|
    ensures !rows[me].isAdmin ==> r == Err(Forbidden)
    ensures rows[me].isAdmin && (exists k :: 0 <= k < |rows| && rows[k].username == username) ==>
      r == Err(BadRequest(UsernameExists))
    ensures r.Ok? <==> rows[me].isAdmin && forall k :: 0 <= k < |rows| ==> rows[k].username != username
    ensures r.Ok? ==> |r.value| == |rows| + 1 && r.value[..|rows|] == rows
    ensures r.Ok? ==>
      var u := r.value[|rows|];
      u.username == username && u.hashedPassword == hashed && !u.isAdmin
      && (forall k :: 0 <= k < |rows| ==> rows[k].id != u.id)
      && FindByName(r.value, username) == Some(|rows|)
  {
    if !rows[me].isAdmin then Err(Forbidden)
    else if FindByName(rows, username).Some? then Err(BadRequest(UsernameExists))
    else
      var u := NewUser(NextId(Ids(rows)), username, hashed);
      FindAppended(rows, u);
      assert (rows + [u])[..|rows|] == rows;
      Ok(rows + [u])
  }

  /** A registration keeps ids distinct and usernames unique. */
  lemma RegisterKeepsTableValid(rows: seq<User>, me: nat, username: string, hashed: string)
    requires me < |rows| && TableValid(rows) && RegisterOutcome(rows, me, username, hashed).Ok?
    ensures TableValid(RegisterOutcome(rows, me, username, hashed).value)
  {
    var after := RegisterOutcome(rows, me, username, hashed).value;
    assert Ids(after) == Ids(rows) + [NextId(Ids(rows))];
    NextIdKeepsDistinct(Ids(rows));
  }

  /** A name that no row had is found at the row appended with it. */
  lemma FindAppended(rows: seq<User>, u: User)
    requires forall k :: 0 <= k < |rows| ==> rows[k].username != u.username
    ensures FindByName(rows + [u], u.username) == Some(|rows|)
  {
    assert (rows + [u])[|rows|].username == u.username;
  }

  /** Registering the same name twice fails the second time. */
  lemma RegisterTwiceFails(rows: seq<User>, me: nat, username: string, h1: string, h2: string)
    requires me < |rows| && TableValid(rows) && RegisterOutcome(rows, me, username, h1).Ok?
    ensures RegisterOutcome(RegisterOutcome(rows, me, username, h1).value, me, username, h2)
      == Err(BadRequest(UsernameExists))
  {
    var after := RegisterOutcome(rows, me, username, h1).value;
    assert after[me] == rows[me];
  }

  // ---------------------------------------------------------------------
  // Profile

  /** The body of `PUT /users/me`. */
  datatype UserUpdate = UserUpdate(dob: string, lifeExpectancy: int, nickname: Option<string>,
                                   avatarUrl: Option<string>)

  /** A profile request that gives only the date of birth. */
  function ProfileRequest(dob: string): (upd: UserUpdate)
    ensures upd.dob == dob && upd.lifeExpectancy == 100 && upd.nickname.None? && upd.avatarUrl.None?
  {
    UserUpdate(dob, DefaultLifeExpectancy, None, None)
  }

  /** The `user_config` the profile update answers with. */
  datatype UserConfig = UserConfig(dob: Date, lifeExpectancy: int, nickname: Option<string>,
                                   avatarUrl: Option<string>)

  /** The profile update applied to a user: the date of birth and life
      expectancy always, nickname and avatar only when given; the id, login
      name, password and role are kept. */
  function Profiled(u: User, upd: UserUpdate, dob: Date): (p: User)
    ensures p.id == u.id && p.username == u.username && p.hashedPassword == u.hashedPassword
    ensures p.isAdmin == u.isAdmin && p.dob == Some(dob) && p.lifeExpectancy == upd.lifeExpectancy
    ensures upd.nickname.None? ==> p.nickname == u.nickname
    ensures upd.nickname.Some? ==> p.nickname == upd.nickname
    ensures upd.avatarUrl.None? ==> p.avatarUrl == u.avatarUrl
    ensures upd.avatarUrl.Some? ==> p.avatarUrl == upd.avatarUrl
  {
    u.(dob := Some(dob), lifeExpectancy := upd.lifeExpectancy,
       nickname := if upd.nickname.Some? then upd.nickname else u.nickname,
       avatarUrl := if upd.avatarUrl.Some? then upd.avatarUrl else u.avatarUrl)
  }

  lemma ProfiledIdempotent(u: User, upd: UserUpdate, dob: Date)
    ensures Profiled(Profiled(u, upd, dob), upd, dob) == Profiled(u, upd, dob)
  {
  }

  /** Replacing a row by one with the same id and username keeps the
      table valid. */
  lemma ReplaceKeepsTableValid(rows: seq<User>, me: nat, u: User)
    requires me < |rows| && TableValid(rows) && u.id == rows[me].id && u.username == rows[me].username
    ensures TableValid(rows[me := u])
  {
    assert Ids(rows[me := u]) == Ids(rows);
  }

  // ---------------------------------------------------------------------
  // Avatar

  /** An avatar upload: its declared content type, its length in bytes,
      whether Pillow can decode and re-encode it, and its pixel size. */
  datatype AvatarUpload = AvatarUpload(contentType: string, size: nat, decodable: bool,
                                       width: nat, height: nat)

  const AvatarTypes: set<string> := {"image/jpeg", "image/png", "image/gif", "image/webp"}
  const MaxAvatarBytes := 5 * 1024 * 1024
  const AvatarsUrl := "/static/avatars/"

  /** `f"avatar_{id}_{hex[:8]}.jpg"`, where `hex` is `uuid.uuid4().hex`:
      the prefix, the decimal id, an underscore, at most eight hex digits
      and the `.jpg` suffix. */
  function AvatarFileName(userId: int, hex: string): (name: string)
    ensures var id := IntToString(userId);
      var stem := if |hex| < 8 then hex else hex[..8];
      |name| == 12 + |id| + |stem| && name[..7] == "avatar_" && name[7..7 + |id|] == id
      && name[7 + |id|] == '_' && name[8 + |id|..8 + |id| + |stem|] == stem && name[|name| - 4..] == ".jpg"
  {
    "avatar_" + IntToString(userId) + "_" + hex[..if |hex| < 8 then |hex| else 8] + ".jpg"
  }

  /** Two avatar files of full-length stems have one name only when they
      belong to one user and share the first eight hex digits. */
  lemma AvatarFileNameInjective(id1: int, hex1: string, id2: int, hex2: string)
    requires |hex1| >= 8 && |hex2| >= 8 && AvatarFileName(id1, hex1) == AvatarFileName(id2, hex2)
    ensures id1 == id2 && hex1[..8] == hex2[..8]
  {
    var a, b := IntToString(id1), IntToString(id2);
    var n := AvatarFileName(id1, hex1);
    assert |a| == |b|;
    assert a == n[7..7 + |a|] == b;
    assert hex1[..8] == n[8 + |a|..16 + |a|] == hex2[..8];
    IntToStringRoundTrip(id1);
    IntToStringRoundTrip(id2);
  }

  /** What `upload_avatar` answers for user `userId`: the type test comes
      first, then the size limit, then decoding; a success is the public
      URL of the stored file. */
  function AvatarOutcome(userId: int, a: AvatarUpload, hex: string): (r: Result<string>)
    ensures r.Ok? <==> a.contentType in AvatarTypes && a.size <= MaxAvatarBytes && a.decodable
    ensures a.contentType !in AvatarTypes ==> r == Err(BadRequest(UnsupportedAvatarType))
    ensures a.contentType in AvatarTypes && a.size > MaxAvatarBytes ==> r == Err(BadRequest(AvatarTooLarge))
    ensures a.contentType in AvatarTypes && a.size <= MaxAvatarBytes && !a.decodable ==> r == Err(InternalError)
    ensures r.Ok? ==> |r.value| > |AvatarsUrl| + 4 && r.value[..|AvatarsUrl|] == AvatarsUrl
                      && r.value[|r.value| - 4..] == ".jpg"
  {
    if a.contentType !in AvatarTypes then Err(BadRequest(UnsupportedAvatarType))
    else if a.size > MaxAvatarBytes then Err(BadRequest(AvatarTooLarge))
    else if !a.decodable then Err(InternalError)
    else Ok(AvatarsUrl + AvatarFileName(userId, hex))
  }

  /** The limit is inclusive: exactly 5 MiB passes, one byte more does not. */
  lemma AvatarSizeBoundary(userId: int, hex: string)
    ensures AvatarOutcome(userId, AvatarUpload("image/png", MaxAvatarBytes, true, 1, 1), hex).Ok?
    ensures AvatarOutcome(userId, AvatarUpload("image/png", MaxAvatarBytes + 1, true, 1, 1), hex)
      == Err(BadRequest(AvatarTooLarge))
  {
  }

  /** The centre-crop box `(left, top, right, bottom)`. */
  datatype Box = Box(left: int, top: int, right: int, bottom: int)

  /** The square of side `min(w, h)` in the middle of a `w` by `h` image:
      it lies inside the image, and the margins on either side of it differ
      by at most one pixel (the extra one goes right or below). */
  function CenterCropBox(w: nat, h: nat): (b: Box)
    ensures var side := if w < h then w else h;
      b.right - b.left == side && b.bottom - b.top == side
      && (side == w || side == h) && side <= w && side <= h
    ensures 0 <= b.left && b.right <= w && 0 <= b.top && b.bottom <= h
    ensures 0 <= (w - b.right) - b.left <= 1 && 0 <= (h - b.bottom) - b.top <= 1
  {
    var side := if w < h then w else h;
    var left := (w - side) / 2;
    var top := (h - side) / 2;
    Box(left, top, left + side, top + side)
  }

  /** A square image is kept whole. */
  lemma SquareNotCropped(n: nat)
    ensures CenterCropBox(n, n) == Box(0, 0, n, n)
  {
  }

  class UserTable {
    var rows: seq<User>

    constructor ()
      ensures rows == []
    {
      rows := [];
    }

    /** `POST /register`, by the user at index `me`. `hash` is
        `get_password_hash`. */
    method Register(me: nat, username: string, password: string, hash: string -> string)
      returns (r: Result<()>)
      requires me < |rows| && TableValid(rows)
      modifies this
      ensures TableValid(rows)
      ensures var out := RegisterOutcome(old(rows), me, username, hash(password));
        (out.Err? ==> r == Err(out.error) && rows == old(rows))
        && (out.Ok? ==> r == Ok(()) && rows == out.value)
    {
      if !rows[me].isAdmin {
        return Err(Forbidden);
      }
      if FindByName(rows, username).Some? {
        return Err(BadRequest(UsernameExists));
      }
      var newUser := NewUser(NextId(Ids(rows)), username, hash(password));
      RegisterKeepsTableValid(rows, me, username, hash(password));
      rows := rows + [newUser];
      r := Ok(());
    }

    /** `PUT /users/me` */
    method UpdateUserMe(me: nat, upd: UserUpdate) returns (r: Result<UserConfig>)
      requires me < |rows| && TableValid(rows)
      modifies this
      ensures TableValid(rows)
      ensures StrptimeYmd(upd.dob).None? ==> r == Err(BadRequest(InvalidDateFormat)) && rows == old(rows)
      ensures StrptimeYmd(upd.dob).Some? ==>
        var dob := StrptimeYmd(upd.dob).value;
        rows == old(rows)[me := Profiled(old(rows)[me], upd, dob)]
        && r == Ok(UserConfig(dob, upd.lifeExpectancy, rows[me].nickname, rows[me].avatarUrl))
    {
      var newDob := StrptimeYmd(upd.dob);
      if newDob.None? {
        return Err(BadRequest(InvalidDateFormat));
      }
      var user := rows[me];
      user := user.(dob := Some(newDob.value), lifeExpectancy := upd.lifeExpectancy);
      if upd.nickname.Some? {
        user := user.(nickname := upd.nickname);
      }
      if upd.avatarUrl.Some? {
        user := user.(avatarUrl := upd.avatarUrl);
      }
      ReplaceKeepsTableValid(rows, me, user);
      rows := rows[me := user];
      r := Ok(UserConfig(newDob.value, user.lifeExpectancy, user.nickname, user.avatarUrl));
    }

    /** `POST /users/me/avatar`; `hex` is the uuid the handler draws. */
    method UploadAvatar(me: nat, a: AvatarUpload, hex: string) returns (r: Result<string>)
      requires me < |rows| && TableValid(rows)
      modifies this
      ensures TableValid(rows)
      ensures r == AvatarOutcome(old(rows)[me].id, a, hex)
      ensures r.Err? ==> rows == old(rows)
      ensures r.Ok? ==> rows == old(rows)[me := old(rows)[me].(avatarUrl := Some(r.value))]
    {
      if a.contentType !in AvatarTypes {
        return Err(BadRequest(UnsupportedAvatarType));
      }
      if a.size > MaxAvatarBytes {
        return Err(BadRequest(AvatarTooLarge));
      }
      if !a.decodable {
        return Err(InternalError);
      }
      // The crop box only shapes the saved image bytes, which are not modelled.
      var box := CenterCropBox(a.width, a.height);
      var filename := AvatarFileName(rows[me].id, hex);
      var avatarUrl := AvatarsUrl + filename;
      ReplaceKeepsTableValid(rows, me, rows[me].(avatarUrl := Some(avatarUrl)));
      rows := rows[me := rows[me].(avatarUrl := Some(avatarUrl))];
      r := Ok(avatarUrl);
    }
  }
}
