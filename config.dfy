/** The application settings (backend/config.py): every setting with its
    default, and the derived paths. Values come from the environment, so a
    `Settings` value is a parameter wherever the backend reads `settings`;
    `base_dir` (the directory of config.py) is a parameter too. */
module Config {
  import opened Common
  import opened Strings
  import opened Gregorian

  datatype Settings = Settings(
    secretKey: string,
    algorithm: string,
    accessTokenExpireMinutes: int,
    databaseUrl: string,
    debug: bool,
    host: string,
    port: int,
    defaultAdminUsername: string,
    defaultAdminPassword: string,
    defaultAdminDobStr: string,
    uploadDir: string,
    originalDir: string,
    thumbnailDir: string,
    maxImageSizeMb: int,
    thumbnailMaxSize: int)

  /** The settings when no environment variable overrides them. */
  const Defaults := Settings(
    "CHANGE_THIS_TO_A_SUPER_SECRET_KEY", "HS256", 30000,
    "sqlite:///./data/memento.db",
    false, "0.0.0.0", 8000,
    "admin", "admin123", "1990-01-01",
    "./uploads", "./uploads/originals", "./uploads/thumbnails",
    10, 800)

  /** The characters `lstrip("./")` removes: a set, not a prefix. */
  const DirStripChars: set<char> := {'.', '/'}

  const SqlitePrefix := "sqlite:///"

  /** `dir.lstrip("./")`: what is left is a suffix of the configured
      directory that starts with neither `.` nor `/`, and everything cut
      off was `.` or `/`. */
  function StripDir(dir: string): (r: string)
    ensures |r| <= |dir| && r == dir[|dir| - |r|..]
    ensures r != [] ==> r[0] != '.' && r[0] != '/'
    ensures forall i :: 0 <= i < |dir| - |r| ==> dir[i] == '.' || dir[i] == '/'
  {
    LStrip(dir, DirStripChars)
  }

  lemma StripDirIdempotent(dir: string)
    ensures StripDir(StripDir(dir)) == StripDir(dir)
  {
    LStripIdempotent(dir, DirStripChars);
  }

  /** Because the stripped directory never starts with `/`, each directory
      property is the base directory, a separator, and the stripped text. */
  function UploadDirPath(s: Settings, baseDir: string): (r: string)
    ensures baseDir != [] && baseDir[|baseDir| - 1] != '/' ==> r == baseDir + "/" + StripDir(s.uploadDir)
  {
    PathJoin(baseDir, StripDir(s.uploadDir))
  }

  function OriginalDirPath(s: Settings, baseDir: string): (r: string)
    ensures baseDir != [] && baseDir[|baseDir| - 1] != '/' ==> r == baseDir + "/" + StripDir(s.originalDir)
  {
    PathJoin(baseDir, StripDir(s.originalDir))
  }

  function ThumbnailDirPath(s: Settings, baseDir: string): (r: string)
    ensures baseDir != [] && baseDir[|baseDir| - 1] != '/' ==> r == baseDir + "/" + StripDir(s.thumbnailDir)
  {
    PathJoin(baseDir, StripDir(s.thumbnailDir))
  }

  /** `database_path`: a `sqlite:///` URL loses every occurrence of that
      text and the rest is joined to the base directory; any other URL is
      returned as it is. For a file part without `:` (so without a second
      copy of the prefix) the result is that file part under the base
      directory. */
  function DatabasePath(s: Settings, baseDir: string): (r: string)
    ensures !StartsWith(s.databaseUrl, SqlitePrefix) ==> r == s.databaseUrl
    ensures StartsWith(s.databaseUrl, SqlitePrefix) ==>
      r == PathJoin(baseDir, ReplaceAll(s.databaseUrl[|SqlitePrefix|..], SqlitePrefix, ""))
    ensures StartsWith(s.databaseUrl, SqlitePrefix) && ':' !in s.databaseUrl[|SqlitePrefix|..] ==>
      r == PathJoin(baseDir, s.databaseUrl[|SqlitePrefix|..])
  {
    if StartsWith(s.databaseUrl, SqlitePrefix) then
      SqliteFilePart(s.databaseUrl);
      assert ReplaceAll(s.databaseUrl, SqlitePrefix, "") == ReplaceAll(s.databaseUrl[|SqlitePrefix|..], SqlitePrefix, "");
      PathJoin(baseDir, ReplaceAll(s.databaseUrl, SqlitePrefix, ""))
    else s.databaseUrl
  }

  /** `default_admin_dob`: None where `date.fromisoformat` raises; a date
      it gives prints back as the configured text. */
  function DefaultAdminDob(s: Settings): (r: Option<Date>)
    ensures r.Some? ==> r.value.Valid() && IsoFormat(r.value) == s.defaultAdminDobStr
  {
    FromIsoFormat(s.defaultAdminDobStr)
  }

  /** Stripping a leading "./" from a directory whose next character is
      neither `.` nor `/`. */
  lemma StripDotSlash(dir: string)
    requires |dir| >= 3 && dir[0] == '.' && dir[1] == '/' && dir[2] != '.' && dir[2] != '/'
    ensures StripDir(dir) == dir[2..]
  {
    assert dir[1..][0] == '/' && dir[1..][1..] == dir[2..];
  }

  lemma StripDefaultDir(dir: string, rest: string)
    requires |dir| >= 3 && dir[0] == '.' && dir[1] == '/' && dir[2] != '.' && dir[2] != '/'
    requires dir[2..] == rest
    ensures StripDir(dir) == rest
  {
    StripDotSlash(dir);
  }

  lemma DefaultUploadDir(baseDir: string)
    ensures UploadDirPath(Defaults, baseDir) == PathJoin(baseDir, "uploads")
  {
    StripDefaultDir(Defaults.uploadDir, "uploads");
  }

  lemma DefaultOriginalDir(baseDir: string)
    ensures OriginalDirPath(Defaults, baseDir) == PathJoin(baseDir, "uploads/originals")
  {
    StripDefaultDir(Defaults.originalDir, "uploads/originals");
  }

  lemma DefaultThumbnailDir(baseDir: string)
    ensures ThumbnailDirPath(Defaults, baseDir) == PathJoin(baseDir, "uploads/thumbnails")
  {
    StripDefaultDir(Defaults.thumbnailDir, "uploads/thumbnails");
  }

  /** The prefix is found at the start and removed once, since the file
      part has no `:` and so holds no further copy of it. */
  lemma SqliteUrlParts(url: string, file: string)
    requires url == SqlitePrefix + file && ':' !in file
    ensures StartsWith(url, SqlitePrefix) && ReplaceAll(url, SqlitePrefix, "") == file
  {
    assert url[..|SqlitePrefix|] == SqlitePrefix;
    assert SqlitePrefix[6] == ':';
    ReplaceAllLeadingOnly(SqlitePrefix, file, "", 6);
  }

  lemma SqliteFilePart(url: string)
    requires StartsWith(url, SqlitePrefix)
    ensures ':' !in url[|SqlitePrefix|..] ==> ReplaceAll(url, SqlitePrefix, "") == url[|SqlitePrefix|..]
  {
    var file := url[|SqlitePrefix|..];
    if ':' !in file {
      assert url == SqlitePrefix + file;
      SqliteUrlParts(url, file);
    }
  }

  /** A SQLite URL whose file part has no `:` names that file relative to
      the base directory, unless the file part is absolute. */
  lemma DatabasePathSqliteFile(s: Settings, baseDir: string, file: string)
    requires s.databaseUrl == SqlitePrefix + file && ':' !in file
    ensures DatabasePath(s, baseDir) == PathJoin(baseDir, file)
  {
    assert StartsWith(s.databaseUrl, SqlitePrefix) && s.databaseUrl[|SqlitePrefix|..] == file;
  }

  lemma DatabasePathDefault(baseDir: string)
    ensures DatabasePath(Defaults, baseDir) == PathJoin(baseDir, "./data/memento.db")
  {
    DatabasePathSqliteFile(Defaults, baseDir, "./data/memento.db");
  }

  /** Four slashes name an absolute file, and `os.path.join` then drops the
      base directory. */
  lemma DatabasePathAbsolute(s: Settings, baseDir: string)
    requires s.databaseUrl == "sqlite:////var/lib/memento.db"
    ensures DatabasePath(s, baseDir) == "/var/lib/memento.db"
  {
    var file := "/var/lib/memento.db";
    assert ':' !in file && file[0] == '/';
    DatabasePathSqliteFile(s, baseDir, file);
  }

  lemma DefaultAdminDobValue()
    ensures DefaultAdminDob(Defaults) == Some(Date(1990, 1, 1))
  {
    var s := Defaults.defaultAdminDobStr;
    assert s[..4] == "1990" && s[5..7] == "01" && s[8..] == "01";
    assert DigitsValue("1990") == 1990 by {
      assert "1990"[..3] == "199" && "199"[..2] == "19" && "19"[..1] == "1" && "1"[..0] == "";
    }
    assert DigitsValue("01") == 1 by {
      assert "01"[..1] == "0" && "0"[..0] == "";
    }
  }
}
