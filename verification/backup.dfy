/** `BackupServiceImpl`: the backup history a manual backup writes, the
    database name it takes from the JDBC URL, the dump file's name, and the
    history listing. The file system and `mysqldump` are not modelled: their
    outcomes arrive as a `BackupEnv`. Clock readings are integers; the one
    that names the file also comes as calendar fields. */
module Backup {
  import opened Wrappers
  import opened Text
  import Sorting

  type Id = string

  // ---- database name -----------------------------------------------------

  /** The database name as written: what follows the last '/', cut before
      the first '?' after it. */
  function DbNameAsWritten(url: string): (name: string)
    ensures Lacks(name, '/') && Lacks(name, '?')
  {
    CutQuery(AfterLastSlash(url))
  }

  /** The text after the last '/', or all of `s` without one. */
  function AfterLastSlash(s: string): (r: string)
    ensures Lacks(r, '/')
  {
    match LastIndexOf(s, '/') case Some(k) => s[k + 1..] case None => s
  }

  /** The text before the first '?', or all of `s` without one. */
  function CutQuery(s: string): (r: string)
    ensures Lacks(r, '?') && r <= s
  {
    match IndexOf(s, '?') case Some(q) => s[..q] case None => s
  }

  /** A query parameter holding a '/' (a time zone such as "Asia/Dhaka" is
      the usual one) is taken for the database name: as written the name
      read from `base/name?query/tail` is `tail`, where it is `name`. With
      base "h", name "qb", query "tz=A" and tail "B" the URL is
      "h/qb?tz=A/B" and the name read is "B". */
  lemma DbNameAsWrittenMisreadsQuery(base: string, name: string, query: string, tail: string)
    requires Lacks(base, '?') && Lacks(name, '/') && Lacks(name, '?') && Lacks(tail, '/') && Lacks(tail, '?')
    ensures var url := base + "/" + name + "?" + query + "/" + tail;
            DbNameAsWritten(url) == tail && DbName(url) == name
  {
    var url := base + "/" + name + "?" + query + "/" + tail;
    assert url == base + "/" + name + "?" + (query + "/" + tail);
    DbNameOfUrl(base, name, query + "/" + tail);
    var k := |url| - |tail| - 1;
    assert url[k + 1..] == tail;
    LastIndexOfAt(url, '/', k);
  }

  /** The database name with the evident intent: the query is cut off
      first, then the last path segment is taken. */
  function DbName(url: string): (name: string)
    ensures Lacks(name, '/') && Lacks(name, '?')
  {
    var name := AfterLastSlash(CutQuery(url));
    assert forall i :: 0 <= i < |name| ==> name[i] in CutQuery(url);
    name
  }

  /** The name between the last '/' of the path and the query is found,
      whatever the query holds. */
  lemma DbNameOfUrl(base: string, name: string, query: string)
    requires Lacks(base, '?') && Lacks(name, '/') && Lacks(name, '?')
    ensures DbName(base + "/" + name) == name
    ensures DbName(base + "/" + name + "?" + query) == name
  {
    var path := base + "/" + name;
    assert path[|base| + 1..] == name;
    LastIndexOfAt(path, '/', |base|);
    assert Lacks(path, '?') by {
      forall i | 0 <= i < |path| ensures path[i] != '?' {
        if i > |base| { assert path[i] == name[i - |base| - 1]; }
      }
    }
    var url := path + "?" + query;
    assert url[..|path|] == path;
    IndexOfAt(url, '?', |path|);
  }

  /** As written the name is right when the query holds no '/'. */
  lemma DbNameAsWrittenOfUrl(base: string, name: string, query: string)
    requires Lacks(name, '/') && Lacks(name, '?') && Lacks(query, '/')
    ensures DbNameAsWritten(base + "/" + name) == name
    ensures DbNameAsWritten(base + "/" + name + "?" + query) == name
  {
    var path := base + "/" + name;
    assert path[|base| + 1..] == name;
    LastIndexOfAt(path, '/', |base|);
    var url := path + "?" + query;
    assert url[|base| + 1..] == name + "?" + query;
    assert Lacks(url[|base| + 1..], '/') by {
      forall i | |base| + 1 <= i < |url| ensures url[i] != '/' {
        if i < |path| { assert url[i] == name[i - |base| - 1]; }
        else if i > |path| { assert url[i] == query[i - |path| - 1]; }
      }
    }
    LastIndexOfAt(url, '/', |base|);
    var after := name + "?" + query;
    assert after[..|name|] == name;
    IndexOfAt(after, '?', |name|);
  }

  /** The first occurrence is the one before which the character is absent. */
  lemma IndexOfAt(s: string, c: char, k: nat)
    requires k < |s| && s[k] == c && Lacks(s[..k], c)
    ensures IndexOf(s, c) == Some(k)
  {
  }

  /** The last occurrence is the one after which the character is absent. */
  lemma LastIndexOfAt(s: string, c: char, k: nat)
    requires k < |s| && s[k] == c && Lacks(s[k + 1..], c)
    ensures LastIndexOf(s, c) == Some(k)
  {
  }

  // ---- file name ---------------------------------------------------------

  datatype BackupType = Full | TenantBackup | QuestionBackup | UserBackup | SettingsBackup

  /** The enum constant's name, as `String.format` prints it. */
  function TypeName(t: BackupType): string {
    match t
    case Full => "FULL"
    case TenantBackup => "TENANT"
    case QuestionBackup => "QUESTION"
    case UserBackup => "USER"
    case SettingsBackup => "SETTINGS"
  }

  /** A local date-time with a four-digit year. */
  datatype DateTime = DateTime(year: nat, month: nat, day: nat, hour: nat, minute: nat, second: nat)

  predicate ValidDateTime(dt: DateTime) {
    dt.year <= 9999 && 1 <= dt.month <= 12 && 1 <= dt.day <= 31
    && dt.hour < 24 && dt.minute < 60 && dt.second < 60
  }

  /** `n` in two decimal digits, zero-padded (`MM`, `dd`, `HH`, `mm`, `ss`). */
  function Digits2(n: nat): (r: string)
    requires n < 100
    ensures |r| == 2 && AllDigits(r) && DigitsValue(r) == n
  {
    var r := [DigitChar(n / 10), DigitChar(n % 10)];
    assert r[..1] == [r[0]] && [r[0]][..0] == [];
    assert DigitsValue(r[..1]) == n / 10;
    r
  }

  /** `n` in four decimal digits, zero-padded (`yyyy`). */
  function Digits4(n: nat): (r: string)
    requires n < 10000
    ensures |r| == 4 && AllDigits(r) && DigitsValue(r) == n
  {
    var (hi, lo) := (Digits2(n / 100), Digits2(n % 100));
    var r := hi + lo;
    assert r[..3] == hi + [lo[0]] && (hi + [lo[0]])[..2] == hi;
    assert DigitsValue(lo) == DigitValue(lo[0]) * 10 + DigitValue(lo[1]) by {
      assert lo[..1] == [lo[0]] && [lo[0]][..0] == [];
    }
    r
  }

  /** The `yyyyMMdd` half of the stamp. */
  function DatePart(dt: DateTime): (r: string)
    requires ValidDateTime(dt)
    ensures |r| == 8 && r[..4] == Digits4(dt.year) && r[4..6] == Digits2(dt.month) && r[6..] == Digits2(dt.day)
  {
    Digits4(dt.year) + Digits2(dt.month) + Digits2(dt.day)
  }

  /** The `HHmmss` half of the stamp. */
  function TimePart(dt: DateTime): (r: string)
    requires ValidDateTime(dt)
    ensures |r| == 6 && r[..2] == Digits2(dt.hour) && r[2..4] == Digits2(dt.minute) && r[4..] == Digits2(dt.second)
  {
    Digits2(dt.hour) + Digits2(dt.minute) + Digits2(dt.second)
  }

  /** `DateTimeFormatter.ofPattern("yyyyMMdd_HHmmss")`. */
  function Stamp(dt: DateTime): (s: string)
    requires ValidDateTime(dt)
    ensures |s| == 15 && s[8] == '_' && s[..8] == DatePart(dt) && s[9..] == TimePart(dt)
  {
    DatePart(dt) + "_" + TimePart(dt)
  }

  /** Reads a stamp back into its fields. */
  function ParseStamp(s: string): (dt: Option<DateTime>)
  {
    if |s| == 15 && s[8] == '_' && AllDigits(s[..8]) && AllDigits(s[9..]) then
      var (date, time) := (s[..8], s[9..]);
      Some(DateTime(DigitsValue(date[..4]), DigitsValue(date[4..6]), DigitsValue(date[6..]),
                    DigitsValue(time[..2]), DigitsValue(time[2..4]), DigitsValue(time[4..])))
    else None
  }

  /** The stamp loses nothing: every field reads back. */
  lemma StampRoundTrip(dt: DateTime)
    requires ValidDateTime(dt)
    ensures ParseStamp(Stamp(dt)) == Some(dt)
  {
    var s := Stamp(dt);
    var (date, time) := (DatePart(dt), TimePart(dt));
    assert AllDigits(date) by {
      assert forall i :: 0 <= i < 4 ==> date[i] == date[..4][i];
      assert forall i :: 4 <= i < 6 ==> date[i] == date[4..6][i - 4];
      assert forall i :: 6 <= i < 8 ==> date[i] == date[6..][i - 6];
    }
    assert AllDigits(time) by {
      assert forall i :: 0 <= i < 2 ==> time[i] == time[..2][i];
      assert forall i :: 2 <= i < 4 ==> time[i] == time[2..4][i - 2];
      assert forall i :: 4 <= i < 6 ==> time[i] == time[4..][i - 4];
    }
  }

  /** `backup_<type>_<tenant or FULL>_<stamp>.sql` */
  function FileName(t: BackupType, tenantId: Option<string>, dt: DateTime): (f: string)
    requires ValidDateTime(dt)
    ensures StartsWith(f, "backup_" + TypeName(t) + "_" + tenantId.GetOr("FULL") + "_")
    ensures EndsWith(f, ".sql")
    ensures |f| >= 19 && f[|f| - 19..|f| - 4] == Stamp(dt)
  {
    var prefix := "backup_" + TypeName(t) + "_" + tenantId.GetOr("FULL") + "_";
    var f := prefix + Stamp(dt) + ".sql";
    assert f[..|prefix|] == prefix;
    assert f[|f| - 4..] == ".sql";
    assert f[|f| - 19..|f| - 4] == Stamp(dt);
    f
  }

  /** The time in a file name can be read back from it. */
  lemma FileNameStampReadsBack(t: BackupType, tenantId: Option<string>, dt: DateTime)
    requires ValidDateTime(dt)
    ensures var f := FileName(t, tenantId, dt); ParseStamp(f[|f| - 19..|f| - 4]) == Some(dt)
  {
    StampRoundTrip(dt);
  }

  // ---- the history of one manual backup -----------------------------------

  datatype BackupStatus = InProgress | Success | Failed

  datatype History = History(
    tenantId: Option<string>, btype: BackupType, filePath: string, fileSize: Option<int>,
    status: BackupStatus, startedAt: int, completedAt: Option<int>, triggeredBy: string,
    errorMessage: Option<string>)

  /** How the dump ends: the process could not run (with the exception's
      message), or it exited with a code. */
  datatype DumpOutcome = DumpError(message: string) | Exited(code: int)

  /** The service's configuration: the datasource and the backup directory. */
  datatype Config = Config(dbUser: string, dbPassword: string, dbUrl: string, storagePath: string)

  /** The `mysqldump` command line; the database name is the last argument. */
  function DumpArgs(config: Config): (args: seq<string>)
    ensures |args| == 7 && args[0] == "mysqldump" && args[6] == DbName(config.dbUrl)
  {
    ["mysqldump", "-u" + config.dbUser, "-p" + config.dbPassword,
     "--single-transaction", "--routines", "--triggers", DbName(config.dbUrl)]
  }

  /** What the file system, the clock and `mysqldump` do during one backup. */
  datatype BackupEnv = BackupEnv(
    storageReady: bool,                    // the directory exists or `mkdirs` made it
    startedAt: int, completedAt: int,
    fileTime: DateTime,                    // the clock reading the file name is built from
    dump: seq<string> -> DumpOutcome,      // how the process given these arguments ends
    fileSize: Result<int, string>)         // `Files.size`, or the IOException's message

  /** The record saved before any work starts. */
  function Started(tenantId: Option<string>, t: BackupType, triggeredBy: string, env: BackupEnv): (h: History)
    ensures h.status == InProgress && h.filePath == "PENDING" && h.startedAt == env.startedAt
  {
    History(tenantId, t, "PENDING", None, InProgress, env.startedAt, None, triggeredBy, None)
  }

  /** The step that fails first, as the message the record keeps, if any. */
  function FailureOf(config: Config, t: BackupType, env: BackupEnv): (msg: Option<string>)
    ensures msg.None? <==> env.storageReady && t == Full && env.dump(DumpArgs(config)) == Exited(0) && env.fileSize.Ok?
    ensures !env.storageReady ==> msg == Some("Failed to create backup directory: " + config.storagePath)
    ensures env.storageReady && t != Full ==> msg == Some("Only FULL backup is supported in this version.")
    ensures env.storageReady && t == Full && env.dump(DumpArgs(config)).Exited? && env.dump(DumpArgs(config)).code != 0 ==>
              msg == Some("mysqldump failed with exit code: " + IntToString(env.dump(DumpArgs(config)).code))
  {
    if !env.storageReady then Some("Failed to create backup directory: " + config.storagePath)
    else if t != Full then Some("Only FULL backup is supported in this version.")
    else match env.dump(DumpArgs(config))
      case DumpError(m) => Some(m)
      case Exited(code) =>
        if code != 0 then Some("mysqldump failed with exit code: " + IntToString(code))
        else if env.fileSize.Err? then Some(env.fileSize.error)
        else None
  }

  /** `triggerManualBackup`: the history record as it ends up. The final
      path is set just before the file's size is read, so a failure to read
      it leaves the path in the failed record. */
  function TriggerManualBackup(config: Config, tenantId: Option<string>, t: BackupType, triggeredBy: string,
                               env: BackupEnv)
    : (h: History)
    requires ValidDateTime(env.fileTime)
    ensures h.status != InProgress && h.completedAt == Some(env.completedAt)
    ensures h.startedAt == env.startedAt && h.tenantId == tenantId && h.btype == t && h.triggeredBy == triggeredBy
    ensures h.status == Success <==> FailureOf(config, t, env).None?
    ensures h.status == Success ==> env.fileSize.Ok? && h.fileSize == Some(env.fileSize.value) && h.errorMessage.None?
    ensures h.status == Failed ==> h.errorMessage == FailureOf(config, t, env) && h.fileSize.None?
    ensures h.filePath == config.storagePath + "/" + FileName(t, tenantId, env.fileTime) <==>
              env.storageReady && t == Full && env.dump(DumpArgs(config)) == Exited(0)
    ensures h.filePath != "PENDING" <==> env.storageReady && t == Full && env.dump(DumpArgs(config)) == Exited(0)
  {
    var started := Started(tenantId, t, triggeredBy, env);
    var path := config.storagePath + "/" + FileName(t, tenantId, env.fileTime);
    var dumped := env.storageReady && t == Full && env.dump(DumpArgs(config)) == Exited(0);
    var done := started.(completedAt := Some(env.completedAt), filePath := if dumped then path else "PENDING");
    match FailureOf(config, t, env)
    case Some(msg) => done.(status := Failed, errorMessage := Some(msg))
    case None => done.(status := Success, fileSize := Some(env.fileSize.value))
  }

  // ---- listing -----------------------------------------------------------

  /** `getBackupHistory`: without a tenant every record, newest first; with
      one, that tenant's records (in whatever order the repository gives). */
  function GetBackupHistory(records: seq<History>, tenantId: Option<string>): (r: seq<History>)
    ensures tenantId.None? ==> multiset(r) == multiset(records)
    ensures tenantId.None? ==> forall i, j :: 0 <= i < j < |r| ==> r[i].startedAt >= r[j].startedAt
    ensures tenantId.Some? ==> forall h :: h in r <==> h in records && h.tenantId == tenantId
  {
    if tenantId.None? then Sorting.SortBy(records, (h: History) => -h.startedAt)
    else Filter(records, tenantId)
  }

  function Filter(records: seq<History>, tenantId: Option<string>): (r: seq<History>)
    ensures forall h :: h in r <==> h in records && h.tenantId == tenantId
  {
    if |records| == 0 then []
    else (if records[0].tenantId == tenantId then [records[0]] else []) + Filter(records[1..], tenantId)
  }

  /** The two listings agree: a tenant's listing holds exactly the records
      of the full listing that belong to the tenant. */
  lemma TenantListingWithinFull(records: seq<History>, tenant: string, h: History)
    ensures h in GetBackupHistory(records, Some(tenant)) <==>
              h in GetBackupHistory(records, None) && h.tenantId == Some(tenant)
  {
    var all := GetBackupHistory(records, None);
    assert h in all <==> h in multiset(all);
    assert h in records <==> h in multiset(records);
  }

  /** A finished manual run, once saved, is listed for its tenant and in
      the full listing. */
  lemma RunListed(records: seq<History>, config: Config, tenant: string, t: BackupType, triggeredBy: string,
                  env: BackupEnv)
    requires ValidDateTime(env.fileTime)
    ensures var h := TriggerManualBackup(config, Some(tenant), t, triggeredBy, env);
            && h in GetBackupHistory(records + [h], Some(tenant))
            && h in GetBackupHistory(records + [h], None)
  {
    var h := TriggerManualBackup(config, Some(tenant), t, triggeredBy, env);
    assert h in records + [h];
    TenantListingWithinFull(records + [h], tenant, h);
  }
}
