/** The pure constructors of `run_pg_dump`: the timestamped dump file name,
    the path under the backup directory, the `pg_dump` argument vector and
    the child process environment. */
module Naming {

  /** `datetime.utcnow()`: a calendar time with microseconds. */
  datatype UtcTime = UtcTime(year: nat, month: nat, day: nat,
                             hour: nat, minute: nat, second: nat, microsecond: nat)

  /** Process environment (`os.environ`). */
  type Env = map<string, string>

  predicate IsLeapYear(y: nat) {
    y % 4 == 0 && (y % 100 != 0 || y % 400 == 0)
  }

  function DaysInMonth(y: nat, m: nat): nat
    requires 1 <= m <= 12
  {
    if m == 2 then (if IsLeapYear(y) then 29 else 28)
    else if m == 4 || m == 6 || m == 9 || m == 11 then 30
    else 31
  }

  /** A time `datetime` can hold, restricted to the years 1000-9999: only
      for those does `%Y` yield exactly four digits. */
  predicate ValidTime(t: UtcTime) {
    1000 <= t.year <= 9999 && 1 <= t.month <= 12 && 1 <= t.day <= DaysInMonth(t.year, t.month)
    && t.hour < 24 && t.minute < 60 && t.second < 60 && t.microsecond < 1000000
  }

  /** The time truncated to the second: all that the file name keeps. */
  function Second(t: UtcTime): UtcTime {
    t.(microsecond := 0)
  }

  function Pow10(w: nat): (p: nat)
    ensures p >= 1
  {
    if w == 0 then 1 else 10 * Pow10(w - 1)
  }

  predicate IsDigit(c: char) {
    '0' <= c <= '9'
  }

  /** The last `w` decimal digits of `n`, zero-padded (`%0wd`). */
  function Digits(n: nat, w: nat): (s: string)
    ensures |s| == w
    ensures forall i :: 0 <= i < |s| ==> IsDigit(s[i])
  {
    if w == 0 then "" else Digits(n / 10, w - 1) + [('0' as int + n % 10) as char]
  }

  function DigitValue(c: char): nat {
    if IsDigit(c) then c as int - '0' as int else 0
  }

  /** The number a string of decimal digits denotes. */
  function DigitsValue(s: string): nat {
    if s == "" then 0 else 10 * DigitsValue(s[..|s| - 1]) + DigitValue(s[|s| - 1])
  }

  /** Reading the padded digits back gives the number, when it fits. */
  lemma {:induction false} DigitsRoundTrip(n: nat, w: nat)
    requires n < Pow10(w)
    ensures DigitsValue(Digits(n, w)) == n
  {
    if w > 0 {
      var s := Digits(n, w);
      assert s[..w - 1] == Digits(n / 10, w - 1);
      DigitsRoundTrip(n / 10, w - 1);
    }
  }

  /** `strftime("%Y%m%d-%H%M%S")`. */
  function Strftime(t: UtcTime): (stamp: string)
    ensures |stamp| == 15 && stamp[8] == '-'
    ensures forall i :: 0 <= i < 15 && i != 8 ==> IsDigit(stamp[i])
  {
    Digits(t.year, 4) + Digits(t.month, 2) + Digits(t.day, 2) + "-"
    + Digits(t.hour, 2) + Digits(t.minute, 2) + Digits(t.second, 2)
  }

  /** `f"postgres-{timestamp}.dump"`. */
  function Filename(t: UtcTime): (name: string)
    ensures |name| == 29
    ensures name[..9] == "postgres-" && name[17] == '-' && name[24..] == ".dump"
    ensures forall i :: 9 <= i < 17 ==> IsDigit(name[i])
    ensures forall i :: 18 <= i < 24 ==> IsDigit(name[i])
  {
    "postgres-" + Strftime(t) + ".dump"
  }

  /** Reads the second-resolution time back out of a dump file name. */
  function StampOf(name: string): UtcTime
    requires |name| == 29
  {
    UtcTime(DigitsValue(name[9..13]), DigitsValue(name[13..15]), DigitsValue(name[15..17]),
            DigitsValue(name[18..20]), DigitsValue(name[20..22]), DigitsValue(name[22..24]), 0)
  }

  /** Where each field sits in the file name. */
  lemma FilenameFields(t: UtcTime)
    ensures Filename(t)[9..13] == Digits(t.year, 4) && Filename(t)[13..15] == Digits(t.month, 2)
    ensures Filename(t)[15..17] == Digits(t.day, 2) && Filename(t)[18..20] == Digits(t.hour, 2)
    ensures Filename(t)[20..22] == Digits(t.minute, 2) && Filename(t)[22..24] == Digits(t.second, 2)
  {
    var y, mo, d := Digits(t.year, 4), Digits(t.month, 2), Digits(t.day, 2);
    var h, mi, s := Digits(t.hour, 2), Digits(t.minute, 2), Digits(t.second, 2);
    assert Filename(t) == "postgres-" + y + mo + d + "-" + h + mi + s + ".dump";
  }

  /** The file name records the time to the second and nothing more. */
  lemma FilenameRoundTrip(t: UtcTime)
    requires ValidTime(t)
    ensures StampOf(Filename(t)) == Second(t)
  {
    FilenameFields(t);
    assert Pow10(2) == 100 && Pow10(4) == 10000;
    DigitsRoundTrip(t.year, 4);
    DigitsRoundTrip(t.month, 2);
    DigitsRoundTrip(t.day, 2);
    DigitsRoundTrip(t.hour, 2);
    DigitsRoundTrip(t.minute, 2);
    DigitsRoundTrip(t.second, 2);
  }

  /** Two runs get the same file name exactly when they start in the same
      UTC second. */
  lemma FilenameInjective(t1: UtcTime, t2: UtcTime)
    requires ValidTime(t1) && ValidTime(t2)
    ensures Filename(t1) == Filename(t2) <==> Second(t1) == Second(t2)
  {
    if Filename(t1) == Filename(t2) {
      FilenameRoundTrip(t1);
      FilenameRoundTrip(t2);
    }
    if Second(t1) == Second(t2) {
      assert t1.year == t2.year && t1.month == t2.month && t1.day == t2.day;
      assert t1.hour == t2.hour && t1.minute == t2.minute && t1.second == t2.second;
    }
  }

  /** What `Path(dir) / name` puts in front of `name`, for a `dir` already
      in `pathlib`'s normal form (no trailing `/` except the root). */
  function DirPrefix(dir: string): string {
    if dir == "" || dir == "." then ""
    else if dir[|dir| - 1] == '/' then dir
    else dir + "/"
  }

  /** `str(Path(dir) / name)`. */
  function JoinPath(dir: string, name: string): (p: string)
    ensures |p| >= |name| && p[|p| - |name|..] == name
  {
    DirPrefix(dir) + name
  }

  /** In one directory, different names give different paths. */
  lemma JoinPathInjective(dir: string, a: string, b: string)
    ensures JoinPath(dir, a) == JoinPath(dir, b) <==> a == b
  {
    var n := |DirPrefix(dir)|;
    assert JoinPath(dir, a)[n..] == a;
    assert JoinPath(dir, b)[n..] == b;
  }

  /** `str(BACKUP_DIR / f"postgres-{timestamp}.dump")`. */
  function OutputPath(backupDir: string, t: UtcTime): (out: string)
    ensures |out| >= 29 && out[|out| - 29..] == Filename(t)
  {
    JoinPath(backupDir, Filename(t))
  }

  /** Runs started in different seconds write (and record) different paths;
      runs in the same second collide on one path. */
  lemma OutputPathDistinct(backupDir: string, t1: UtcTime, t2: UtcTime)
    requires ValidTime(t1) && ValidTime(t2)
    ensures OutputPath(backupDir, t1) == OutputPath(backupDir, t2) <==> Second(t1) == Second(t2)
  {
    JoinPathInjective(backupDir, Filename(t1), Filename(t2));
    FilenameInjective(t1, t2);
  }

  /** The string literals of the `pg_dump` command line. */
  const ArgvLiterals: set<string> :=
    {"pg_dump", "-h", "localhost", "-p", "5432", "-U", "postgres", "-F", "c", "-b", "-v", "-f"}

  /** The `pg_dump` argument vector: custom format (`-F c`) with large
      objects (`-b`), verbose, written to `out`, of database `postgres` on
      `localhost:5432` as user `postgres`. */
  function PgDumpArgv(out: string): (argv: seq<string>)
    ensures |argv| == 14 && argv[0] == "pg_dump"
    ensures argv[1] == "-h" && argv[2] == "localhost" && argv[3] == "-p" && argv[4] == "5432"
    ensures argv[5] == "-U" && argv[6] == "postgres" && argv[7] == "-F" && argv[8] == "c"
    ensures argv[11] == "-f" && argv[12] == out && argv[13] == "postgres"
    ensures forall i :: 0 <= i < |argv| && i != 12 ==> argv[i] in ArgvLiterals
  {
    ["pg_dump", "-h", "localhost", "-p", "5432", "-U", "postgres", "-F", "c", "-b", "-v", "-f", out, "postgres"]
  }

  /** The command line carries no secret: a password that is neither one of
      the fixed literals nor the output path does not occur in it. */
  lemma ArgvHoldsNoSecret(out: string, secret: string)
    requires secret != out && secret !in ArgvLiterals
    ensures secret !in PgDumpArgv(out)
  {
    var argv := PgDumpArgv(out);
    forall i | 0 <= i < |argv| ensures argv[i] != secret {
      if i != 12 {
        assert argv[i] in ArgvLiterals;
      }
    }
  }

  /** `os.getenv(key, default)`. */
  function Getenv(env: Env, key: string, default: string): string {
    if key in env then env[key] else default
  }

  /** The password handed to `pg_dump`. */
  function Password(environ: Env): string {
    Getenv(environ, "POSTGRES_PASSWORD", "postgrespass")
  }

  /** `env = os.environ.copy(); env["PGPASSWORD"] = ...`: the parent's
      environment with only `PGPASSWORD` set to the password. */
  function ChildEnv(environ: Env): (env: Env)
    ensures "PGPASSWORD" in env
    ensures "POSTGRES_PASSWORD" in environ ==> env["PGPASSWORD"] == environ["POSTGRES_PASSWORD"]
    ensures "POSTGRES_PASSWORD" !in environ ==> env["PGPASSWORD"] == "postgrespass"
    ensures env.Keys == environ.Keys + {"PGPASSWORD"}
    ensures forall k :: k in environ && k != "PGPASSWORD" ==> env[k] == environ[k]
  {
    environ["PGPASSWORD" := Password(environ)]
  }
}
