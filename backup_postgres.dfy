/** `run_pg_dump`: one backup attempt.  It names the dump file after the
    current UTC second, runs `pg_dump` with the password in the child's
    environment only, and records the attempt in the `backups` table:
    - the dump succeeds: the artifact is hashed and its size read, then one
      OK row is appended (a hashing failure propagates and writes nothing);
    - `pg_dump` exits non-zero (`CalledProcessError`): one FAILED row is
      appended and the same error is raised again;
    - any other exception: it propagates and nothing is written.
    The external process, the clocks and the hash algorithm are parameters. */
module BackupPostgres {
  import opened Types
  import opened Naming
  import opened Hashing
  import opened MetadataStore

  /** The OK row: `notes` is not in the column list, so it is NULL. */
  function SuccessRecord(out: string, contents: seq<byte>, digest: seq<byte> -> string,
                         createdAt: string, duration: real): (b: Backup)
    ensures Consistent(b) && b.status == OK && b.filePath == out
    ensures b.checksum == Some(digest(contents)) && b.sizeBytes == |contents|
  {
    Backup("postgres", out, Some(digest(contents)), |contents|, OK, createdAt, duration, None)
  }

  /** The FAILED row: no checksum, size 0, duration 0.0, `notes = str(e)`. */
  function FailureRecord(out: string, message: string, createdAt: string): (b: Backup)
    ensures Consistent(b) && b.status == FAILED && b.filePath == out && b.notes == Some(message)
  {
    Backup("postgres", out, None, 0, FAILED, createdAt, 0.0, Some(message))
  }

  /** One run of `run_pg_dump` against the table `db`.
      `now` is `datetime.utcnow()` when the file is named, `environ` is
      `os.environ`, `pgDump(argv, env)` is `subprocess.run(argv, check=True,
      env=env)` (the disk afterwards, or the exception it raises), `digest`
      is SHA-256 in hex, `duration` is `time.time() - start` and
      `createdAt` is `datetime.utcnow().isoformat()` at insert time. */
  method RunPgDump(db: BackupsTable, backupDir: string, now: UtcTime, environ: Env,
                   pgDump: (seq<string>, Env) -> Result<Disk>, digest: seq<byte> -> string,
                   duration: real, createdAt: string)
    returns (r: Result<()>)
    requires db.Valid() && db.tableExists && ValidTime(now)
    modifies db
    ensures db.Valid() && db.tableExists
    // Append-only: earlier rows stay as they were, at most one row is added,
    // and it is added exactly when the run returns or re-raises pg_dump's error.
    ensures old(db.rows) <= db.rows
    ensures |db.rows| == |old(db.rows)| + (if r.Ok? || r.error.CalledProcessError? then 1 else 0)
    ensures forall i :: |old(db.rows)| <= i < |db.rows| ==>
              db.rows[i].id == NextRowId(old(db.rows)) && Consistent(db.rows[i].backup)
    ensures var out := OutputPath(backupDir, now);
            var dumped := pgDump(PgDumpArgv(out), ChildEnv(environ));
            && (dumped.Ok? && Hashable(dumped.value, out) ==>
                  r == Ok(()) &&
                  db.rows == old(db.rows) + [Row(NextRowId(old(db.rows)),
                    SuccessRecord(out, dumped.value[out].contents, digest, createdAt, duration))])
            && (dumped.Ok? && !Hashable(dumped.value, out) ==>
                  r == Err(HashError(dumped.value, out)) && db.rows == old(db.rows))
            && (dumped.Err? && dumped.error.CalledProcessError? ==>
                  r == Err(dumped.error) &&
                  db.rows == old(db.rows) + [Row(NextRowId(old(db.rows)),
                    FailureRecord(out, dumped.error.message, createdAt))])
            && (dumped.Err? && !dumped.error.CalledProcessError? ==>
                  r == Err(dumped.error) && db.rows == old(db.rows))
  {
    var out := JoinPath(backupDir, "postgres-" + Strftime(now) + ".dump");
    var cmd := PgDumpArgv(out);
    var env := ChildEnv(environ);
    var dumped := pgDump(cmd, env);
    if dumped.Ok? {
      var disk := dumped.value;
      var checksum;
      ghost var chunks;
      checksum, chunks := Sha256OfFile(disk, out, digest);
      if checksum.Err? {
        return Err(checksum.error);
      }
      var size := |disk[out].contents|;  // out.stat().st_size
      var id := db.Insert(Backup("postgres", out, Some(checksum.value), size, OK,
                                 createdAt, duration, None));
      r := Ok(());
    } else if dumped.error.CalledProcessError? {
      var id := db.Insert(Backup("postgres", out, None, 0, FAILED,
                                 createdAt, 0.0, Some(dumped.error.message)));
      r := Err(dumped.error);
    } else {
      r := Err(dumped.error);
    }
  }
}
