# PostgreSQL backup attempt recorder — Dafny model

`scripts/backup_postgres.py` runs one backup of a PostgreSQL database and
keeps an audit trail of it. When the module is imported it opens
`metadata.db` and runs `CREATE TABLE IF NOT EXISTS backups (...)`. Then
`run_pg_dump`:

1. names the artifact `postgres-YYYYMMDD-HHMMSS.dump` after the current UTC
   second, inside the backup directory;
2. runs `pg_dump` on that path. The password reaches it through
   `PGPASSWORD` in a copy of the environment, never through the command line;
3. on success, hashes the artifact with SHA-256 in 8192-byte chunks, reads
   its size and inserts one `OK` row;
4. when `pg_dump` exits non-zero (`CalledProcessError`), inserts one `FAILED`
   row and raises the same error again;
5. on any other exception, inserts nothing and lets it propagate.

The model has five modules:

- `Types`: bytes, `Option`, the exceptions, and `Result`. `Result` stands in
  for Python's exception propagation.
- `Naming`: the pure constructors. These are the file name from a UTC time,
  `pathlib` joining, the `pg_dump` argv and the child environment. It also
  proves that file names are injective per second and that the argv carries
  no secret.
- `Hashing`: `sha256_of_file` as an imperative loop. A `Reader` object reads
  the file and a `Sha256` accumulator holds the bytes fed to it and records
  each `update` call. The hash function is a parameter
  `digest: seq<byte> -> string`.
- `MetadataStore`: the `backups` table as a class holding an append-only
  `seq<Row>`. It also gives SQLite's rowid rule for `INTEGER PRIMARY KEY`.
- `BackupPostgres`: `run_pg_dump` as a method on the table.

The method takes its collaborators as parameters:

- `pgDump(argv, env)` stands for `subprocess.run`. It returns either the
  disk after the dump or the exception raised.
- `digest` stands for SHA-256 in hex.
- `now`, `duration` and `createdAt` stand for the clock readings.
- `environ` stands for `os.environ`.

The disk maps paths to files. Opening a missing path raises `OSError`.
Each file can carry an offset from which reads fail, which models an I/O
error part-way through the file.

Points of the code's behaviour worth knowing:

- An OK row can have `size_bytes` 0: the code records whatever `stat`
  reports, so an empty artifact gives an OK row of size 0, and `RunPgDump`
  states that.
- The FAILED row stores the literal `0.0` as its duration.
- A failed `open` raises an `OSError` naming the path; a read failing
  part-way through the file raises one that names no file.
- The child environment is a full copy of the parent's. If the parent has
  `POSTGRES_PASSWORD` set, the child receives that variable too, as well as
  `PGPASSWORD`. `ChildEnv` states this exactly: only `PGPASSWORD` differs
  from the parent. The secret stays out of argv either way.

## Model

| member | source | states |
|---|---|---|
| `Naming.Digits` | scripts/backup_postgres.py:33 | the `%0wd` field is exactly `w` characters, all decimal digits |
| `Naming.DigitsRoundTrip` | scripts/backup_postgres.py:33 | reading the zero-padded digits back gives the number whenever it fits in `w` digits |
| `Naming.Strftime` | scripts/backup_postgres.py:33 | the timestamp is 15 characters: 8 digits, `-`, 6 digits; its value is fixed by `Naming.FilenameRoundTrip` |
| `Naming.Filename` | scripts/backup_postgres.py:33-34 | the name is 29 characters: `postgres-`, 8 digits, `-`, 6 digits, `.dump` |
| `Naming.FilenameRoundTrip` | scripts/backup_postgres.py:33-34 | decoding the name recovers the UTC time truncated to the second |
| `Naming.FilenameInjective` | scripts/backup_postgres.py:33-34 | two valid times give the same file name if and only if they fall in the same second |
| `Naming.JoinPath` | scripts/backup_postgres.py:34 | `Path(dir) / name` ends with `name` |
| `Naming.JoinPathInjective` | scripts/backup_postgres.py:34 | within one directory, paths are equal if and only if the names are |
| `Naming.OutputPath` | scripts/backup_postgres.py:34 | `str(out)` ends with the dump file name; distinctness is stated by `Naming.OutputPathDistinct` |
| `Naming.OutputPathDistinct` | scripts/backup_postgres.py:33-34 | runs in different seconds get different `file_path` values; runs in the same second collide |
| `Naming.PgDumpArgv` | scripts/backup_postgres.py:36 | argv is `pg_dump` with host `localhost`, port `5432`, user `postgres`, format `c`, `-f out`, ending with database `postgres`; every element except `out` is a fixed literal |
| `Naming.ArgvHoldsNoSecret` | scripts/backup_postgres.py:36-38 | a password that is neither a fixed literal nor the output path never occurs in argv |
| `Naming.Password` | scripts/backup_postgres.py:38 | definition; its meaning is stated by `Naming.ChildEnv`'s contract |
| `Naming.ChildEnv` | scripts/backup_postgres.py:37-38 | the child env has `PGPASSWORD` equal to the parent's `POSTGRES_PASSWORD` when that is set and `postgrespass` otherwise, the parent's keys plus `PGPASSWORD`, and every other value unchanged |
| `Hashing.Reader.Open` | scripts/backup_postgres.py:27 | a freshly opened file is positioned at offset 0 |
| `Hashing.Reader.Read` | scripts/backup_postgres.py:28 | `f.read(n)` returns the next at most `n` bytes and advances past them; it returns empty at end of file and raises an `OSError` naming no file at a failing offset without moving |
| `Hashing.Sha256.constructor` | scripts/backup_postgres.py:26 | a new accumulator has absorbed nothing |
| `Hashing.Sha256.Update` | scripts/backup_postgres.py:29 | `update` appends the chunk to the absorbed bytes and records the call |
| `Hashing.Sha256.HexDigest` | scripts/backup_postgres.py:30 | definition; its meaning is stated by `Hashing.Sha256OfFile`'s contract |
| `Hashing.Sha256OfFile` | scripts/backup_postgres.py:25-30 | result is the digest of the whole file exactly when it opens and reads to the end; else `OSError` naming the path when it is missing, or naming no file when a read fails; the recorded `update` arguments are non-empty, at most 8192 bytes, all but the last exactly 8192, and concatenate to the file's bytes |
| `MetadataStore.MaxId` | scripts/backup_postgres.py:12 | the largest rowid in use: no row exceeds it and some row has it |
| `MetadataStore.NextRowId` | scripts/backup_postgres.py:12 | the rowid SQLite assigns is 1 for an empty table, else one more than the largest rowid, so it exceeds every existing id |
| `MetadataStore.InsertKeepsIdsDistinct` | scripts/backup_postgres.py:12 | appending under the next rowid keeps the primary key unique |
| `MetadataStore.BackupsTable.Connect` | scripts/backup_postgres.py:9 | connecting exposes the file's existing table state and rows |
| `MetadataStore.BackupsTable.CreateTableIfNotExists` | scripts/backup_postgres.py:10-23 | afterwards the table exists and its rows are exactly those before, so repeating it changes nothing |
| `MetadataStore.BackupsTable.Insert` | scripts/backup_postgres.py:44-46 | appends exactly one row under the next rowid, leaves earlier rows untouched and keeps ids unique |
| `BackupPostgres.SuccessRecord` | scripts/backup_postgres.py:44-45 | the OK row for `out`: checksum is the digest of the contents, size their length, notes NULL |
| `BackupPostgres.FailureRecord` | scripts/backup_postgres.py:49-50 | the FAILED row for `out`: checksum NULL, size 0, duration 0.0, notes the error message |
| `BackupPostgres.RunPgDump` | scripts/backup_postgres.py:32-52 | on dump success and readable artifact, returns and appends one OK row (`postgres`, `str(out)`, digest of the file at `out`, its length, duration, NULL notes); on an unreadable artifact, raises `OSError` and appends nothing; on `CalledProcessError`, appends one FAILED row (NULL checksum, size 0, duration 0.0, notes `str(e)`) and re-raises it; on any other error, re-raises it and appends nothing. Earlier rows are a prefix of the new ones, and a row is added exactly when the run returns or re-raises `CalledProcessError`. Every row it adds is consistent with its status |

## Left out

- Running `pg_dump`: it is an external process. It is the parameter `pgDump`, which maps argv and env to the disk afterwards or the exception raised.
- The SHA-256 algorithm and `hexdigest`: they come from `hashlib`. They are the parameter `digest`. The `Sha256` accumulator keeps the bytes it absorbed, not a hash state.
- `datetime.utcnow()` and `time.time()`: they are clocks. They are the parameters `now`, `createdAt` and `duration`, and the float duration is a `real`.
- Years outside 1000–9999: `%Y` yields exactly four digits only for years 1000–9999, so `ValidTime` excludes the rest.
- SQLite connection lifetime, `commit`, durability and write failures: they are I/O. The table is an in-memory sequence, and `INSERT` and `commit` never fail.
- SQLite's random rowid choice once the largest rowid is 2^63-1: no run of this script reaches it.
- `RunPgDump`: it requires the table to exist. In the source, the module-level `CREATE TABLE IF NOT EXISTS` always runs before `run_pg_dump` can be called.
- `out.stat()`: the size is taken from the same disk the hash read. The file changing between hashing and `stat` is not modelled.
- Short reads: `f.read(8192)` on a regular file returns a full chunk unless it reaches end of file, and `Reader.Read` models exactly that.
- `BACKUP_DIR` and `pathlib` normalisation: `backupDir` is `str(BACKUP_DIR)`, taken as already normalised. `BACKUP_DIR.mkdir`, the `os.getenv` default for `BACKUP_DIR` and `print` are not modelled.
- `CalledProcessError`'s message text: it is an opaque string carried by the error.
- Behaviour the code does not have is not modelled: a timeout, a measured duration on failure, a distinct record for a hashing failure, and disambiguating file names within one second.
