/**
 * The database side of a restore (ufload/db.py): the `psql` and `pg_restore` command
 * lines, the "show only" mode of `_run`, and `load_into`, which creates a staging
 * database `<db>_<pid>`, restores the dump into it, drops the target and renames the
 * staging database into its place, stopping at the first command that fails.
 */
module Db {
  import opened Wrappers
  import opened Bytes
  import Text

  /** Size of the reads that feed `pg_restore`. */
  const CHUNK: nat := 8192

  /** The parsed options the database layer reads (`-n`, `-db-host`, `-db-port`, `-db-user`). */
  datatype PgArgs = PgArgs(show: bool, dbHost: Option<string>, dbPort: Option<string>, dbUser: Option<string>)

  /** The executables `_find_exe` resolved for `psql` and `pg_restore`. */
  datatype Exes = Exes(psql: string, pgRestore: string)

  /** `sys.platform == "win32"` or not. */
  datatype Platform = Posix | Windows

  // ---------------------------------------------------------------------------------
  // Command lines

  /** Sort key of the connection flags: `-h` before `-p` before `-U`; 3 for anything else. */
  function FlagRank(flag: string): nat
  {
    if flag == "-h" then 0 else if flag == "-p" then 1 else if flag == "-U" then 2 else 3
  }

  /** The option a connection flag carries. */
  function OptionOf(args: PgArgs, flag: string): Option<string>
  {
    if flag == "-h" then args.dbHost
    else if flag == "-p" then args.dbPort
    else if flag == "-U" then args.dbUser
    else None
  }

  function SetCount(args: PgArgs): nat
  {
    (if args.dbHost.Some? then 1 else 0) + (if args.dbPort.Some? then 1 else 0) + (if args.dbUser.Some? then 1 else 0)
  }

  /** `pg_common`: the connection flags of the options that are set. */
  function PgCommon(args: PgArgs): seq<string>
  {
    (if args.dbHost.Some? then ["-h", args.dbHost.value] else [])
    + (if args.dbPort.Some? then ["-p", args.dbPort.value] else [])
    + (if args.dbUser.Some? then ["-U", args.dbUser.value] else [])
  }

  /**
   * `pg_common` yields a flag and its value for every connection option that is set and
   * for no other, in the order host, port, user.
   */
  lemma PgCommonShape(args: PgArgs)
    ensures var r := PgCommon(args);
            && |r| == 2 * SetCount(args)
            && (forall i :: 0 <= i < SetCount(args) ==> FlagRank(r[2 * i]) < 3 && OptionOf(args, r[2 * i]) == Some(r[2 * i + 1]))
            && (forall i, j :: 0 <= i < j < SetCount(args) ==> FlagRank(r[2 * i]) < FlagRank(r[2 * j]))
  {
    var r := PgCommon(args);
    PgCommonCases(args);
    if SetCount(args) == 3 {
      assert FlagRank(r[0]) == 0 && FlagRank(r[2]) == 1 && FlagRank(r[4]) == 2;
    }
  }

  /** `pg_common` for each combination of set options. */
  lemma PgCommonCases(args: PgArgs)
    ensures var r := PgCommon(args);
            match (args.dbHost, args.dbPort, args.dbUser)
            case (Some(h), Some(p), Some(u)) => r == ["-h", h, "-p", p, "-U", u]
            case (Some(h), Some(p), None) => r == ["-h", h, "-p", p]
            case (Some(h), None, Some(u)) => r == ["-h", h, "-U", u]
            case (Some(h), None, None) => r == ["-h", h]
            case (None, Some(p), Some(u)) => r == ["-p", p, "-U", u]
            case (None, Some(p), None) => r == ["-p", p]
            case (None, None, Some(u)) => r == ["-U", u]
            case (None, None, None) => r == []
  {
  }

  /** The SQL statements `load_into` sends through `psql`. */
  datatype Statement =
    | CreateDatabase(name: string)
    | DropDatabaseIfExists(name: string)
    | RenameDatabase(from: string, to: string)

  function Quoted(name: string): string
  {
    "\"" + name + "\""
  }

  function SqlText(s: Statement): string
  {
    match s
    case CreateDatabase(name) => "CREATE DATABASE " + Quoted(name)
    case DropDatabaseIfExists(name) => "DROP DATABASE IF EXISTS " + Quoted(name)
    case RenameDatabase(from, to) => "ALTER DATABASE " + Quoted(from) + " RENAME TO " + Quoted(to)
  }

  /** The command line `psql` builds: connection flags, then `-q -c <sql>` against `postgres`. */
  function PsqlCommand(exes: Exes, args: PgArgs, sql: string): seq<string>
  {
    [exes.psql] + PgCommon(args) + ["-q", "-c", sql, "postgres"]
  }

  /**
   * The `pg_restore` command line of `load_into`: connection flags, then the restore
   * options into `db2`; on Windows the temporary file to read comes last.
   */
  function RestoreCommand(exes: Exes, args: PgArgs, db2: string, file: Option<string>): seq<string>
  {
    [exes.pgRestore] + PgCommon(args) + ["--no-acl", "--no-owner", "-d", db2, "-n", "public"]
    + (if file.Some? then [file.value] else [])
  }

  /** A command `load_into` runs: a statement through `psql`, or `pg_restore` (reading `file`, or its standard input). */
  datatype Command = RunSql(sql: Statement) | RunRestore(db2: string, file: Option<string>)

  /** The command line of a command. */
  function Argv(cmd: Command, exes: Exes, args: PgArgs): seq<string>
  {
    match cmd
    case RunSql(s) => PsqlCommand(exes, args, SqlText(s))
    case RunRestore(db2, file) => RestoreCommand(exes, args, db2, file)
  }

  /** The `psql` command line: the connection flags, then `-q -c <sql>` against the `postgres` database. */
  lemma PsqlArgvShape(exes: Exes, args: PgArgs, s: Statement)
    ensures var cmd := Argv(RunSql(s), exes, args);
            var k := |PgCommon(args)|;
            && |cmd| == k + 5 && cmd[0] == exes.psql && cmd[1..k + 1] == PgCommon(args)
            && cmd[k + 1..] == ["-q", "-c", SqlText(s), "postgres"]
  {
  }

  /**
   * The `pg_restore` command line: the connection flags, the restore options into `db2`
   * (no ACLs, no owners, schema `public`), and the file to read when there is one.
   */
  lemma RestoreArgvShape(exes: Exes, args: PgArgs, db2: string, file: Option<string>)
    ensures var cmd := Argv(RunRestore(db2, file), exes, args);
            var k := |PgCommon(args)|;
            && |cmd| == k + 7 + (if file.Some? then 1 else 0)
            && cmd[0] == exes.pgRestore && cmd[1..k + 1] == PgCommon(args)
            && cmd[k + 1..k + 7] == ["--no-acl", "--no-owner", "-d", db2, "-n", "public"]
            && (file.Some? ==> cmd[k + 7] == file.value)
  {
  }

  /** The staging database: the target name, `_`, and the process id. */
  function StagingName(db: string, pid: nat): (db2: string)
    ensures db2 != db && |db2| > |db| + 1
    ensures db2[..|db|] == db && db2[|db|] == '_'
    ensures forall k :: |db| + 1 <= k < |db2| ==> '0' <= db2[k] <= '9'
    ensures Text.ParseDigits(db2[|db| + 1..]) == pid
  {
    var digits := Text.NatToString(pid);
    Text.NatToStringRoundTrip(pid);
    var db2 := db + "_" + digits;
    assert db2[|db| + 1..] == digits;
    db2
  }

  // ---------------------------------------------------------------------------------
  // The swap as a state machine

  /** The four commands of `load_into`. */
  datatype Step = Create | Restore | Drop | Rename

  /** The exit code each command gets (from `psql`, or from `pg_restore` for the restore). */
  datatype Codes = Codes(create: int, restore: int, drop: int, rename: int)
  {
    function Of(step: Step): int
    {
      match step
      case Create => create
      case Restore => restore
      case Drop => drop
      case Rename => rename
    }
  }

  /** What `load_into` returns: an exit code, or the `ZeroDivisionError` of a zero size. */
  datatype LoadResult = Returned(rc: int) | DivisionByZero

  datatype Plan = Plan(steps: seq<Step>, result: LoadResult)

  /**
   * The commands `load_into` issues, in order, and its result, given the codes they
   * return and whether progress reporting divides by zero.
   */
  function SwapPlan(platform: Platform, codes: Codes, crash: bool): Plan
  {
    if codes.create != 0 then Plan([Create], Returned(codes.create))
    else if platform == Windows then Plan([Create, Restore], Returned(codes.restore))
    else if crash then Plan([Create, Restore], DivisionByZero)
    else if codes.restore != 0 then Plan([Create, Restore], Returned(codes.restore))
    else if codes.drop != 0 then Plan([Create, Restore, Drop], Returned(codes.drop))
    else Plan([Create, Restore, Drop, Rename], Returned(codes.rename))
  }

  /** In `-n` mode nothing runs and every command counts as succeeding. */
  function EffectiveCodes(show: bool, codes: Codes): Codes
  {
    if show then Codes(0, 0, 0, 0) else codes
  }

  /** What one successful command does to the set of databases. */
  function Apply(dbs: set<string>, step: Step, db: string, db2: string): set<string>
  {
    match step
    case Create => dbs + {db2}
    case Restore => dbs
    case Drop => dbs - {db}
    case Rename => dbs - {db2} + {db}
  }

  /** The databases after running `steps`; a command with a non-zero code changes nothing. */
  function Effect(dbs: set<string>, steps: seq<Step>, codes: Codes, db: string, db2: string): set<string>
  {
    if steps == [] then dbs
    else
      var before := Effect(dbs, steps[..|steps| - 1], codes, db, db2);
      var step := steps[|steps| - 1];
      if codes.Of(step) == 0 then Apply(before, step, db, db2) else before
  }

  /** A failed `CREATE DATABASE` is returned at once; nothing else is issued. */
  lemma CreateFailureStops(platform: Platform, codes: Codes, crash: bool)
    requires codes.create != 0
    ensures SwapPlan(platform, codes, crash) == Plan([Create], Returned(codes.create))
  {
  }

  /**
   * The target is dropped only after a successful restore and renamed over only after a
   * successful drop, and only on the non-Windows path.
   */
  lemma DropAndRenameOrder(platform: Platform, codes: Codes, crash: bool)
    ensures var p := SwapPlan(platform, codes, crash);
            && (Drop in p.steps ==> platform == Posix && !crash && p.steps[..3] == [Create, Restore, Drop] &&
                                    codes.create == 0 && codes.restore == 0)
            && (Rename in p.steps ==> p.steps == [Create, Restore, Drop, Rename] && codes.drop == 0)
  {
  }

  /** The Windows branch returns the restore's code and never drops or renames. */
  lemma WindowsNeverSwaps(codes: Codes, crash: bool)
    ensures var p := SwapPlan(Windows, codes, crash);
            Drop !in p.steps && Rename !in p.steps &&
            (codes.create == 0 ==> p.result == Returned(codes.restore))
  {
  }

  /** Every command but the last one issued succeeded: the sequence stops at the first failure. */
  lemma StopsAtFirstFailure(platform: Platform, codes: Codes, crash: bool)
    ensures var p := SwapPlan(platform, codes, crash);
            && (forall i :: 0 <= i < |p.steps| - 1 ==> codes.Of(p.steps[i]) == 0)
            && (p.result.Returned? ==> p.result.rc == codes.Of(p.steps[|p.steps| - 1]))
  {
  }

  /**
   * A failed restore leaves the target as it was and leaves the staging database behind:
   * there is no rollback.
   */
  lemma RestoreFailureKeepsTarget(dbs: set<string>, codes: Codes, db: string, pid: nat, crash: bool)
    requires codes.create == 0 && (codes.restore != 0 || crash)
    ensures var db2 := StagingName(db, pid);
            var after := Effect(dbs, SwapPlan(Posix, codes, crash).steps, codes, db, db2);
            after == dbs + {db2} && (db in after <==> db in dbs)
  {
    var db2 := StagingName(db, pid);
    assert [Create, Restore][..1] == [Create] && [Create][..0] == [];
    assert Effect(dbs, [Create], codes, db, db2) == dbs + {db2};
    assert Effect(dbs, [Create, Restore], codes, db, db2) == dbs + {db2};
  }

  /**
   * After a fully successful swap the target name exists, the staging name does not, and
   * no other database changed.
   */
  lemma SwapSuccess(dbs: set<string>, codes: Codes, db: string, pid: nat)
    requires codes == Codes(0, 0, 0, 0)
    ensures var db2 := StagingName(db, pid);
            var after := Effect(dbs, SwapPlan(Posix, codes, false).steps, codes, db, db2);
            && db in after && db2 !in after
            && (forall x :: x != db && x != db2 ==> (x in after <==> x in dbs))
            && SwapPlan(Posix, codes, false).result == Returned(0)
  {
    var db2 := StagingName(db, pid);
    var s := [Create, Restore, Drop, Rename];
    assert s[..3] == [Create, Restore, Drop] && s[..3][..2] == [Create, Restore];
    assert s[..3][..2][..1] == [Create] && [Create][..0] == [];
    assert Effect(dbs, [Create], codes, db, db2) == dbs + {db2};
    assert Effect(dbs, [Create, Restore], codes, db, db2) == dbs + {db2};
    assert Effect(dbs, [Create, Restore, Drop], codes, db, db2) == dbs + {db2} - {db};
    assert Effect(dbs, s, codes, db, db2) == dbs + {db2} - {db} - {db2} + {db};
  }

  // ---------------------------------------------------------------------------------
  // The restore pipe

  /** The next read of at most `CHUNK` bytes from position `pos`. */
  function ReadChunk(data: seq<byte>, pos: nat): (chunk: seq<byte>)
    requires pos <= |data|
    ensures |chunk| <= CHUNK && pos + |chunk| <= |data| && chunk == data[pos..pos + |chunk|]
    ensures chunk == [] <==> pos == |data|
    ensures |chunk| < CHUNK ==> pos + |chunk| == |data|
  {
    if |data| - pos < CHUNK then data[pos..] else data[pos..pos + CHUNK]
  }

  lemma MulCancelLt(a: int, b: int, c: int)
    requires c > 0 && a * c < b * c
    ensures a < b
  {
    if a >= b {
      MulMonotone(b, a, c);
    }
  }

  lemma MulMonotone(a: int, b: int, c: int)
    requires a <= b && c >= 0
    ensures a * c <= b * c
  {
  }

  /**
   * When `n/tot*100 > next`, the reported `int(pct)` is at least `next`, and the new mark
   * `int(pct/10)*10 + 10` lies above it.
   */
  lemma PercentStep(n: nat, sz: nat, next: int)
    requires sz > 0 && n * 100 > next * sz
    ensures next <= n * 100 / sz
    ensures n * 100 / sz < n * 10 / sz * 10 + 10
    ensures n * 100 / sz * sz <= n * 100
  {
    var p := n * 100 / sz;
    var q := n * 10 / sz;
    var r1 := (n * 100) % sz;
    var r2 := (n * 10) % sz;
    assert n * 100 == p * sz + r1 && r1 < sz;
    assert n * 10 == q * sz + r2 && r2 < sz;
    assert next * sz < (p + 1) * sz;
    MulCancelLt(next, p + 1, sz);
    assert p * sz <= n * 100;
    assert n * 100 < (q * 10 + 10) * sz;
    MulCancelLt(p, q * 10 + 10, sz);
  }

  /**
   * The non-Windows copy loop of `load_into`: reads `CHUNK`-byte chunks until an empty
   * read, writes each to `pg_restore`'s standard input, and reports `Restoring: N%` when
   * the percentage of `sz` passes the next ten-percent mark. With `sz` zero the first
   * percentage divides by zero (`raised`), after the first chunk was written.
   */
  method Pump(data: seq<byte>, sz: nat) returns (chunks: seq<seq<byte>>, pcts: seq<int>, raised: bool)
    ensures raised <==> sz == 0 && data != []
    ensures raised ==> chunks == [ReadChunk(data, 0)]
    ensures !raised ==> Flatten(chunks) == data
    ensures forall k :: 0 <= k < |chunks| ==> 0 < |chunks[k]| <= CHUNK
    ensures forall k :: 0 <= k < |chunks| - 1 ==> |chunks[k]| == CHUNK
    ensures forall i, j :: 0 <= i < j < |pcts| ==> pcts[i] < pcts[j]
    ensures forall i :: 0 <= i < |pcts| ==> 10 <= pcts[i] && pcts[i] * sz <= |data| * 100
  {
    chunks, pcts, raised := [], [], false;
    var pos := 0;
    var n := 0;
    var next := 10;
    while true
      invariant n == pos && Chunked(chunks, data, pos)
      invariant chunks != [] ==> sz > 0
      invariant Reported(pcts, sz, n, next)
      decreases |data| - pos
    {
      var chunk := ReadChunk(data, pos);
      if chunk == [] {
        break;
      }
      ChunkedMore(chunks, data, pos);
      chunks := chunks + [chunk];
      pos := pos + |chunk|;
      ReportedLater(pcts, sz, n, n + |chunk|, next);
      n := n + |chunk|;
      if sz == 0 {
        raised := true;
        assert chunks == [ReadChunk(data, 0)];
        ReportedLater(pcts, sz, n, |data|, next);
        return;
      }
      if n * 100 > next * sz {
        ReportedMore(pcts, sz, n, next);
        var pct := n * 100 / sz;
        pcts := pcts + [pct];
        next := n * 10 / sz * 10 + 10;
      }
    }
    assert data[..pos] == data;
  }

  /** `chunks` are the reads that took the first `pos` bytes of `data`: full chunks, then possibly a short last one. */
  ghost predicate Chunked(chunks: seq<seq<byte>>, data: seq<byte>, pos: nat)
  {
    && pos <= |data|
    && Flatten(chunks) == data[..pos]
    && (forall k :: 0 <= k < |chunks| ==> 0 < |chunks[k]| <= CHUNK)
    && (forall k :: 0 <= k < |chunks| - 1 ==> |chunks[k]| == CHUNK)
    && (chunks != [] && |chunks[|chunks| - 1]| < CHUNK ==> pos == |data|)
  }

  lemma ChunkedMore(chunks: seq<seq<byte>>, data: seq<byte>, pos: nat)
    requires Chunked(chunks, data, pos) && pos < |data|
    ensures var chunk := ReadChunk(data, pos);
            Chunked(chunks + [chunk], data, pos + |chunk|)
  {
    var chunk := ReadChunk(data, pos);
    FlattenAppend(chunks, [chunk]);
    assert data[..pos + |chunk|] == data[..pos] + chunk;
  }

  /** The percentages reported after `n` bytes of `sz`: increasing, from 10, below `next`, and at most the true share. */
  ghost predicate Reported(pcts: seq<int>, sz: nat, n: nat, next: int)
  {
    && next >= 10
    && (forall i, j :: 0 <= i < j < |pcts| ==> pcts[i] < pcts[j])
    && (forall i :: 0 <= i < |pcts| ==> 10 <= pcts[i] < next && pcts[i] * sz <= n * 100)
  }

  lemma ReportedLater(pcts: seq<int>, sz: nat, n: nat, n': nat, next: int)
    requires Reported(pcts, sz, n, next) && n <= n'
    ensures Reported(pcts, sz, n', next)
  {
  }

  lemma ReportedMore(pcts: seq<int>, sz: nat, n: nat, next: int)
    requires Reported(pcts, sz, n, next) && sz > 0 && n * 100 > next * sz
    ensures Reported(pcts + [n * 100 / sz], sz, n, n * 10 / sz * 10 + 10)
  {
    PercentStep(n, sz, next);
  }

  /** The Windows copy loop: the same reads, written to the temporary file. */
  method CopyChunks(data: seq<byte>) returns (chunks: seq<seq<byte>>)
    ensures Flatten(chunks) == data
    ensures forall k :: 0 <= k < |chunks| ==> 0 < |chunks[k]| <= CHUNK
  {
    chunks := [];
    var pos := 0;
    while true
      invariant pos <= |data|
      invariant Flatten(chunks) == data[..pos]
      invariant forall k :: 0 <= k < |chunks| ==> 0 < |chunks[k]| <= CHUNK
      decreases |data| - pos
    {
      var chunk := ReadChunk(data, pos);
      if chunk == [] {
        break;
      }
      FlattenAppend(chunks, [chunk]);
      assert data[..pos + |chunk|] == data[..pos] + chunk;
      chunks := chunks + [chunk];
      pos := pos + |chunk|;
    }
    assert data[..pos] == data;
  }

  // ---------------------------------------------------------------------------------
  // The server and the client's logs

  /** The lines `load_into` passes to `ufload.progress`. */
  datatype Note =
    | Creating(db2: string)
    | RestoringInto(db2: string)
    | StartingRestore
    | TempFileCreated(name: string)
    | Restoring(pct: int)
    | Waiting
    | RestoreDone(rc: int)
    | Dropping(db: string)
    | Renaming(from: string, to: string)

  /** The command a step runs. */
  function StepCommand(step: Step, platform: Platform, db: string, db2: string, tmpName: string): Command
  {
    match step
    case Create => RunSql(CreateDatabase(db2))
    case Restore => RunRestore(db2, if platform == Windows then Some(tmpName) else None)
    case Drop => RunSql(DropDatabaseIfExists(db))
    case Rename => RunSql(RenameDatabase(db2, db))
  }

  function StepCommands(steps: seq<Step>, platform: Platform, db: string, db2: string, tmpName: string): seq<Command>
  {
    if steps == [] then []
    else StepCommands(steps[..|steps| - 1], platform, db, db2, tmpName)
         + [StepCommand(steps[|steps| - 1], platform, db, db2, tmpName)]
  }

  /**
   * The PostgreSQL server as `ufload` sees it (its set of databases), together with the
   * commands the client ran or, in `-n` mode, only showed (each stands for the command
   * line `Argv` gives), its progress lines, and the bytes it fed to `pg_restore`.
   */
  class Cluster {
    var databases: set<string>
    var ran: seq<Command>
    var shown: seq<Command>
    var progress: seq<Note>
    var fed: seq<byte>

    constructor (databases: set<string>)
      ensures this.databases == databases && ran == [] && shown == [] && progress == [] && fed == []
    {
      this.databases := databases;
      ran, shown, progress, fed := [], [], [], [];
    }

    /** `_run`: in `-n` mode show the command and return 0; otherwise run it and return its code. */
    method Run(args: PgArgs, cmd: Command, code: int) returns (rc: int)
      modifies this`ran, this`shown
      ensures args.show ==> rc == 0 && ran == old(ran) && shown == old(shown) + [cmd]
      ensures !args.show ==> rc == code && ran == old(ran) + [cmd] && shown == old(shown)
    {
      if args.show {
        shown := shown + [cmd];
        rc := 0;
      } else {
        ran := ran + [cmd];
        rc := code;
      }
    }

    /** `psql(args, sql)` for one step of the swap; a statement that runs and succeeds takes effect. */
    method Psql(args: PgArgs, platform: Platform, step: Step, db: string, db2: string, tmpName: string, code: int)
      returns (rc: int)
      requires step != Restore
      modifies this`ran, this`shown, this`databases
      ensures var cmd := StepCommand(step, platform, db, db2, tmpName);
              && (args.show ==> rc == 0 && ran == old(ran) && shown == old(shown) + [cmd])
              && (!args.show ==> rc == code && ran == old(ran) + [cmd] && shown == old(shown))
      ensures databases == if args.show || code != 0 then old(databases) else Apply(old(databases), step, db, db2)
    {
      var cmd := StepCommand(step, platform, db, db2, tmpName);
      rc := Run(args, cmd, code);
      if !args.show && rc == 0 {
        databases := Apply(databases, step, db, db2);
      }
    }

    /** The logs and the databases after `steps` of `load_into` were issued, starting from `ran0`, `shown0`, `dbs0`. */
    ghost predicate Logged(show: bool, ran0: seq<Command>, shown0: seq<Command>, dbs0: set<string>, steps: seq<Step>,
                           platform: Platform, db: string, db2: string, tmpName: string, codes: Codes)
      reads this
    {
      LoggedState(ran, shown, databases, show, ran0, shown0, dbs0, steps, platform, db, db2, tmpName, codes)
    }

    /**
     * `load_into(args, db, f, sz)`: `data` is the dump `f` yields, `pid` the process id,
     * `codes` the exit codes the commands get, `tmpName` the Windows temporary file.
     */
    method LoadInto(args: PgArgs, platform: Platform, db: string, pid: nat,
                    data: seq<byte>, sz: nat, codes: Codes, tmpName: string)
      returns (res: LoadResult)
      modifies this`ran, this`shown, this`databases, this`progress, this`fed
      ensures var crash := !args.show && platform == Posix && sz == 0 && data != [];
              var plan := SwapPlan(platform, EffectiveCodes(args.show, codes), crash);
              && res == plan.result
              && Logged(args.show, old(ran), old(shown), old(databases), plan.steps, platform, db, StagingName(db, pid), tmpName, codes)
      ensures fed == old(fed) + if args.show || codes.create != 0 then []
                                 else if platform == Posix && sz == 0 && data != [] then ReadChunk(data, 0)
                                 else data
    {
      var db2 := StagingName(db, pid);
      ghost var plan := SwapPlan(platform, EffectiveCodes(args.show, codes), !args.show && platform == Posix && sz == 0 && data != []);
      ghost var ran0, shown0, dbs0 := ran, shown, databases;
      var rc, crashed;
      ghost var steps;
      rc, crashed, steps := CreateAndRestore(args, platform, db, db2, data, sz, codes, tmpName);
      if platform == Windows || crashed || rc != 0 {
        assert steps == plan.steps;
        return if crashed then DivisionByZero else Returned(rc);
      }
      ghost var codes' := EffectiveCodes(args.show, codes);
      assert plan == if codes'.drop != 0 then Plan([Create, Restore, Drop], Returned(codes'.drop))
                     else Plan([Create, Restore, Drop, Rename], Returned(codes'.rename));
      rc, steps := DropAndRename(args, platform, db, db2, tmpName, codes, ran0, shown0, dbs0, steps);
      assert steps == plan.steps;
      return Returned(rc);
    }

    /** The start of `load_into`: create the staging database, then restore the dump into it. */
    method CreateAndRestore(args: PgArgs, platform: Platform, db: string, db2: string,
                            data: seq<byte>, sz: nat, codes: Codes, tmpName: string)
      returns (rc: int, crashed: bool, ghost steps: seq<Step>)
      modifies this`ran, this`shown, this`databases, this`progress, this`fed
      ensures Logged(args.show, old(ran), old(shown), old(databases), steps, platform, db, db2, tmpName, codes)
      ensures var codes' := EffectiveCodes(args.show, codes);
              && (codes'.create != 0 ==> steps == [Create] && rc == codes'.create && !crashed && fed == old(fed))
              && (codes'.create == 0 ==> steps == [Create, Restore] && (!crashed ==> rc == codes'.restore) &&
                                         (crashed <==> !args.show && platform == Posix && sz == 0 && data != []))
              && fed == old(fed) + if args.show || codes.create != 0 then []
                                   else if crashed then ReadChunk(data, 0)
                                   else data
    {
      ghost var ran0, shown0, dbs0 := ran, shown, databases;
      crashed := false;
      LoggedStart(args.show, ran0, shown0, dbs0, platform, db, db2, tmpName, codes);
      progress := progress + [Creating(db2)];
      rc := Psql(args, platform, Create, db, db2, tmpName, codes.create);
      LoggedStep(args.show, ran0, shown0, dbs0, [], Create, platform, db, db2, tmpName, codes,
                 ran0, shown0, dbs0, ran, shown, databases);
      steps := [] + [Create];
      if rc != 0 {
        return;
      }
      ghost var ran1, shown1, dbs1 := ran, shown, databases;
      progress := progress + [RestoringInto(db2)];
      rc, crashed := RestoreStep(args, platform, db2, data, sz, codes.restore, tmpName);
      LoggedStep(args.show, ran0, shown0, dbs0, steps, Restore, platform, db, db2, tmpName, codes,
                 ran1, shown1, dbs1, ran, shown, databases);
      steps := steps + [Restore];
    }

    /** The end of `load_into`: drop the target, then rename the staging database to it. */
    method DropAndRename(args: PgArgs, platform: Platform, db: string, db2: string, tmpName: string, codes: Codes,
                         ghost ran0: seq<Command>, ghost shown0: seq<Command>, ghost dbs0: set<string>, ghost steps: seq<Step>)
      returns (rc: int, ghost steps': seq<Step>)
      requires Logged(args.show, ran0, shown0, dbs0, steps, platform, db, db2, tmpName, codes)
      modifies this`ran, this`shown, this`databases, this`progress
      ensures Logged(args.show, ran0, shown0, dbs0, steps', platform, db, db2, tmpName, codes)
      ensures var codes' := EffectiveCodes(args.show, codes);
              && steps' == steps + (if codes'.drop == 0 then [Drop, Rename] else [Drop])
              && rc == if codes'.drop == 0 then codes'.rename else codes'.drop
    {
      ghost var ranA, shownA, dbsA := ran, shown, databases;
      progress := progress + [Dropping(db)];
      rc := Psql(args, platform, Drop, db, db2, tmpName, codes.drop);
      LoggedStep(args.show, ran0, shown0, dbs0, steps, Drop, platform, db, db2, tmpName, codes,
                 ranA, shownA, dbsA, ran, shown, databases);
      steps' := steps + [Drop];
      if rc != 0 {
        return;
      }
      ghost var ranB, shownB, dbsB := ran, shown, databases;
      progress := progress + [Renaming(db2, db)];
      rc := Psql(args, platform, Rename, db, db2, tmpName, codes.rename);
      LoggedStep(args.show, ran0, shown0, dbs0, steps', Rename, platform, db, db2, tmpName, codes,
                 ranB, shownB, dbsB, ran, shown, databases);
      steps' := steps' + [Rename];
      assert steps' == steps + [Drop, Rename];
    }

    /**
     * The restore of `load_into`: on Windows the dump is copied to the temporary file and
     * `pg_restore` reads it from there; elsewhere `pg_restore` reads the dump from a pipe fed
     * chunk by chunk (see `Pump`). `crashed` is the `ZeroDivisionError` of a zero size.
     */
    method RestoreStep(args: PgArgs, platform: Platform, db2: string,
                       data: seq<byte>, sz: nat, code: int, tmpName: string)
      returns (rc: int, crashed: bool)
      modifies this`ran, this`shown, this`progress, this`fed
      ensures var cmd := StepCommand(Restore, platform, db2, db2, tmpName);
              && (args.show ==> ran == old(ran) && shown == old(shown) + [cmd] && fed == old(fed))
              && (!args.show ==> ran == old(ran) + [cmd] && shown == old(shown))
      ensures crashed <==> !args.show && platform == Posix && sz == 0 && data != []
      ensures !crashed ==> rc == if args.show then 0 else code
      ensures !args.show ==> fed == old(fed) + if crashed then ReadChunk(data, 0) else data
    {
      var cmd := StepCommand(Restore, platform, db2, db2, tmpName);
      crashed := false;
      if platform == Windows {
        progress := progress + [StartingRestore];
        if !args.show {
          var chunks := CopyChunks(data);
          fed := fed + Flatten(chunks);
        }
        progress := progress + [TempFileCreated(tmpName)];
        rc := Run(args, cmd, code);
        if !args.show {
          progress := progress + [RestoreDone(rc)];
        }
        return;
      }
      if args.show {
        shown := shown + [cmd];
        rc := 0;
        return;
      }
      ran := ran + [cmd];
      var chunks, pcts, raised := Pump(data, sz);
      if raised {
        assert Flatten(chunks) == ReadChunk(data, 0) by {
          assert chunks == [] + [ReadChunk(data, 0)];
        }
      }
      fed := fed + Flatten(chunks);
      if raised {
        crashed := true;
        rc := 0;
        return;
      }
      progress := progress + Percentages(pcts) + [Restoring(100), Waiting];
      rc := code;
      if rc != 0 {
        progress := progress + [RestoreDone(rc)];
      }
    }
  }

  /**
   * The logs and the databases once `steps` were issued from `ran0`, `shown0`, `dbs0`: in
   * `-n` mode every command is only shown and nothing changes; otherwise every command runs
   * and the databases are the effect of the steps.
   */
  ghost predicate LoggedState(ran: seq<Command>, shown: seq<Command>, dbs: set<string>,
                              show: bool, ran0: seq<Command>, shown0: seq<Command>, dbs0: set<string>, steps: seq<Step>,
                              platform: Platform, db: string, db2: string, tmpName: string, codes: Codes)
  {
    var cmds := StepCommands(steps, platform, db, db2, tmpName);
    && (show ==> ran == ran0 && shown == shown0 + cmds && dbs == dbs0)
    && (!show ==> ran == ran0 + cmds && shown == shown0 && dbs == Effect(dbs0, steps, codes, db, db2))
  }

  /** Before any step, nothing has been issued. */
  lemma LoggedStart(show: bool, ran0: seq<Command>, shown0: seq<Command>, dbs0: set<string>,
                    platform: Platform, db: string, db2: string, tmpName: string, codes: Codes)
    ensures LoggedState(ran0, shown0, dbs0, show, ran0, shown0, dbs0, [], platform, db, db2, tmpName, codes)
  {
    assert ran0 + [] == ran0 && shown0 + [] == shown0;
  }

  /**
   * Issuing one more step (shown, or run with its code taking effect only when it is zero)
   * keeps the logs and the databases in step with the steps issued.
   */
  lemma LoggedStep(show: bool, ran0: seq<Command>, shown0: seq<Command>, dbs0: set<string>, steps: seq<Step>, step: Step,
                   platform: Platform, db: string, db2: string, tmpName: string, codes: Codes,
                   ran: seq<Command>, shown: seq<Command>, dbs: set<string>,
                   ran': seq<Command>, shown': seq<Command>, dbs': set<string>)
    requires LoggedState(ran, shown, dbs, show, ran0, shown0, dbs0, steps, platform, db, db2, tmpName, codes)
    requires var cmd := StepCommand(step, platform, db, db2, tmpName);
             && ran' == (if show then ran else ran + [cmd])
             && shown' == (if show then shown + [cmd] else shown)
             && dbs' == (if show || codes.Of(step) != 0 then dbs else Apply(dbs, step, db, db2))
    ensures LoggedState(ran', shown', dbs', show, ran0, shown0, dbs0, steps + [step], platform, db, db2, tmpName, codes)
  {
    var r := steps + [step];
    assert r[..|r| - 1] == steps;
  }

  /** The `Restoring: N%` lines for the reported percentages. */
  function Percentages(pcts: seq<int>): (notes: seq<Note>)
    ensures |notes| == |pcts|
    ensures forall i :: 0 <= i < |pcts| ==> notes[i] == Restoring(pcts[i])
  {
    if pcts == [] then [] else Percentages(pcts[..|pcts| - 1]) + [Restoring(pcts[|pcts| - 1])]
  }
}
