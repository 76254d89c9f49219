/**
 * The decision logic of the command line (ufload/cli/main.py): the database name derived
 * from a dump file name, the backup directory of an organisation, the required-option
 * check, and the control flow of `restore` (one file, every instance of a listing, and the
 * sync-server step with its linking loop). Everything the commands ask of the outside
 * world — file sizes, `load_into`, the database helpers, HTTP answers — comes from a
 * `World` value.
 */
module Cli {
  import opened Wrappers
  import opened Text
  import CloudCatalog
  import CloudArchive
  import Db

  // ---------------------------------------------------------------------------------
  // Organisation directories

  /** `_ocToDir`: the backup directory of an organisation abbreviation, or the input itself. */
  function OcToDir(oc: string): string
  {
    var x := ToLower(oc);
    if x == "oca" then "OCA_Backups"
    else if x == "ocb" then "OCB_Backups"
    else if x == "ocg" then "OCG_Backups"
    else oc
  }

  /**
   * The result is one of the three backup directories or the input unchanged, and mapping
   * it again changes nothing.
   */
  lemma OcToDirIdempotent(oc: string)
    ensures OcToDir(oc) in {"OCA_Backups", "OCB_Backups", "OCG_Backups", oc}
    ensures OcToDir(OcToDir(oc)) == OcToDir(oc)
  {
    var d := OcToDir(oc);
    if d != oc {
      assert |ToLower(d)| == 11;
    } else if ToLower(d) in {"oca", "ocb", "ocg"} {
      assert |d| == 3;
    }
  }

  /** Exactly the three abbreviations, in any case, are mapped, each to its own directory. */
  lemma OcToDirCases(oc: string)
    ensures OcToDir(oc) != oc <==> ToLower(oc) in {"oca", "ocb", "ocg"}
    ensures ToLower(oc) == "oca" ==> OcToDir(oc) == "OCA_Backups"
    ensures ToLower(oc) == "ocb" ==> OcToDir(oc) == "OCB_Backups"
    ensures ToLower(oc) == "ocg" ==> OcToDir(oc) == "OCG_Backups"
  {
    if ToLower(oc) in {"oca", "ocb", "ocg"} {
      assert |oc| == 3;
    }
  }

  /** The abbreviations in any case, and a directory name passed through. */
  lemma OcToDirExamples()
    ensures OcToDir("OCG") == "OCG_Backups" && OcToDir("oCb") == "OCB_Backups" && OcToDir("oca") == "OCA_Backups"
    ensures OcToDir("MSF_Backups") == "MSF_Backups"
  {
    assert ToLower("OCG") == "ocg";
    assert ToLower("oCb") == "ocb";
    assert ToLower("oca") == "oca";
    assert |ToLower("MSF_Backups")| == 11;
  }

  /** Two spellings that differ only in case name the same directory when they are an abbreviation. */
  lemma OcToDirIgnoresCase(a: string, b: string)
    requires ToLower(a) == ToLower(b) && ToLower(a) in {"oca", "ocb", "ocg"}
    ensures OcToDir(a) == OcToDir(b)
  {
  }

  // ---------------------------------------------------------------------------------
  // Required options

  /** An option name as typed on the command line: `_` becomes `-`. */
  function Dashed(name: string): (r: string)
    ensures |r| == |name| && '_' !in r
    ensures forall k :: 0 <= k < |name| && name[k] != '_' ==> r[k] == name[k]
    ensures forall k :: 0 <= k < |name| && name[k] == '_' ==> r[k] == '-'
  {
    seq(|name|, k requires 0 <= k < |name| => if name[k] == '_' then '-' else name[k])
  }

  function RequiredMessage(name: string): string
  {
    "Argument --" + Dashed(name) + " is required for this sub-command."
  }

  /** The names in `req` that are not given, in order. */
  function Missing(given: set<string>, req: seq<string>): (r: seq<string>)
    ensures |r| <= |req|
    ensures forall x :: x in r ==> x in req && x !in given
    ensures forall x :: x in req && x !in given ==> x in r
  {
    if req == [] then []
    else Missing(given, req[..|req| - 1]) + (if req[|req| - 1] in given then [] else [req[|req| - 1]])
  }

  function Messages(names: seq<string>): (r: seq<string>)
    ensures |r| == |names| && forall k :: 0 <= k < |names| ==> r[k] == RequiredMessage(names[k])
  {
    seq(|names|, k requires 0 <= k < |names| => RequiredMessage(names[k]))
  }

  lemma MessagesSnoc(names: seq<string>, x: string)
    ensures Messages(names + [x]) == Messages(names) + [RequiredMessage(x)]
  {
  }

  /**
   * `_required(args, req)`: `given` are the options that are set. Succeeds iff every
   * required option is set, with one message per missing option, in order.
   */
  method Required(given: set<string>, req: seq<string>) returns (ok: bool, msgs: seq<string>)
    ensures ok <==> forall k :: 0 <= k < |req| ==> req[k] in given
    ensures msgs == Messages(Missing(given, req))
  {
    var err := 0;
    msgs := [];
    var i := 0;
    while i < |req|
      invariant 0 <= i <= |req|
      invariant err == |Missing(given, req[..i])| && msgs == Messages(Missing(given, req[..i]))
    {
      ghost var before := Missing(given, req[..i]);
      assert req[..i + 1][..i] == req[..i];
      assert Missing(given, req[..i + 1]) == before + (if req[i] in given then [] else [req[i]]);
      if req[i] !in given {
        MessagesSnoc(before, req[i]);
        msgs := msgs + [RequiredMessage(req[i])];
        err := err + 1;
      } else {
        assert before + [] == before;
      }
      i := i + 1;
    }
    assert req[..i] == req;
    ok := err == 0;
    if !ok {
      assert Missing(given, req) != [];
      var x := Missing(given, req)[0];
      assert x in req && x !in given;
    }
  }

  // ---------------------------------------------------------------------------------
  // Database names from dump file names

  /** The three name tokens `tok0_tok1_tok2[0:4]`. */
  function DbFromTokens(x: seq<string>): string
    requires |x| >= 3 && |x[2]| >= 4
  {
    x[0] + "_" + x[1] + "_" + x[2][..4]
  }

  /** `if args.db_prefix:` — a prefix applies only when it is set and not empty. */
  function Prefixed(prefix: Option<string>, db: string): string
  {
    if prefix.Some? && prefix.value != "" then prefix.value + "_" + db else db
  }

  /**
   * `_file_to_db` as written: with exactly two `-` tokens the length test reads the third
   * token anyway and raises `IndexError`.
   */
  function FileToDbAsWritten(prefix: Option<string>, fn: string): Result<Option<string>, string>
  {
    var x := Split(CloudCatalog.FileName(fn), '-');
    if |x| < 2 then Ok(None)
    else if |x| < 3 then Err("IndexError")
    else if |x[2]| != 6 then Ok(None)
    else Ok(Some(Prefixed(prefix, DbFromTokens(x))))
  }

  /**
   * `_file_to_db` as evidently intended: the basename split on `-` needs a third token of
   * six characters (the time); the name is the first two tokens and the hour and minute.
   */
  function FileToDb(prefix: Option<string>, fn: string): Option<string>
  {
    var x := Split(CloudCatalog.FileName(fn), '-');
    if |x| < 3 || |x[2]| != 6 then None
    else Some(Prefixed(prefix, DbFromTokens(x)))
  }

  /** A base name with exactly one `-` makes the code as written raise. */
  lemma FileToDbAsWrittenRaises(prefix: Option<string>, a: string, b: string)
    requires '-' !in a && '-' !in b && '/' !in a && '/' !in b
    ensures FileToDbAsWritten(prefix, a + "-" + b).Err?
    ensures FileToDb(prefix, a + "-" + b) == None
  {
    var base := a + "-" + b;
    assert '/' !in base;
    assert base == a + ['-'] + b;
    SplitCons(a, '-', b);
    SplitWithoutSeparator(b, '-');
  }

  /** The counterexample: `a-b.dump`. */
  lemma FileToDbAsWrittenRaisesExample()
    ensures FileToDbAsWritten(None, "a-b.dump").Err?
  {
    FileToDbAsWrittenRaises(None, "a", "b.dump");
  }

  /** A base name `a-b-t-rest` with a six-character `t` yields `a_b_` and the first four characters of `t`. */
  lemma FileToDbOfTokens(prefix: Option<string>, dir: string, a: string, b: string, t: string, rest: string)
    requires '-' !in a && '-' !in b && '-' !in t && |t| == 6
    requires '/' !in a && '/' !in b && '/' !in t && '/' !in rest
    ensures FileToDb(prefix, dir + "/" + a + "-" + b + "-" + t + "-" + rest) == Some(Prefixed(prefix, a + "_" + b + "_" + t[..4]))
  {
    var base := a + ['-'] + (b + ['-'] + (t + ['-'] + rest));
    SplitThree(a, b, t, rest);
    Regroup(dir, a, b, t, rest);
    assert '/' !in base;
    FileToDbIgnoresDirectory(prefix, dir, base);
  }

  lemma SplitThree(a: string, b: string, t: string, rest: string)
    requires '-' !in a && '-' !in b && '-' !in t
    ensures var x := Split(a + ['-'] + (b + ['-'] + (t + ['-'] + rest)), '-');
            |x| >= 3 && x[0] == a && x[1] == b && x[2] == t
  {
    var r3 := t + ['-'] + rest;
    var r2 := b + ['-'] + r3;
    SplitCons(t, '-', rest);
    SplitCons(b, '-', r3);
    SplitCons(a, '-', r2);
  }

  lemma Regroup(dir: string, a: string, b: string, t: string, rest: string)
    ensures dir + "/" + a + "-" + b + "-" + t + "-" + rest == dir + "/" + (a + ['-'] + (b + ['-'] + (t + ['-'] + rest)))
  {
    var u := t + ['-'] + rest;
    var v := b + ['-'] + u;
    assert b + "-" + t + "-" + rest == v;
    assert a + "-" + b + "-" + t + "-" + rest == a + ['-'] + v;
  }

  /** The file name of the unit test of `_file_to_db`, with the prefix `pfx` (written in pieces for readability). */
  lemma FileToDbExample()
    ensures FileToDb(Some("pfx"), "../foo" + "/" + "OCG_MM1_WA" + "-" + "20160831" + "-" + "220427" + "-" + "A-UF2.1-2p3.dump")
            == Some("pfx_OCG_MM1_WA_20160831_2204")
  {
    FileToDbOfTokens(Some("pfx"), "../foo", "OCG_MM1_WA", "20160831", "220427", "A-UF2.1-2p3.dump");
    ExampleName();
  }

  lemma ExampleName()
    ensures Prefixed(Some("pfx"), "OCG_MM1_WA" + "_" + "20160831" + "_" + "220427"[..4]) == "pfx_OCG_MM1_WA_20160831_2204"
  {
    assert "220427"[..4] == "2204";
    var l := "pfx_OCG_MM1_WA_20160831_2204";
    var r := "pfx" + "_" + ("OCG_MM1_WA" + "_" + "20160831" + "_" + "2204");
    assert |l| == |r| == 28;
    assert forall i :: 0 <= i < |l| ==> l[i] == r[i];
  }

  /** A file name without `-` yields no database name. */
  lemma FileToDbNoDash(prefix: Option<string>, fn: string)
    requires '-' !in CloudCatalog.FileName(fn)
    ensures FileToDb(prefix, fn) == None
  {
    SplitWithoutSeparator(CloudCatalog.FileName(fn), '-');
  }

  /** The second unit test: `wrong.dump` yields nothing. */
  lemma FileToDbWrongExample()
    ensures FileToDb(Some("pfx"), "wrong.dump") == None
  {
    FileToDbNoDash(Some("pfx"), "wrong.dump");
  }

  /** Where the code as written does not raise it agrees with the corrected definition, and it raises only for two tokens. */
  lemma FileToDbAsWrittenAgrees(prefix: Option<string>, fn: string)
    ensures FileToDbAsWritten(prefix, fn).Err? <==> |Split(CloudCatalog.FileName(fn), '-')| == 2
    ensures FileToDbAsWritten(prefix, fn).Ok? ==> FileToDbAsWritten(prefix, fn).value == FileToDb(prefix, fn)
  {
    SplitNonEmpty(CloudCatalog.FileName(fn), '-');
  }

  lemma SplitNonEmpty(s: string, c: char)
    ensures |Split(s, c)| >= 1
  {
  }

  /** A name derived from a file never holds a `-` of its own: only the prefix can bring one. */
  lemma FileToDbHasNoDash(fn: string)
    ensures FileToDb(None, fn).Some? ==> '-' !in FileToDb(None, fn).value
  {
    var x := Split(CloudCatalog.FileName(fn), '-');
    if |x| >= 3 && |x[2]| == 6 {
      SplitPiecesLackSeparator(CloudCatalog.FileName(fn), '-');
      assert '-' !in x[0] && '-' !in x[1] && '-' !in x[2];
      assert '-' !in x[2][..4];
    }
  }

  /** The prefix only prepends `prefix_` to the name the file yields. */
  lemma FileToDbPrefix(p: string, fn: string)
    requires p != ""
    ensures FileToDb(Some(p), fn) == if FileToDb(None, fn).Some? then Some(p + "_" + FileToDb(None, fn).value) else None
  {
  }

  /** Only the base name counts: the directories in front of it are ignored. */
  lemma FileToDbIgnoresDirectory(prefix: Option<string>, dir: string, base: string)
    requires '/' !in base
    ensures FileToDb(prefix, dir + "/" + base) == FileToDb(prefix, base)
  {
    var path := dir + "/" + base;
    assert path[|dir|] == '/' && path[|dir| + 1..] == base;
    LastIndexNoLater(path, '/', |dir|);
  }

  // ---------------------------------------------------------------------------------
  // The restore command

  /** The options `restore` reads. */
  datatype RestoreArgs = RestoreArgs(
    file: Option<string>, i: Option<seq<string>>, dbPrefix: Option<string>,
    noclean: bool, sync: bool,
    user: Option<string>, pw: Option<string>, oc: Option<string>,
    syncuser: Option<string>, syncpw: Option<string>)

  /** The options among those `_required` is asked about that are set. */
  function Given(args: RestoreArgs): set<string>
  {
    (if args.user.Some? then {"user"} else {}) + (if args.pw.Some? then {"pw"} else {})
    + (if args.oc.Some? then {"oc"} else {})
    + (if args.syncuser.Some? then {"syncuser"} else {}) + (if args.syncpw.Some? then {"syncpw"} else {})
  }

  /** The answer to the `HEAD` request for the sync-server dump. */
  datatype Head = Head(status: int, length: Option<nat>)

  /**
   * What the outside world answers: `fileSize` is `os.stat` of the dump file (`None`
   * when it fails); `load(source, db, size)` is what `load_into` gives for a dump source,
   * a database and the size announced for the source (see `Db.Cluster.LoadInto`);
   * `clean`, `dbExists`, `storedLen`, `hwid` and `link` are the database helpers;
   * `listing` and `now` are the WebDAV listing and the clock `list_files` reads; `peek` is
   * the name `peek_inside_file` reports for a candidate and `zip` the archive
   * `openDumpInZip` fetches for it; `syncHead` is the `HEAD` answer (`None` when the
   * request raises) and `syncGet` the status of the `GET`.
   */
  datatype World = World(
    fileSize: Option<nat>,
    load: (string, string, nat) -> Db.LoadResult,
    clean: string -> int,
    dbExists: Option<string> -> bool,
    listing: (string, string) -> Option<seq<CloudCatalog.DavEntry>>,
    now: int,
    peek: CloudCatalog.Candidate -> Option<string>,
    zip: CloudCatalog.Candidate -> CloudArchive.Remote,
    syncHead: Option<Head>,
    storedLen: string -> int,
    syncGet: int,
    hwid: Option<string>,
    link: string -> int)

  /**
   * The outcome of `_fileRestore` and `_multiRestore`: a code and the databases loaded,
   * or an exception that escapes them.
   */
  datatype Restored = Restored(rc: int, dbs: Option<seq<string>>) | Raised

  /** The outcome of a command: the exit code it returns, or an exception that escapes it. */
  datatype Outcome = Exit(code: int) | Uncaught

  // The sync-link loop

  /**
   * Linking `dbs` in order, stopping at the first non-zero code: the code and the
   * databases a link was attempted for.
   */
  function LinkFrom(dbs: seq<string>, link: string -> int): (int, seq<string>)
  {
    if dbs == [] then (0, [])
    else if link(dbs[0]) != 0 then (link(dbs[0]), [dbs[0]])
    else
      var rest := LinkFrom(dbs[1..], link);
      (rest.0, [dbs[0]] + rest.1)
  }

  /**
   * The links are attempted in order on a prefix of `dbs`, every one but the last
   * succeeded, the code is 0 exactly when all of `dbs` were linked successfully, and
   * otherwise it is the code of the last link attempted.
   */
  lemma {:induction false} LinkFromMeaning(dbs: seq<string>, link: string -> int)
    ensures var r := LinkFrom(dbs, link);
            |r.1| <= |dbs| && r.1 == dbs[..|r.1|]
    ensures var r := LinkFrom(dbs, link);
            forall k :: 0 <= k < |r.1| - 1 ==> link(r.1[k]) == 0
    ensures var r := LinkFrom(dbs, link);
            r.0 == 0 <==> r.1 == dbs && forall k :: 0 <= k < |dbs| ==> link(dbs[k]) == 0
    ensures var r := LinkFrom(dbs, link);
            r.0 != 0 ==> r.1 != [] && r.0 == link(r.1[|r.1| - 1])
  {
    if dbs != [] && link(dbs[0]) == 0 {
      var tail := dbs[1..];
      LinkFromMeaning(tail, link);
      var rest := LinkFrom(tail, link);
      var r := LinkFrom(dbs, link);
      assert r == (rest.0, [dbs[0]] + rest.1);
      assert dbs == [dbs[0]] + tail;
      assert dbs[..|r.1|] == [dbs[0]] + tail[..|rest.1|];
      assert forall k :: 0 < k < |r.1| ==> r.1[k] == rest.1[k - 1];
      if rest.0 == 0 {
        assert forall k :: 0 < k < |dbs| ==> dbs[k] == tail[k - 1];
      } else if r.1 == dbs {
        assert rest.1 == tail;
      }
    }
  }

  /** `_syncLink`: without a hardware id nothing is linked and the result is 0. */
  function LinkOutcome(hwid: Option<string>, dbs: seq<string>, link: string -> int): (int, seq<string>)
  {
    if hwid.None? then (0, []) else LinkFrom(dbs, link)
  }

  /** The loop of `_syncLink`: the code, and the databases a link was attempted for. */
  method SyncLink(hwid: Option<string>, dbs: seq<string>, link: string -> int) returns (rc: int, linked: seq<string>)
    ensures (rc, linked) == LinkOutcome(hwid, dbs, link)
  {
    linked := [];
    if hwid.None? {
      return 0, [];
    }
    var i := 0;
    while i < |dbs|
      invariant 0 <= i <= |dbs| && linked == dbs[..i]
      invariant forall k :: 0 <= k < i ==> link(dbs[k]) == 0
    {
      rc := link(dbs[i]);
      linked := linked + [dbs[i]];
      if rc != 0 {
        LinkFromShift(dbs, i, link);
        assert dbs[i..] != [] && dbs[i..][0] == dbs[i];
        assert LinkFrom(dbs[i..], link) == (rc, [dbs[i]]);
        assert dbs[..i + 1] == dbs[..i] + [dbs[i]];
        assert LinkFrom(dbs, link) == (rc, linked);
        return;
      }
      assert dbs[..i + 1] == dbs[..i] + [dbs[i]];
      i := i + 1;
    }
    LinkFromShift(dbs, i, link);
    var after := LinkFrom(dbs[i..], link);
    assert dbs[i..] == [] && after == (0, []);
    assert dbs[..i] + after.1 == linked;
    rc := 0;
  }

  /** Links that succeed can be skipped: they only add their databases to the front. */
  lemma {:induction false} LinkFromShift(dbs: seq<string>, i: nat, link: string -> int)
    requires i <= |dbs| && forall k :: 0 <= k < i ==> link(dbs[k]) == 0
    ensures LinkFrom(dbs, link) == (LinkFrom(dbs[i..], link).0, dbs[..i] + LinkFrom(dbs[i..], link).1)
    decreases i
  {
    if i == 0 {
      assert dbs[i..] == dbs && dbs[..i] == [];
      assert dbs[..i] + LinkFrom(dbs, link).1 == LinkFrom(dbs, link).1;
    } else {
      var tail := dbs[1..];
      var rest := LinkFrom(tail, link);
      assert LinkFrom(dbs, link) == (rest.0, [dbs[0]] + rest.1) by {
        assert link(dbs[0]) == 0;
      }
      LinkFromShift(tail, i - 1, link);
      var after := LinkFrom(dbs[i..], link);
      assert tail[i - 1..] == dbs[i..];
      assert rest == (after.0, tail[..i - 1] + after.1);
      assert dbs[..i] == [dbs[0]] + tail[..i - 1];
      assert [dbs[0]] + (tail[..i - 1] + after.1) == dbs[..i] + after.1;
    }
  }

  // The file restore

  /**
   * The database `_fileRestore` loads into: the single `-i` value, or the one the file
   * name gives (which raises where `_file_to_db` does); `None` when there is none.
   */
  function FileTarget(args: RestoreArgs): Result<Option<string>, string>
    requires args.file.Some?
  {
    if args.i.Some? then Ok(if |args.i.value| != 1 then None else Some(args.i.value[0]))
    else FileToDbAsWritten(args.dbPrefix, args.file.value)
  }

  /**
   * `_fileRestore`: the file is loaded with its size into the target database; a cleaning
   * pass, unless disabled, replaces the code of the load.
   */
  function FileRestore(args: RestoreArgs, w: World): Restored
    requires args.file.Some?
  {
    match FileTarget(args)
    case Err(_) => Raised
    case Ok(None) => Restored(3, None)
    case Ok(Some(db)) =>
      if w.fileSize.None? then Restored(1, None)
      else
        match w.load(args.file.value, db, w.fileSize.value)
        case DivisionByZero => Raised
        case Returned(loaded) =>
          var rc := if !args.noclean then w.clean(db) else loaded;
          if rc == 0 then Restored(0, Some([db])) else Restored(rc, None)
  }

  /** The error codes and exceptions of `_fileRestore`, and what a success reports. */
  lemma FileRestoreOutcomes(args: RestoreArgs, w: World)
    requires args.file.Some?
    ensures args.i.Some? && |args.i.value| != 1 ==> FileRestore(args, w) == Restored(3, None)
    ensures args.i.None? && FileToDbAsWritten(args.dbPrefix, args.file.value) == Ok(None) ==> FileRestore(args, w) == Restored(3, None)
    ensures args.i.None? && |Split(CloudCatalog.FileName(args.file.value), '-')| == 2 ==> FileRestore(args, w) == Raised
    ensures FileTarget(args).Ok? && FileTarget(args).value.Some? && w.fileSize.None? ==> FileRestore(args, w) == Restored(1, None)
    ensures FileRestore(args, w).Raised? <==>
              FileTarget(args).Err? ||
              (FileTarget(args).value.Some? && w.fileSize.Some? &&
               w.load(args.file.value, FileTarget(args).value.value, w.fileSize.value).DivisionByZero?)
    ensures var r := FileRestore(args, w);
            r.Restored? ==> (r.dbs.Some? <==> r.rc == 0)
    ensures var r := FileRestore(args, w);
            r.Restored? && r.rc == 0 ==>
              exists db :: r.dbs == Some([db]) && FileTarget(args) == Ok(Some(db)) && w.fileSize.Some? &&
                           var loaded := w.load(args.file.value, db, w.fileSize.value);
                           loaded.Returned? && (if args.noclean then loaded.rc == 0 else w.clean(db) == 0)
  {
    FileToDbAsWrittenAgrees(args.dbPrefix, args.file.value);
    var r := FileRestore(args, w);
    if r.Restored? && r.rc == 0 {
      var db := r.dbs.value[0];
      assert r.dbs == Some([db]);
    }
  }

  /** With cleaning enabled the load's own code is lost: a failed load followed by a clean that succeeds reports success. */
  lemma CleanOverridesLoad(args: RestoreArgs, w: World)
    requires args.file.Some? && args.i == Some(["db"]) && !args.noclean && w.fileSize.Some?
    requires w.load(args.file.value, "db", w.fileSize.value).Returned?
    requires w.load(args.file.value, "db", w.fileSize.value).rc != 0 && w.clean("db") == 0
    ensures FileRestore(args, w) == Restored(0, Some(["db"]))
  {
  }

  // The restore of every instance of a listing

  /** What `openDumpInZip` gives for a candidate. */
  function Opened(w: World, j: CloudCatalog.Candidate): Result<CloudArchive.Dump, string>
  {
    CloudArchive.DumpInZip(w.zip(j))
  }

  /** What one candidate decides: go on with the next one, or end the search with a result. */
  datatype Attempt = Next | Done(result: Result<Option<string>, string>)

  /**
   * One turn of the inner loop of `_multiRestore`: a candidate with no dump inside, or
   * whose dump gives no database name, or whose load fails, passes to the next; a
   * database that already exists ends the search with nothing; a load with code 0 ends it
   * with the database; an exception from `_file_to_db`, `openDumpInZip` (whose `None`
   * cannot be unpacked either) or `load_into` ends it too.
   */
  function TryCandidate(prefix: Option<string>, j: CloudCatalog.Candidate, w: World): Attempt
  {
    match w.peek(j)
    case None => Next
    case Some(n) =>
      match FileToDbAsWritten(prefix, n)
      case Err(e) => Done(Err(e))
      case Ok(existing) =>
        if w.dbExists(existing) then Done(Ok(None))
        else
          match Opened(w, j)
          case Err(e) => Done(Err(e))
          case Ok(dump) =>
            match FileToDbAsWritten(prefix, dump.name)
            case Err(e) => Done(Err(e))
            case Ok(None) => Next
            case Ok(Some(db)) =>
              match w.load(j.path, db, dump.size)
              case DivisionByZero => Done(Err("ZeroDivisionError"))
              case Returned(rc) => if rc == 0 then Done(Ok(Some(db))) else Next
  }

  /**
   * The inner loop of `_multiRestore` over the candidates of one instance: the result of
   * the first candidate that ends the search, or `None` when the candidates run out.
   */
  function FirstLoad(prefix: Option<string>, cands: seq<CloudCatalog.Candidate>, w: World): Result<Option<string>, string>
  {
    if cands == [] then Ok(None)
    else
      match TryCandidate(prefix, cands[0], w)
      case Next => FirstLoad(prefix, cands[1..], w)
      case Done(r) => r
  }

  /** The candidate `j`'s dump names `db` and loads, with the dump's size, with code 0. */
  ghost predicate LoadedFrom(prefix: Option<string>, w: World, j: CloudCatalog.Candidate, db: string)
  {
    && Opened(w, j).Ok?
    && FileToDbAsWritten(prefix, Opened(w, j).value.name) == Ok(Some(db))
    && w.load(j.path, db, Opened(w, j).value.size) == Db.Returned(0)
  }

  /** A database the search reports comes from its first candidate or from the search of the rest. */
  lemma FirstLoadStep(prefix: Option<string>, cands: seq<CloudCatalog.Candidate>, w: World)
    requires cands != []
    ensures var r := FirstLoad(prefix, cands, w);
            r.Ok? && r.value.Some? ==> LoadedFrom(prefix, w, cands[0], r.value.value) || r == FirstLoad(prefix, cands[1..], w)
  {
  }

  /** A database is reported only for a candidate whose dump named it and loaded with code 0. */
  lemma {:induction false} FirstLoadSound(prefix: Option<string>, cands: seq<CloudCatalog.Candidate>, w: World)
    ensures var r := FirstLoad(prefix, cands, w);
            r.Ok? && r.value.Some? ==> exists k :: 0 <= k < |cands| && LoadedFrom(prefix, w, cands[k], r.value.value)
    decreases |cands|
  {
    var r := FirstLoad(prefix, cands, w);
    if cands != [] && r.Ok? && r.value.Some? {
      FirstLoadStep(prefix, cands, w);
      if !LoadedFrom(prefix, w, cands[0], r.value.value) {
        FirstLoadSound(prefix, cands[1..], w);
        var k :| 0 <= k < |cands[1..]| && LoadedFrom(prefix, w, cands[1..][k], r.value.value);
        assert cands[k + 1] == cands[1..][k];
      }
    }
  }

  /** A candidate whose database already exists ends the search for its instance. */
  lemma FirstLoadStopsAtExisting(prefix: Option<string>, cands: seq<CloudCatalog.Candidate>, w: World)
    requires cands != [] && w.peek(cands[0]).Some?
    requires FileToDbAsWritten(prefix, w.peek(cands[0]).value).Ok?
    requires w.dbExists(FileToDbAsWritten(prefix, w.peek(cands[0]).value).value)
    ensures FirstLoad(prefix, cands, w) == Ok(None)
  {
  }

  /** An archive that does not hold exactly one entry, met before anything loaded, ends the restore with an exception. */
  lemma FirstLoadRaisesOnOddArchive(prefix: Option<string>, cands: seq<CloudCatalog.Candidate>, w: World)
    requires cands != [] && w.peek(cands[0]).Some?
    requires FileToDbAsWritten(prefix, w.peek(cands[0]).value).Ok?
    requires !w.dbExists(FileToDbAsWritten(prefix, w.peek(cands[0]).value).value)
    requires |w.zip(cands[0]).entries| != 1
    ensures FirstLoad(prefix, cands, w).Err?
  {
  }

  /** The candidates of an instance. */
  function Candidates(instances: map<string, seq<CloudCatalog.Candidate>>, key: string): seq<CloudCatalog.Candidate>
  {
    if key in instances then instances[key] else []
  }

  /**
   * The databases loaded for the instances, in iteration order and at most one per
   * instance, or the first exception, which ends the iteration.
   */
  function RestoredAll(prefix: Option<string>, order: seq<string>, instances: map<string, seq<CloudCatalog.Candidate>>, w: World): (r: Result<seq<string>, string>)
    ensures r.Ok? ==> |r.value| <= |order|
  {
    if order == [] then Ok([])
    else
      var init := RestoredAll(prefix, order[..|order| - 1], instances, w);
      if init.Err? then init
      else
        var db := FirstLoad(prefix, Candidates(instances, order[|order| - 1]), w);
        if db.Err? then Err(db.error)
        else Ok(init.value + if db.value.Some? then [db.value.value] else [])
  }

  /** The loop over the candidates of one instance. */
  method TryInstance(prefix: Option<string>, cands: seq<CloudCatalog.Candidate>, w: World) returns (db: Result<Option<string>, string>)
    ensures db == FirstLoad(prefix, cands, w)
  {
    var i := 0;
    while i < |cands|
      invariant 0 <= i <= |cands|
      invariant FirstLoad(prefix, cands, w) == FirstLoad(prefix, cands[i..], w)
    {
      var j := cands[i];
      assert cands[i..][0] == j && cands[i..][1..] == cands[i + 1..];
      var step := TryCandidate(prefix, j, w);
      if step.Done? {
        return step.result;
      }
      i := i + 1;
    }
    assert cands[i..] == [];
    return Ok(None);
  }

  /** Dictionary iteration: every key once, in some order. */
  ghost predicate IsOrder(order: seq<string>, instances: map<string, seq<CloudCatalog.Candidate>>)
  {
    (forall k :: k in order ==> k in instances) && (forall k :: k in instances ==> k in order)
    && (forall a, b :: 0 <= a < b < |order| ==> order[a] != order[b])
  }

  /** `for i in instances`: the keys of the dictionary, each once, in an order the model leaves open. */
  method DictOrder(instances: map<string, seq<CloudCatalog.Candidate>>) returns (order: seq<string>)
    ensures IsOrder(order, instances)
  {
    order := [];
    var left := instances.Keys;
    while left != {}
      invariant left <= instances.Keys
      invariant forall k :: k in order ==> k in instances && k !in left
      invariant forall k :: k in instances ==> k in order || k in left
      invariant forall a, b :: 0 <= a < b < |order| ==> order[a] != order[b]
      decreases left
    {
      var k :| k in left;
      order := order + [k];
      left := left - {k};
    }
  }

  /** `_required(args, ['user', 'pw', 'oc'])`: the ownCloud login `_multiRestore` needs. */
  predicate HasLogin(args: RestoreArgs)
  {
    "user" in Given(args) && "pw" in Given(args) && "oc" in Given(args)
  }

  lemma LoginHasOc(args: RestoreArgs)
    requires HasLogin(args)
    ensures args.oc.Some?
  {
  }

  /** What `list_files` gives `_multiRestore`: the groups of the organisation's directory the `-i` patterns select, `None` where it raises. */
  function Listed(args: RestoreArgs, w: World): Option<map<string, seq<CloudCatalog.Candidate>>>
    requires args.oc.Some?
  {
    CloudCatalog.Listing(OcToDir(args.oc.value), w.listing, w.now, args.i)
  }

  /** `_multiRestore` for a given iteration order of the dictionary `list_files` returns. */
  ghost function MultiRestored(args: RestoreArgs, w: World, order: seq<string>): Restored
  {
    if !HasLogin(args) then Restored(2, None)
    else
      match Listed(args, w)
      case None => Raised
      case Some(instances) =>
        var dbs := RestoredAll(args.dbPrefix, order, instances, w);
        if dbs.Err? then Raised else Restored(0, Some(dbs.value))
  }

  /**
   * `_multiRestore`: without user, password and organisation the result is 2; otherwise
   * the instances are those `list_files` returns, visited in the returned `order`, and the
   * result is 0 with the databases loaded, unless an exception escapes.
   */
  method MultiRestore(args: RestoreArgs, w: World) returns (r: Restored, order: seq<string>)
    ensures !HasLogin(args) ==> r == Restored(2, None) && order == []
    ensures HasLogin(args) && Listed(args, w).None? ==> r == Raised && order == []
    ensures HasLogin(args) && Listed(args, w).Some? ==> IsOrder(order, Listed(args, w).value)
    ensures r == MultiRestored(args, w, order)
  {
    order := [];
    var req := ["user", "pw", "oc"];
    var ok, msgs := Required(Given(args), req);
    assert ok <==> HasLogin(args) by {
      assert req[0] == "user" && req[1] == "pw" && req[2] == "oc";
    }
    if !ok {
      return Restored(2, None), [];
    }
    LoginHasOc(args);
    var listed := CloudCatalog.ListFiles(OcToDir(args.oc.value), w.listing, w.now, args.i);
    if listed.Err? {
      return Raised, [];
    }
    order := DictOrder(listed.value);
    var dbs := RestoreEach(args.dbPrefix, order, listed.value, w);
    r := if dbs.Err? then Raised else Restored(0, Some(dbs.value));
  }

  /** The `for i in instances` loop of `_multiRestore`: one load attempt per instance, in order, until one raises. */
  method RestoreEach(prefix: Option<string>, order: seq<string>, instances: map<string, seq<CloudCatalog.Candidate>>, w: World)
    returns (dbs: Result<seq<string>, string>)
    ensures dbs == RestoredAll(prefix, order, instances, w)
  {
    var acc: seq<string> := [];
    var i := 0;
    while i < |order|
      invariant 0 <= i <= |order|
      invariant RestoredAll(prefix, order[..i], instances, w) == Ok(acc)
    {
      var db := TryInstance(prefix, Candidates(instances, order[i]), w);
      RestoredAllSnoc(prefix, order, i, instances, w);
      if db.Err? {
        RestoredAllStaysRaised(prefix, order, i + 1, instances, w);
        return Err(db.error);
      }
      if db.value.Some? {
        acc := acc + [db.value.value];
      } else {
        assert acc + [] == acc;
      }
      i := i + 1;
    }
    assert order[..i] == order;
    return Ok(acc);
  }

  /** One more instance of the iteration order adds its database, if any, at the end, or raises. */
  lemma RestoredAllSnoc(prefix: Option<string>, order: seq<string>, i: nat, instances: map<string, seq<CloudCatalog.Candidate>>, w: World)
    requires i < |order|
    ensures var init := RestoredAll(prefix, order[..i], instances, w);
            var db := FirstLoad(prefix, Candidates(instances, order[i]), w);
            init.Ok? ==>
              RestoredAll(prefix, order[..i + 1], instances, w)
              == if db.Err? then Err(db.error) else Ok(init.value + if db.value.Some? then [db.value.value] else [])
  {
    assert order[..i + 1][..i] == order[..i];
  }

  /** Once an instance raises, the instances after it are not tried and the exception is the result. */
  lemma {:induction false} RestoredAllStaysRaised(prefix: Option<string>, order: seq<string>, i: nat, instances: map<string, seq<CloudCatalog.Candidate>>, w: World)
    requires i <= |order| && RestoredAll(prefix, order[..i], instances, w).Err?
    ensures RestoredAll(prefix, order, instances, w) == RestoredAll(prefix, order[..i], instances, w)
    decreases |order|
  {
    if i < |order| {
      var init := order[..|order| - 1];
      assert init[..i] == order[..i];
      RestoredAllStaysRaised(prefix, init, i, instances, w);
    } else {
      assert order[..i] == order;
    }
  }

  /** The restore of a listing raises exactly when the search for one of its instances raises. */
  lemma {:induction false} RestoredAllRaises(prefix: Option<string>, order: seq<string>, instances: map<string, seq<CloudCatalog.Candidate>>, w: World)
    ensures RestoredAll(prefix, order, instances, w).Err? <==>
              exists k :: 0 <= k < |order| && FirstLoad(prefix, Candidates(instances, order[k]), w).Err?
    decreases |order|
  {
    if order != [] {
      var init := order[..|order| - 1];
      RestoredAllRaises(prefix, init, instances, w);
      RestoredAllStep(prefix, order, instances, w);
      if RestoredAll(prefix, order, instances, w).Err? {
        if RestoredAll(prefix, init, instances, w).Err? {
          var k :| 0 <= k < |init| && FirstLoad(prefix, Candidates(instances, init[k]), w).Err?;
          assert order[k] == init[k];
        } else {
          assert FirstLoad(prefix, Candidates(instances, order[|order| - 1]), w).Err?;
        }
      } else {
        forall k | 0 <= k < |order|
          ensures !FirstLoad(prefix, Candidates(instances, order[k]), w).Err?
        {
          if k < |init| {
            assert order[k] == init[k];
          }
        }
      }
    }
  }

  /** The restore raises exactly when the restore of the instances before the last one raised, or the search for the last one does. */
  lemma RestoredAllStep(prefix: Option<string>, order: seq<string>, instances: map<string, seq<CloudCatalog.Candidate>>, w: World)
    requires order != []
    ensures RestoredAll(prefix, order, instances, w).Err? <==>
              RestoredAll(prefix, order[..|order| - 1], instances, w).Err? ||
              FirstLoad(prefix, Candidates(instances, order[|order| - 1]), w).Err?
  {
  }

  /** Every database restored from a listing was loaded with code 0 from a candidate of its instance. */
  lemma {:induction false} RestoredAllSound(prefix: Option<string>, order: seq<string>, instances: map<string, seq<CloudCatalog.Candidate>>, w: World)
    ensures var r := RestoredAll(prefix, order, instances, w);
            r.Ok? ==> forall db :: db in r.value ==>
              exists k :: 0 <= k < |order| && FirstLoad(prefix, Candidates(instances, order[k]), w) == Ok(Some(db))
    decreases |order|
  {
    var r := RestoredAll(prefix, order, instances, w);
    if order != [] && r.Ok? {
      var init := order[..|order| - 1];
      RestoredAllSound(prefix, init, instances, w);
      var before := RestoredAll(prefix, init, instances, w);
      forall db | db in r.value
        ensures exists k :: 0 <= k < |order| && FirstLoad(prefix, Candidates(instances, order[k]), w) == Ok(Some(db))
      {
        if db in before.value {
          var k :| 0 <= k < |init| && FirstLoad(prefix, Candidates(instances, init[k]), w) == Ok(Some(db));
          assert order[k] == init[k];
        } else {
          assert FirstLoad(prefix, Candidates(instances, order[|order| - 1]), w) == Ok(Some(db));
        }
      }
    }
  }

  // The sync server

  const SYNC_URL := "http://sync-prod_dump.uf5.unifield.org/SYNC_SERVER_LIGHT_WITH_MASTER"

  /** The local copy of the sync server: `<prefix>_SYNC_SERVER_LOCAL`, or `SYNC_SERVER_LOCAL` without a prefix. */
  function SyncDbName(prefix: Option<string>): (sdb: string)
    ensures EndsWith(sdb, "SYNC_SERVER_LOCAL")
    ensures prefix.Some? && prefix.value != "" ==> sdb == prefix.value + "_SYNC_SERVER_LOCAL"
    ensures !(prefix.Some? && prefix.value != "") ==> sdb == "SYNC_SERVER_LOCAL"
  {
    Prefixed(prefix, "SYNC_SERVER_LOCAL")
  }

  /** The remote length: the `content-length` header, 0 when absent. */
  function RemoteLength(h: Head): nat
  {
    if h.length.Some? then h.length.value else 0
  }

  /** The steps of `_syncRestore` that `_syncLink` does not cover, as a plan for it. */
  datatype SyncStep = SyncDone(rc: int) | SyncRaised | SyncLinkAll(sdb: string)

  /**
   * `_syncRestore` up to `_syncLink`: a failed or refused `HEAD` gives 1; a stored length
   * equal to the remote one means up to date; a refused `GET` gives 1; the download is
   * loaded with the remote length as its size, and a load that fails gives its code or
   * raises; otherwise the new length is stored and the databases are linked.
   */
  function SyncPlan(args: RestoreArgs, w: World): SyncStep
  {
    var sdb := SyncDbName(args.dbPrefix);
    if w.syncHead.None? || w.syncHead.value.status != 200 then SyncDone(1)
    else
      var sz := RemoteLength(w.syncHead.value);
      if w.storedLen(sdb) == sz then SyncDone(0)
      else if w.syncGet != 200 then SyncDone(1)
      else
        match w.load(SYNC_URL, sdb, sz)
        case DivisionByZero => SyncRaised
        case Returned(rc) => if rc != 0 then SyncDone(rc) else SyncLinkAll(sdb)
  }

  /** An up-to-date sync server is neither downloaded nor loaded, and nothing is linked. */
  lemma SyncUpToDate(args: RestoreArgs, w: World)
    requires w.syncHead.Some? && w.syncHead.value.status == 200
    requires w.storedLen(SyncDbName(args.dbPrefix)) == RemoteLength(w.syncHead.value)
    ensures SyncPlan(args, w) == SyncDone(0)
  {
  }

  /** Linking happens only after a successful load of the downloaded dump into the sync database. */
  lemma SyncLinksOnlyAfterLoad(args: RestoreArgs, w: World)
    ensures SyncPlan(args, w).SyncLinkAll? ==>
              var sdb := SyncPlan(args, w).sdb;
              && sdb == SyncDbName(args.dbPrefix) && w.syncHead.Some? && w.syncGet == 200
              && w.load(SYNC_URL, sdb, RemoteLength(w.syncHead.value)) == Db.Returned(0)
  {
  }

  /** Loads that raise only for a zero size, as `load_into` does. */
  ghost predicate RaisesOnlyWhenEmpty(load: (string, string, nat) -> Db.LoadResult)
  {
    forall source, db, size :: load(source, db, size).DivisionByZero? ==> size == 0
  }

  /** The sync step raises only when the server announced no length, or a length of 0. */
  lemma SyncRaisesOnlyWithoutLength(args: RestoreArgs, w: World)
    requires RaisesOnlyWhenEmpty(w.load)
    ensures SyncPlan(args, w).SyncRaised? ==> w.syncHead.Some? && RemoteLength(w.syncHead.value) == 0
  {
  }

  /** `_syncRestore`: the outcome, and the databases a link was attempted for. */
  method SyncRestore(args: RestoreArgs, w: World, dbs: seq<string>) returns (r: Outcome, linked: seq<string>)
    ensures SyncPlan(args, w).SyncDone? ==> r == Exit(SyncPlan(args, w).rc) && linked == []
    ensures SyncPlan(args, w).SyncRaised? ==> r == Uncaught && linked == []
    ensures SyncPlan(args, w).SyncLinkAll? ==> r == Exit(LinkOutcome(w.hwid, dbs, w.link).0) && linked == LinkOutcome(w.hwid, dbs, w.link).1
  {
    var plan := SyncPlan(args, w);
    if plan.SyncDone? {
      return Exit(plan.rc), [];
    }
    if plan.SyncRaised? {
      return Uncaught, [];
    }
    var rc;
    rc, linked := SyncLink(w.hwid, dbs, w.link);
    r := Exit(rc);
  }

  /** `-sync` needs the sync user and password. */
  predicate SyncLoginOk(args: RestoreArgs)
  {
    !args.sync || ("syncuser" in Given(args) && "syncpw" in Given(args))
  }

  /**
   * `_cmdRestore`: with `-sync` but no sync user or password the result is 2 before any
   * restore; a restore that raises ends the command with its exception; the sync step
   * runs only after a restore that returned 0. `order` is the iteration order of the
   * instances `list_files` returned (empty for a file restore).
   */
  method CmdRestore(args: RestoreArgs, w: World) returns (r: Outcome, linked: seq<string>, order: seq<string>)
    ensures !SyncLoginOk(args) ==> r == Exit(2) && linked == [] && order == []
    ensures args.file.Some? ==> order == []
    ensures SyncLoginOk(args) && args.file.None? && HasLogin(args) && Listed(args, w).Some? ==> IsOrder(order, Listed(args, w).value)
    ensures var restored := if args.file.Some? then FileRestore(args, w) else MultiRestored(args, w, order);
            SyncLoginOk(args) ==>
              && (restored.Raised? ==> r == Uncaught && linked == [])
              && (restored.Restored? && restored.rc != 0 ==> r == Exit(restored.rc) && linked == [])
              && (restored.Restored? && restored.rc == 0 && !args.sync ==> r == Exit(0) && linked == [])
              && (restored.Restored? && restored.rc == 0 && args.sync ==>
                    var plan := SyncPlan(args, w);
                    var link := LinkOutcome(w.hwid, if restored.dbs.Some? then restored.dbs.value else [], w.link);
                    && (plan.SyncDone? ==> r == Exit(plan.rc) && linked == [])
                    && (plan.SyncRaised? ==> r == Uncaught && linked == [])
                    && (plan.SyncLinkAll? ==> r == Exit(link.0) && linked == link.1))
  {
    order := [];
    if args.sync {
      var ok, msgs := Required(Given(args), ["syncuser", "syncpw"]);
      if !ok {
        return Exit(2), [], [];
      }
    }
    var restored: Restored;
    if args.file.Some? {
      restored := FileRestore(args, w);
    } else {
      restored, order := MultiRestore(args, w);
    }
    if restored.Raised? {
      return Uncaught, [], order;
    }
    if restored.rc != 0 {
      return Exit(restored.rc), [], order;
    }
    r, linked := Exit(0), [];
    if args.sync {
      r, linked := SyncRestore(args, w, if restored.dbs.Some? then restored.dbs.value else []);
    }
  }
}
