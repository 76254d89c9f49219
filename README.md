# ufload, modelled in Dafny

`ufload` restores Unifield PostgreSQL databases from backups. The backups are zipped
`pg_dump` archives, kept on an ownCloud (WebDAV) server or on a local disk. This project
models the decision-making core of the tool and proves what it does:

- **Backup catalog** (`cloud_names.dfy`, `cloud_catalog.dfy`, `cloud_archive.dfy`).
  - Filters a WebDAV listing down to finished `.zip` archives.
  - Sorts the archives newest first and groups them by instance key.
  - Keeps the groups whose key matches one of the `%`-wildcard instance patterns.
  - Downloads through `StatusFile`, a copy sink that reports every ten percent.
  - Accepts an archive only when it holds exactly one entry.
- **Database swap** (`db.dfy`).
  - Builds the `psql` and `pg_restore` command lines, and honours the "show only" mode.
  - `load_into` creates the staging database `<db>_<pid>`, restores into it, drops the
    target and renames the staging database to the target.
  - It stops at the first command that fails.
  - The server is a `Cluster` object: its set of databases, the commands run or shown,
    the progress lines and the bytes fed to `pg_restore`.
- **Command-line decisions** (`cli.dfy`).
  - The database name derived from a dump file name.
  - The backup directory of an organisation, and the required-option check.
  - The control flow of `restore`: one file, every instance of a listing, and the
    sync-server step with its linking loop.
- **Remote file cursor** (`httpfile.dfy`).
  - `HttpFile` reads a remote file with HTTP range requests and caches its size.
  - The server is modelled as one that honours section 2.1 of RFC 7233.
- **Chunked upload** (`webdav.dfy`).
  - The OneDrive client's port and path defaults, and the organisation switch.
  - The upload loop: an empty `add`, then chunks sent to `add`, `startupload`,
    `continueupload` or `finishupload` according to their offset and whether they fill
    the buffer. The posts are kept in a log instead of being sent.

`text.dfy` gives the Python string built-ins the code relies on (`split`, `join`, `rindex`,
`str(n)`, `lower`, string ordering). `bytes.dfy` and `wrappers.dfy` hold byte chunks,
`Option` and `Result`.

Everything the code asks of the outside world is a parameter. This covers:

- HTTP answers and the WebDAV listing;
- exit codes of `psql` and `pg_restore`, and the process id;
- the current time, file sizes, and the contents of an archive's table of contents;
- the database helpers `exists`, `clean`, `get_hwid`, `sync_link` and
  `get_sync_server_len`, and the archive inspector `peek_inside_file`.

Python dictionaries are iterated in an order the model leaves open: `Cli.DictOrder` yields
every key once, in some order. Percentages are computed in integer arithmetic
(`n * 100 / size`); the code computes them in floating point (see "Left out").

An exception that escapes a command is an outcome of its own (`Cli.Restored.Raised`,
`Cli.Outcome.Uncaught`): the restore flow follows the code as written, including the
`IndexError` of `_file_to_db`, the `NameError` of `openDumpInZip` and the
`ZeroDivisionError` of `load_into` for a zero size.

Instance patterns are matched anchored at both ends, as the code does: `SZ1_NHL` matches
only the name `SZ1_NHL`. `ufload/test_cloud.py` expects substring matching;
`CloudNames.SubstringExpectationFails` shows that the code rejects the names that test expects
to match. `CloudNames.SurroundedPatternIsSubstring` shows that the pattern `%SZ1_NHL%` gives
substring matching.

## Model

| member | source | states |
|---|---|---|
| Text.Split | ufload/cloud.py:42 | Python's `str.split` on one character: at least one piece |
| Text.SplitOnce | ufload/cloud.py:12 | `str.split(c, 1)`: one piece exactly when `c` is absent; otherwise the piece before the first `c` and the rest, which rejoin to the input |
| Text.LastIndexOf | ufload/cloud.py:74 | `rindex`: a position holding `c` with no `c` after it |
| Text.SplitPiecesLackSeparator | ufload/cli/main.py:46 | no piece of a split contains the separator |
| Text.JoinSplit | ufload/cloud.py:80 | joining the pieces of a split with the separator gives back the string |
| Text.SplitCons | ufload/cli/main.py:46 | a string whose first separator follows `a` splits into `a` and the pieces of the rest |
| Text.SplitCount | ufload/cli/main.py:47 | a split has one piece exactly when the separator is absent |
| Text.SplitLastAfterLast | ufload/cloud.py:42 | the last piece of a split is what follows the last separator |
| Text.NatToString | ufload/db.py:66 | `str(pid)`: decimal digits, without a leading zero |
| Text.NatToStringRoundTrip | ufload/db.py:66 | the digits of `str(n)` read back as `n` |
| Text.ToLower | ufload/cli/main.py:22 | ASCII `lower()`: same length; each `A`..`Z` moves up by 32, every other character is kept; no `A`..`Z` remains |
| Text.ToLowerIdempotent | ufload/cli/main.py:22 | lower-casing twice is lower-casing once |
| Text.LexLeTotal | ufload/cloud.py:65 | Python's string order is total |
| Text.LexLeTransitive | ufload/cloud.py:65 | Python's string order is transitive |
| Text.LexLeAntisymmetric | ufload/cloud.py:65 | Python's string order is antisymmetric |
| CloudNames.SplitCloudName | ufload/cloud.py:11-16 | without `:` the default host and the whole input; otherwise a host with no `:` that, with `:` and the directory, rebuilds the input |
| CloudNames.Segments | ufload/cloud.py:50 | a pattern has at least one `%`-separated segment |
| CloudNames.MatchAnyWildcard | ufload/cloud.py:55-62 | true iff the pattern list is empty or some pattern matches |
| CloudNames.AnyMatchesSome | ufload/cloud.py:59-62 | the pattern loop returns true iff some pattern matches |
| CloudNames.NoWildcardMatchesOnlyItself | ufload/cloud.py:49-51 | a pattern without `%` matches exactly the identical name |
| CloudNames.GapsMatchEndsWithLast | ufload/cloud.py:50-51 | the `$` anchor: a matching name ends with the last segment |
| CloudNames.MatchIsAnchored | ufload/cloud.py:49-51 | a match starts with the first segment and ends with the last, without the two overlapping |
| CloudNames.GapsMatchAt | ufload/cloud.py:50-51 | an occurrence of the next segment followed by a match of the rest is a match |
| CloudNames.SurroundedPatternIsSubstring | ufload/cloud.py:49-51 | `%s%` matches exactly the names containing `s` |
| CloudNames.SubstringExpectationFails | ufload/test_cloud.py:3-7 | with patterns `SZ1_NHL`, `OCG_UG` none of the three test names matches |
| CloudNames.NeitherPlainPatternMatches | ufload/cloud.py:55-62 | two `%`-free patterns reject every name other than themselves |
| CloudCatalog.GetAllFilesAndTimestamp | ufload/cloud.py:18-46 | a failed listing gives `[]`; otherwise the kept entries in listing order |
| CloudCatalog.KeptEntriesExactly | ufload/cloud.py:26-45 | an entry is kept iff its name is non-empty, does not end in `/`, is at least 900 s from now and its last `.` piece is `zip` |
| CloudCatalog.KeptEntriesAppend | ufload/cloud.py:25-46 | filtering preserves listing order (distributes over concatenation) |
| CloudCatalog.IsZipNameExactly | ufload/cloud.py:42-44 | the zip test accepts exactly `zip` and the names ending in `.zip` |
| CloudCatalog.ZipAfterLast | ufload/cloud.py:42 | what follows the last `.` is `zip` exactly for `zip` and names ending in `.zip` |
| CloudCatalog.StampLeTotal | ufload/cloud.py:65 | tuple order on `(time, path)` is total |
| CloudCatalog.StampLeTransitive | ufload/cloud.py:65 | tuple order on `(time, path)` is transitive |
| CloudCatalog.StampLeAntisymmetric | ufload/cloud.py:65 | tuple order on `(time, path)` is antisymmetric |
| CloudCatalog.Insert | ufload/cloud.py:65 | inserting adds exactly one element (as a multiset) |
| CloudCatalog.SortDesc | ufload/cloud.py:65-66 | `sort(); reverse()` is a permutation of the list |
| CloudCatalog.InsertSorted | ufload/cloud.py:65-66 | insertion keeps a list in non-increasing order |
| CloudCatalog.SortDescSorted | ufload/cloud.py:65-66 | the result is in non-increasing `(time, path)` order |
| CloudCatalog.SortedDescUnique | ufload/cloud.py:65-66 | two non-increasing permutations of a list are equal, so `SortDesc` is what `sort(); reverse()` gives |
| CloudCatalog.SortedHeadsAgree | ufload/cloud.py:65-66 | two non-increasing permutations start with the same greatest stamp |
| CloudCatalog.AsCandidates | ufload/cloud.py:74-81 | each entry becomes `(path, filename)` with the last path component |
| CloudCatalog.GroupFilesToDownload | ufload/cloud.py:64-83 | raises iff some path lacks `/`; otherwise the grouping of the newest-first list |
| CloudCatalog.GroupSorted | ufload/cloud.py:69-83 | the grouping loop: raises iff some path lacks `/`, otherwise the grouping in list order |
| CloudCatalog.AddFile | ufload/cloud.py:70-81 | one loop turn: a name without `-` is skipped, otherwise `(path, filename)` is appended under its key |
| CloudCatalog.GroupSnoc | ufload/cloud.py:69-81 | one more entry extends the grouping by one loop turn |
| CloudCatalog.GroupIsMembers | ufload/cloud.py:69-83 | a key has a group iff some entry has that key; its list is those entries in input order |
| CloudCatalog.MembersSorted | ufload/cloud.py:65-81 | the entries of one key, taken from a non-increasing list, are non-increasing |
| CloudCatalog.GroupsNewestFirst | ufload/cloud.py:64-83 | every group lists its candidates in non-increasing `(time, path)` order |
| CloudCatalog.InstanceKeyReconstructs | ufload/cloud.py:80 | key + `-` + last `-` token rebuilds the file name |
| CloudCatalog.GroupedCandidatesReconstruct | ufload/cloud.py:74-81 | every grouped candidate's file name is its key, `-` and its last `-` token |
| CloudCatalog.MembersOfKey | ufload/cloud.py:80-81 | the entries gathered under a key all have that key |
| CloudCatalog.ListingPath | ufload/cloud.py:89-94 | the listed directory is `/remote.php/webdav/` followed by the directory part of the location |
| CloudCatalog.ListFiles | ufload/cloud.py:88-105 | raises iff a kept path lacks `/`; otherwise the groups of the kept entries selected by the patterns |
| CloudCatalog.SelectGroups | ufload/cloud.py:101-105 | the selection loop builds exactly the selected groups |
| CloudCatalog.SelectedExactly | ufload/cloud.py:97-105 | exactly the groups whose key passes the patterns are kept, their lists unchanged |
| CloudCatalog.NoPatternsSelectAll | ufload/cloud.py:97-99 | without `-i` every group is listed |
| CloudArchive.StatusFile.constructor | ufload/cloud.py:141-146 | nothing written or reported, no size, next mark 10, count 0 |
| CloudArchive.StatusFile.SetSize | ufload/cloud.py:148-149 | records the announced size |
| CloudArchive.StatusFile.Write | ufload/cloud.py:151-158 | forwards the chunk unchanged and counts its bytes; no report without a size; a report only when the percentage passes the mark, which moves to the next multiple of ten above it; reports strictly increase; a zero size raises |
| CloudArchive.MarkAbove | ufload/cloud.py:155-156 | the new mark is a multiple of ten above the reported percentage |
| CloudArchive.OpenDumpInZipAsWritten | ufload/cloud.py:129-136 | as written: a dump iff there is exactly one entry, and an error otherwise |
| CloudArchive.RejectPathsRaise | ufload/cloud.py:130-135 | an empty archive and a two-entry archive both raise |
| CloudArchive.ValidateArchive | ufload/cloud.py:129-136 | the entry-count rule: a dump iff exactly one entry, with that entry's name and size |
| CloudArchive.ValidateArchiveAgrees | ufload/cloud.py:129-136 | the rule returns the same dump as the code, and "none" where the code raises |
| CloudArchive.OpenDumpInZip | ufload/cloud.py:111-136 | raises iff the size is 0 and data arrives, or the archive does not hold exactly one entry (`NameError`); otherwise the whole download is spooled and the one entry is the dump; progress strictly increases and is empty without a size |
| Db.PgCommonShape | ufload/db.py:33-44 | one flag and its value per set option, no others, in host, port, user order |
| Db.PgCommonCases | ufload/db.py:33-44 | the exact list for each of the eight combinations of set options |
| Db.PsqlArgvShape | ufload/db.py:55-61 | `psql`, the connection flags, then `-q -c <sql> postgres` |
| Db.RestoreArgvShape | ufload/db.py:75-95 | `pg_restore`, the connection flags, `--no-acl --no-owner -d db2 -n public`, then the temporary file if any |
| Db.StagingName | ufload/db.py:66 | the target name, `_`, and the pid's digits (which read back as the pid); differs from the target |
| Db.CreateFailureStops | ufload/db.py:69-71 | a failed CREATE is returned and nothing else is issued |
| Db.DropAndRenameOrder | ufload/db.py:143-154 | DROP only on the non-Windows path after a successful CREATE and restore; RENAME only after a successful DROP |
| Db.WindowsNeverSwaps | ufload/db.py:85-108 | the Windows branch never drops or renames and returns the restore code |
| Db.StopsAtFirstFailure | ufload/db.py:63-154 | every command but the last issued succeeded, and the result is the last one's code |
| Db.RestoreFailureKeepsTarget | ufload/db.py:143-144 | after a failed restore the target is as before and the staging database remains |
| Db.SwapSuccess | ufload/db.py:146-154 | after full success the target exists, the staging name does not, nothing else changed, and 0 is returned |
| Db.ReadChunk | ufload/db.py:125 | `f.read(8192)`: the next at most 8192 bytes; empty exactly at the end; short only at the end |
| Db.PercentStep | ufload/db.py:128-131 | a reported percentage is at least the mark and below the new mark |
| Db.ReportedMore | ufload/db.py:128-131 | a new report keeps the reports increasing, below the mark and at most the true share |
| Db.Pump | ufload/db.py:122-134 | chunks of 8192 bytes (the last one shorter) carry the whole dump; percentages strictly increase from 10 and never exceed the true share; a zero size raises after the first chunk |
| Db.CopyChunks | ufload/db.py:91-92 | the Windows copy writes the whole dump in chunks of at most 8192 bytes |
| Db.Percentages | ufload/db.py:129-130 | one `Restoring: N%` line per reported percentage, in order |
| Db.Cluster.Run | ufload/db.py:4-12 | show mode: returns 0 and only shows the command; otherwise runs it and returns its code |
| Db.Cluster.Psql | ufload/db.py:55-61 | runs or shows the statement's command line; a statement that runs with code 0 takes effect |
| Db.Cluster.LoadInto | ufload/db.py:63-154 | issues exactly the commands of the swap plan, in order, with its result; the databases are the effect of the successful commands; the bytes fed to `pg_restore` |
| Db.Cluster.CreateAndRestore | ufload/db.py:66-144 | CREATE, then the restore only if CREATE succeeded; logs and databases follow the steps issued |
| Db.Cluster.DropAndRename | ufload/db.py:146-154 | DROP, then RENAME only if DROP succeeded; logs and databases follow the steps issued |
| Db.Cluster.RestoreStep | ufload/db.py:73-141 | runs or shows `pg_restore`; feeds the whole dump, or the first chunk when a zero size raises; returns the restore code |
| Cli.OcToDirIdempotent | ufload/cli/main.py:21-31 | the result is a backup directory or the input, and mapping again changes nothing |
| Cli.OcToDirExamples | ufload/cli/main.py:21-31 | `OCG`, `oCb`, `oca` map to their directories; other names pass through |
| Cli.OcToDirCases | ufload/cli/main.py:21-31 | the input changes iff its lower-case form is `oca`, `ocb` or `ocg`, which map to `OCA_Backups`, `OCB_Backups`, `OCG_Backups` |
| Cli.OcToDirIgnoresCase | ufload/cli/main.py:22 | spellings of an abbreviation that differ in case map alike |
| Cli.Dashed | ufload/cli/main.py:37 | same length; every `_` becomes `-`, every other character is kept; no `_` remains |
| Cli.Missing | ufload/cli/main.py:35-36 | exactly the required names that are not given |
| Cli.Required | ufload/cli/main.py:33-40 | true iff every required option is set; one message per missing option, in order |
| Cli.FileToDbAsWrittenRaises | ufload/cli/main.py:46-48 | a base name with exactly one `-` makes the code raise, where the intended function gives none |
| Cli.FileToDbAsWrittenRaisesExample | ufload/cli/main.py:46-47 | `a-b.dump` raises `IndexError` |
| Cli.FileToDbAsWrittenAgrees | ufload/cli/main.py:44-52 | the code raises iff the base name has exactly two `-` tokens, and agrees with the intended function otherwise |
| Cli.FileToDbOfTokens | ufload/cli/main.py:44-52 | `dir/a-b-t-rest` with a six-character `t` gives `a_b_` and the first four characters of `t`, prefixed when a prefix is set |
| Cli.FileToDbExample | ufload/cli/test_main.py:8-10 | the unit test's file name gives `pfx_OCG_MM1_WA_20160831_2204` |
| Cli.FileToDbWrongExample | ufload/cli/test_main.py:11-12 | `wrong.dump` gives no name |
| Cli.FileToDbNoDash | ufload/cli/main.py:46-48 | a base name without `-` gives no name |
| Cli.FileToDbHasNoDash | ufload/cli/main.py:49 | a derived name never contains `-` |
| Cli.FileToDbPrefix | ufload/cli/main.py:50-52 | a prefix only prepends `prefix_` |
| Cli.FileToDbIgnoresDirectory | ufload/cli/main.py:45 | directories in front of the base name do not matter |
| Cli.LinkFromMeaning | ufload/cli/main.py:219-223 | links go in order over a prefix of the list; all but the last attempted succeeded; 0 iff all linked; otherwise the last attempted link's code |
| Cli.LinkFromShift | ufload/cli/main.py:219-222 | links that succeed only add their databases in front |
| Cli.SyncLink | ufload/cli/main.py:212-223 | without a hardware id returns 0 and links nothing; otherwise the linking loop's outcome |
| Cli.FileRestoreOutcomes | ufload/cli/main.py:77-108 | 3 for several `-i` or a file name that gives none; raises for a base name of two `-` tokens, and otherwise exactly when the load of a sized file raises; 1 when the size is unknown; databases reported iff the code is 0, and then the one target database, loaded with the file's size, whose clean code (or load code with `-no-clean`) is 0 |
| Cli.CleanOverridesLoad | ufload/cli/main.py:96-100 | a failed load followed by a successful clean reports success |
| Cli.FirstLoadStep | ufload/cli/main.py:128-168 | a database the search reports comes from its first candidate or from the search of the rest |
| Cli.FirstLoadSound | ufload/cli/main.py:128-168 | a database is reported only for a candidate whose dump named it and loaded, with the dump's size, with code 0 |
| Cli.FirstLoadStopsAtExisting | ufload/cli/main.py:138-141 | a candidate whose database already exists ends the instance with nothing loaded |
| Cli.FirstLoadRaisesOnOddArchive | ufload/cli/main.py:145-150 | an archive without exactly one entry, reached before anything loaded, raises |
| Cli.RestoredAll | ufload/cli/main.py:125-170 | at most one database per instance |
| Cli.TryInstance | ufload/cli/main.py:128-168 | the candidate loop returns the first load, `None`, or the exception, as `FirstLoad` defines them |
| Cli.DictOrder | ufload/cli/main.py:126 | the iteration visits every key of the dictionary exactly once |
| Cli.RestoreEach | ufload/cli/main.py:126-168 | the instance loop collects the loaded databases in iteration order, or stops at the first exception |
| Cli.RestoredAllSnoc | ufload/cli/main.py:126-168 | one more instance appends its database, if any, or raises |
| Cli.RestoredAllStaysRaised | ufload/cli/main.py:126-168 | once an instance raises, the later instances are not tried |
| Cli.RestoredAllStep | ufload/cli/main.py:126-168 | the restore raises iff the instances before the last one raised or the last one's search raises |
| Cli.RestoredAllRaises | ufload/cli/main.py:125-170 | the restore of a listing raises iff the search for one of its instances raises |
| Cli.RestoredAllSound | ufload/cli/main.py:125-170 | every reported database was loaded with code 0 for one of the instances |
| Cli.MultiRestore | ufload/cli/main.py:110-170 | 2 without user, password and organisation; raises where `list_files` on the organisation's directory raises; otherwise visits every listed instance once, and gives 0 with the databases loaded unless a search raises |
| Cli.SyncDbName | ufload/cli/main.py:173-176 | `<prefix>_SYNC_SERVER_LOCAL`, or `SYNC_SERVER_LOCAL` without a prefix |
| Cli.SyncUpToDate | ufload/cli/main.py:191-196 | a stored length equal to the remote one returns 0 without loading |
| Cli.SyncLinksOnlyAfterLoad | ufload/cli/main.py:198-209 | linking happens only after a successful HEAD and GET and a load, with the remote length as size, with code 0 |
| Cli.SyncRaisesOnlyWithoutLength | ufload/cli/main.py:191-204 | when loads raise only for size 0, the sync step raises only when the remote length is absent or 0 |
| Cli.SyncRestore | ufload/cli/main.py:172-209 | the code of the sync step, or its exception, and linking, with the linking loop's outcome, only when the plan reaches it |
| Cli.CmdRestore | ufload/cli/main.py:59-75 | 2 with `-load-sync-server` but no sync credentials; `-file` picks the file restore, otherwise the listing restore; an exception of the restore escapes; a failed restore's code is returned; the sync step (its code, exception or links) runs only after a restore that returned 0 |
| HttpCursor.SizeOf | ufload/httpfile.py:15-23 | a refused HEAD raises with its status; the length, or 0 when the header is absent |
| HttpCursor.Known | ufload/httpfile.py:13-24 | a cached size is answered as is; otherwise the HEAD's verdict |
| HttpCursor.Slice | ufload/httpfile.py:37 | Python's `s[0:count]`, including negative counts |
| HttpCursor.Fetch | ufload/httpfile.py:31-37 | a refused GET raises; a body shorter than the count raises; otherwise the first `count` bytes |
| HttpCursor.HttpFile.constructor | ufload/httpfile.py:6-11 | offset 0, size unknown (-1), no request |
| HttpCursor.HttpFile.Size | ufload/httpfile.py:13-24 | one HEAD only while the size is unknown; only success fills the cache |
| HttpCursor.HttpFile.Read | ufload/httpfile.py:26-37 | a negative count reads `size - offset`; asks for `offset..offset+count-1`; on success advances by the count; any failure leaves the offset |
| HttpCursor.HttpFile.Seek | ufload/httpfile.py:39-47 | whence 0 sets, 1 adds, 2 places relative to the size; any other whence raises and changes nothing |
| HttpCursor.HttpFile.Tell | ufload/httpfile.py:49-50 | returns the offset |
| HttpCursor.Served | ufload/httpfile.py:29-31 | the range answer of a server following section 2.1 of RFC 7233 |
| HttpCursor.HonestRead | ufload/httpfile.py:29-37 | a read within the content returns exactly those bytes |
| HttpCursor.HonestReadPastEnd | ufload/httpfile.py:29-35 | a read running past the end raises |
| HttpCursor.HonestEmptyRead | ufload/httpfile.py:29-37 | a zero-byte read returns nothing |
| HttpCursor.ReadRestPastEnd | ufload/httpfile.py:27-37 | `read()` past the end returns leading bytes of the file and moves the offset back to the size |
| HttpCursor.HonestReadsConcatenate | ufload/httpfile.py:26-37 | two consecutive reads return consecutive pieces of the content |
| Webdav.DefaultPort | ufload/webdav.py:24-25 | a given port is kept; port 0 becomes 443 for https and 80 otherwise |
| Webdav.NormalPath | ufload/webdav.py:26-28 | the path ends with `/`, and is the given path (or empty) with `/` added only when missing |
| Webdav.SiteOfPersonalPath | ufload/webdav.py:33 | the site part of `/personal/<site>/...` is `/personal/<site>` |
| Webdav.OcSiteCases | ufload/webdav.py:47-55 | exactly `OCA`, `OCB`, `OCG` are replaced, each by its personal site; mapping again changes nothing |
| Webdav.BufferSize | ufload/webdav.py:130-131 | the given size, or 10 MiB when none or 0 is given |
| Webdav.ReadFrom | ufload/webdav.py:168 | `read(bs)`: the next `min(bs, remaining)` bytes |
| Webdav.FirstRejected | ufload/webdav.py:154-156 | the first post whose status is neither 200 nor 201 |
| Webdav.ChunkPostsCoverData | ufload/webdav.py:134-170 | the chunk bodies, in order, are the rest of the file |
| Webdav.PlanCoversData | ufload/webdav.py:116-171 | the bodies of an upload's posts, in order, are the whole file |
| Webdav.ChunkPostsShape | ufload/webdav.py:138-148 | every chunk is non-empty; a chunk goes to `startupload`/`continueupload` if full and to `add`/`finishupload` if short, at the offset of the bytes before it; only the last chunk can be short |
| Webdav.ChunkPostsEnd | ufload/webdav.py:143-148 | the last chunk ends the file |
| Webdav.FullChunksOnly | ufload/webdav.py:143-146 | from a whole number of buffers before the end, every chunk is full |
| Webdav.ExactMultipleNeverFinishes | ufload/webdav.py:143-170 | a file whose size is a multiple of the buffer never gets `finishupload` |
| Webdav.EndsWithFinish | ufload/webdav.py:143-170 | any other file larger than the buffer ends with a short chunk sent to `finishupload` at its offset |
| Webdav.SmallFile | ufload/webdav.py:134-170 | a file smaller than the buffer goes in one `add` after the empty one |
| Webdav.Client.constructor | ufload/webdav.py:23-33 | the path ends in `/`; the base URL uses the default port and the site part of the path; no post sent |
| Webdav.Client.ChangeOc | ufload/webdav.py:47-55 | the base URL becomes the given base followed by the organisation's site |
| Webdav.Client.Upload | ufload/webdav.py:116-171 | sends the posts of the plan in order, up to and including the first refused one, which raises with its status; otherwise returns true |
| Webdav.StopsAfter | ufload/webdav.py:154-156 | an upload stops after post `k` exactly when the earlier ones were accepted and post `k` was refused or last |
| Webdav.FirstRejectedIs | ufload/webdav.py:154-156 | a run of accepted posts ending in a refused one (or the end) determines the first refusal |
| Webdav.Advance | ufload/webdav.py:134-170 | one loop turn sends the next post of the plan, and the next read either continues the loop or completes the plan |

## Left out

- Network and authentication are parameters, not modelled: `requests`, `easywebdav`, the
  office365 authentication context, and `Client.list`, `download` and `delete`.
- Processes and the environment are not modelled: `subprocess`, the `PATH` search of
  `_find_exe`, `pg_pass`, temporary files and `os.getpid` (the pid is a parameter). The
  `-notify` script call is not modelled either.
- The HTTP-date parsing of modification times depends on the local time zone. Times are
  integer seconds and "now" is a parameter.
- The zip container format is not modelled: an archive is its list of entry names and sizes.
- `_cmdLs`, `_cmdArchive`, argument and configuration parsing, `main`, `_home` and the
  `_progress` log buffer are not modelled.
- Log output is not modelled. This includes the upload's logging, whose test
  `offset % buffer_size*10` is parsed as `(offset % buffer_size) * 10`, and its float
  `round(...)` percentage.
- Instance patterns are compiled to regular expressions. Where the name contains a newline,
  `.` does not match it and `$` also matches before a final newline; neither quirk is
  modelled. `CloudNames.MatchInstanceName` treats every character alike.
- `ufload/cli/main.py:130` and `:145` call `peek_inside_file` and `openDumpInZip` with two
  positional arguments, but `openDumpInZip` takes one, so the call raises `TypeError`. The
  model gives `_multiRestore` the intended call: `World.zip` is the archive at the
  candidate's path.
- `ufload.db.exists`, `clean`, `get_hwid`, `sync_link`, `get_sync_server_len`,
  `write_sync_server_len` and `ufload.cloud.peek_inside_file` are not part of this model.
  Their answers are parameters.
- `ufload/test_db.py` tests `_db_to_instance`, which is not part of this model.
- Python dictionary iteration order is a parameter.
- `CloudArchive.StatusFile.Write` and `Db.Pump`: floating-point rounding is not modelled.
  The code computes `int(n / tot * 100)`, and the model the exact `n * 100 / tot`. The two
  can differ by one where `n * 100 / tot` is a whole number: 29 bytes of 100 give 29 here
  and 28 in the code.
- `Cli.FileToDb` and `CloudCatalog.FileName`: only `/` separates path components. On
  Windows, `os.path.basename` also splits at `\`; that is not modelled.
- `Cli.SyncRestore`: an exception raised by the `GET` request itself, or by storing the
  new length, is not modelled; the `GET` is its status code.
- The URLs of the upload's posts are not modelled: a post records its endpoint (with its
  offset) and its body.
- `Db.Cluster.LoadInto`: its progress lines are recorded, but its contract states only the
  commands, databases, result and fed bytes. Progress is stated for the copy loop
  (`Db.Pump`) and for `CloudArchive.StatusFile.Write`.
- `Webdav.BufferSize`: the buffer size is a natural number. A negative `buffer_size` is not
  modelled.
- `HttpCursor.HttpFile.Read`: the range header is recorded as its two numbers, not as text.

## Findings

| source | as written | input that shows it | evidently intended | confidence | as-written member | corrected member |
|---|---|---|---|---|---|---|
| ufload/cli/main.py:47 | `len(x) < 2 or len(x[2]) != 6` reads a third token when there are only two | base name `a-b.dump`: `x[2]` raises `IndexError` | fewer than three tokens gives `None` | high; not executed | Cli.FileToDbAsWrittenRaisesExample | Cli.FileToDbAsWrittenAgrees |
| ufload/cloud.py:130-135 | both reject branches format a message with `fn`, which `openDumpInZip` never defines | an archive with no entries, or with two: `NameError` | the function returns `None` | high; not executed | CloudArchive.RejectPathsRaise | CloudArchive.ValidateArchiveAgrees |
