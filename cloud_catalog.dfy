/**
 * The backup catalog of ufload/cloud.py: filtering a WebDAV listing down to finished
 * zip archives (`_get_all_files_and_timestamp`), ordering them newest first and grouping
 * them by instance key (`_group_files_to_download`), and keeping the groups whose key
 * passes the instance patterns (`list_files`).
 */
module CloudCatalog {
  import opened Wrappers
  import opened Text
  import CloudNames

  /** Seconds within which a backup is considered possibly still uploading. */
  const RECENT_WINDOW: int := 900

  /** One entry of a WebDAV `ls`: its path and its last-modified time in seconds. */
  datatype DavEntry = DavEntry(name: string, mtime: int)

  /** The `(t, f.name)` tuples kept from a listing. */
  datatype Stamped = Stamped(time: int, path: string)

  /** The `(f, filename)` tuples stored per instance: full path and last path component. */
  datatype Candidate = Candidate(path: string, file: string)

  function Abs(x: int): int
  {
    if x < 0 then -x else x
  }

  /** The archive test: the last `.`-separated piece of the name is `zip`. */
  predicate IsZipName(name: string)
  {
    Last(Split(name, '.')) == "zip"
  }

  /** Whether `_get_all_files_and_timestamp` keeps an entry at time `now`. */
  predicate Kept(e: DavEntry, now: int)
  {
    && e.name != []
    && Last(e.name) != '/'
    && Abs(now - e.mtime) >= RECENT_WINDOW
    && IsZipName(e.name)
  }

  /** The kept entries of a listing, in listing order. */
  function KeptEntries(listing: seq<DavEntry>, now: int): seq<Stamped>
  {
    if listing == [] then []
    else
      var init := KeptEntries(listing[..|listing| - 1], now);
      var e := Last(listing);
      if Kept(e, now) then init + [Stamped(e.mtime, e.name)] else init
  }

  /**
   * `_get_all_files_and_timestamp`: `listing` is what `dav.ls` returned, `None` when it
   * raised `OperationFailed`; `now` is the current time.
   */
  method GetAllFilesAndTimestamp(listing: Option<seq<DavEntry>>, now: int) returns (ret: seq<Stamped>)
    ensures listing.None? ==> ret == []
    ensures listing.Some? ==> ret == KeptEntries(listing.value, now)
  {
    var all := if listing.Some? then listing.value else [];
    ret := [];
    var i := 0;
    while i < |all|
      invariant 0 <= i <= |all|
      invariant ret == KeptEntries(all[..i], now)
    {
      var f := all[i];
      assert all[..i + 1][..i] == all[..i];
      if f.name == [] || Last(f.name) == '/' {
        i := i + 1;
        continue;
      }
      if Abs(now - f.mtime) < RECENT_WINDOW {
        i := i + 1;
        continue;
      }
      if !IsZipName(f.name) {
        i := i + 1;
        continue;
      }
      ret := ret + [Stamped(f.mtime, f.name)];
      i := i + 1;
    }
    assert all[..i] == all;
  }

  /** Every entry that survives the filter is a finished zip archive, and all of those survive, in order. */
  lemma {:induction false} KeptEntriesExactly(listing: seq<DavEntry>, now: int)
    ensures forall s :: s in KeptEntries(listing, now) <==>
              exists e :: e in listing && Kept(e, now) && s == Stamped(e.mtime, e.name)
  {
    if listing != [] {
      var init := listing[..|listing| - 1];
      KeptEntriesExactly(init, now);
      assert listing == init + [Last(listing)];
    }
  }

  /** Filtering distributes over concatenation: the listing order is preserved. */
  lemma {:induction false} KeptEntriesAppend(a: seq<DavEntry>, b: seq<DavEntry>, now: int)
    ensures KeptEntries(a + b, now) == KeptEntries(a, now) + KeptEntries(b, now)
    decreases |b|
  {
    if b == [] {
      assert a + b == a;
    } else {
      var b' := b[..|b| - 1];
      KeptEntriesAppend(a, b', now);
      assert (a + b)[..|a + b| - 1] == a + b';
    }
  }

  /** The zip test accepts exactly the names ending in `.zip`, and the bare name `zip`. */
  lemma IsZipNameExactly(name: string)
    ensures IsZipName(name) <==> name == "zip" || EndsWith(name, ".zip")
  {
    SplitLastAfterLast(name, '.');
    ZipAfterLast(name);
  }

  /** What follows the last `.` is `zip` exactly for `zip` itself and the names ending in `.zip`. */
  lemma {:induction false} ZipAfterLast(name: string)
    ensures AfterLast(name, '.') == "zip" <==> name == "zip" || EndsWith(name, ".zip")
    decreases |name|
  {
    if '.' in name {
      var i := IndexOf(name, '.');
      ZipAfterLast(name[i + 1..]);
      ZipThroughFirstDot(name, i);
    } else {
      ZipSuffixHasDot(name);
    }
  }

  lemma ZipSuffixHasDot(name: string)
    ensures EndsWith(name, ".zip") ==> name[|name| - 4] == '.'
  {
  }

  /**
   * Past the first `.`, the rest is `zip` or ends in `.zip` exactly when the whole name
   * ends in `.zip`; a name with a `.` is never the bare `zip`.
   */
  lemma ZipThroughFirstDot(name: string, i: nat)
    requires i < |name| && name[i] == '.' && '.' !in name[..i]
    ensures name != "zip"
    ensures name[i + 1..] == "zip" || EndsWith(name[i + 1..], ".zip") <==> EndsWith(name, ".zip")
  {
    assert '.' !in "zip";
    var t := name[i + 1..];
    if t == "zip" {
      SliceFrom(name, i);
    }
    if EndsWith(t, ".zip") {
      DropDrop(name, i + 1, |t| - 4, |name| - 4);
    }
    if EndsWith(name, ".zip") {
      ZipDotAfterFirst(name, i);
    }
  }

  /** In a name ending in `.zip`, the first `.` is that one or comes before it. */
  lemma ZipDotAfterFirst(name: string, i: nat)
    requires i < |name| && name[i] == '.' && '.' !in name[..i]
    requires EndsWith(name, ".zip")
    ensures name[i + 1..] == "zip" || EndsWith(name[i + 1..], ".zip")
  {
    var m := |name| - 4;
    assert name[m..][0] == '.';
    if m == i {
      DropDrop(name, m, 1, i + 1);
      assert ".zip"[1..] == "zip";
    } else {
      DropDrop(name, i + 1, m - i - 1, m);
    }
  }

  lemma SliceFrom(s: string, i: nat)
    requires i < |s|
    ensures s[i..] == [s[i]] + s[i + 1..]
  {
  }

  // ---------------------------------------------------------------------------------
  // Ordering: Python compares the `(t, path)` tuples lexicographically.

  predicate StampLe(a: Stamped, b: Stamped)
  {
    a.time < b.time || (a.time == b.time && LexLe(a.path, b.path))
  }

  lemma StampLeTotal(a: Stamped, b: Stamped)
    ensures StampLe(a, b) || StampLe(b, a)
  {
    LexLeTotal(a.path, b.path);
  }

  lemma StampLeTransitive(a: Stamped, b: Stamped, c: Stamped)
    requires StampLe(a, b) && StampLe(b, c)
    ensures StampLe(a, c)
  {
    if a.time == b.time == c.time {
      LexLeTransitive(a.path, b.path, c.path);
    }
  }

  lemma StampLeAntisymmetric(a: Stamped, b: Stamped)
    requires StampLe(a, b) && StampLe(b, a)
    ensures a == b
  {
    LexLeAntisymmetric(a.path, b.path);
  }

  /** Non-increasing `(time, path)` order: newest first, ties by descending path. */
  predicate SortedDesc(s: seq<Stamped>)
  {
    forall i, j :: 0 <= i < j < |s| ==> StampLe(s[j], s[i])
  }

  function Insert(x: Stamped, s: seq<Stamped>): (r: seq<Stamped>)
    ensures multiset(r) == multiset(s) + multiset{x}
    ensures forall y :: y in r <==> y in s || y == x
  {
    if s == [] then [x]
    else if StampLe(s[0], x) then [x] + s
    else
      assert s == [s[0]] + s[1..];
      [s[0]] + Insert(x, s[1..])
  }

  /** `files.sort(); files.reverse()`, as a function of the list. */
  function SortDesc(s: seq<Stamped>): (r: seq<Stamped>)
    ensures multiset(r) == multiset(s)
    ensures forall y :: y in r <==> y in s
  {
    if s == [] then []
    else
      assert s == [s[0]] + s[1..];
      Insert(s[0], SortDesc(s[1..]))
  }

  lemma {:induction false} InsertSorted(x: Stamped, s: seq<Stamped>)
    requires SortedDesc(s)
    ensures SortedDesc(Insert(x, s))
  {
    if s != [] {
      if StampLe(s[0], x) {
        forall j | 0 < j < |s| ensures StampLe(s[j], x) {
          StampLeTransitive(s[j], s[0], x);
        }
      } else {
        StampLeTotal(s[0], x);
        InsertSorted(x, s[1..]);
        var r := Insert(x, s[1..]);
        forall j | 0 <= j < |r| ensures StampLe(r[j], s[0]) {
          assert r[j] in multiset(r);
          if r[j] != x {
            assert r[j] in multiset(s[1..]);
            var k :| 0 <= k < |s[1..]| && s[1..][k] == r[j];
            assert s[k + 1] == r[j];
          }
        }
      }
    }
  }

  lemma {:induction false} SortDescSorted(s: seq<Stamped>)
    ensures SortedDesc(SortDesc(s))
  {
    if s != [] {
      SortDescSorted(s[1..]);
      InsertSorted(s[0], SortDesc(s[1..]));
    }
  }

  /**
   * There is only one descending arrangement of a list of stamps, so `SortDesc` is the
   * list that Python's `sort()` followed by `reverse()` produces.
   */
  lemma {:induction false} SortedDescUnique(a: seq<Stamped>, b: seq<Stamped>)
    requires SortedDesc(a) && SortedDesc(b) && multiset(a) == multiset(b)
    ensures a == b
    decreases |a|
  {
    if a == [] {
      assert |multiset(b)| == 0;
    } else {
      SortedHeadsAgree(a, b);
      TailMultiset(a);
      TailMultiset(b);
      SortedDescUnique(a[1..], b[1..]);
      assert a == [a[0]] + a[1..];
      assert b == [b[0]] + b[1..];
    }
  }

  /** Two descending arrangements of the same stamps start with the same (greatest) stamp. */
  lemma SortedHeadsAgree(a: seq<Stamped>, b: seq<Stamped>)
    requires SortedDesc(a) && SortedDesc(b) && multiset(a) == multiset(b) && a != []
    ensures b != [] && a[0] == b[0]
  {
    assert a[0] in multiset(b);
    var i :| 0 <= i < |b| && b[i] == a[0];
    assert b[0] in multiset(a);
    var j :| 0 <= j < |a| && a[j] == b[0];
    StampLeTotal(a[0], a[0]);
    StampLeTotal(b[0], b[0]);
    assert StampLe(b[i], b[0]);
    assert StampLe(a[j], a[0]);
    StampLeAntisymmetric(a[0], b[0]);
  }

  lemma TailMultiset(a: seq<Stamped>)
    requires a != []
    ensures multiset(a[1..]) == multiset(a) - multiset{a[0]}
  {
    assert a == [a[0]] + a[1..];
  }

  // ---------------------------------------------------------------------------------
  // Grouping by instance key.

  /**
   * The last path component: `f[f.rindex('/') + 1:]`. (`rindex` raises on a path without
   * `/`; the grouping loop raises before it gets there, and the whole path stands in here.)
   */
  function FileName(path: string): string
  {
    if '/' in path then path[LastIndexOf(path, '/') + 1..] else path
  }

  /** `'-'.join(filename.split('-')[:-1])`, or `None` when the name has no `-`. */
  function InstanceKey(filename: string): Option<string>
  {
    if '-' !in filename then None
    else
      var parts := Split(filename, '-');
      Some(Join(parts[..|parts| - 1], '-'))
  }

  /** The instance key of a kept entry, `None` when the entry is skipped. */
  function KeyOf(s: Stamped): Option<string>
  {
    InstanceKey(FileName(s.path))
  }

  predicate AllHaveSlash(s: seq<Stamped>)
  {
    forall x :: x in s ==> '/' in x.path
  }

  /** One pass of the grouping loop's body for the file at `path`. */
  function AddEntry(g: map<string, seq<Candidate>>, path: string): map<string, seq<Candidate>>
  {
    match InstanceKey(FileName(path))
    case None => g
    case Some(k) => g[k := (if k in g then g[k] else []) + [Candidate(path, FileName(path))]]
  }

  /** The dictionary built by the grouping loop after visiting `s` in order. */
  function Group(s: seq<Stamped>): map<string, seq<Candidate>>
  {
    if s == [] then map[] else AddEntry(Group(s[..|s| - 1]), Last(s).path)
  }

  /** The entries of `s` with instance key `k`, in the order of `s`. */
  function Members(s: seq<Stamped>, k: string): seq<Stamped>
  {
    if s == [] then []
    else
      var init := Members(s[..|s| - 1], k);
      if KeyOf(Last(s)) == Some(k) then init + [Last(s)] else init
  }

  function AsCandidates(s: seq<Stamped>): (r: seq<Candidate>)
    ensures |r| == |s|
    ensures forall i :: 0 <= i < |s| ==> r[i] == Candidate(s[i].path, FileName(s[i].path))
  {
    if s == [] then [] else AsCandidates(s[..|s| - 1]) + [Candidate(Last(s).path, FileName(Last(s).path))]
  }

  /**
   * `_group_files_to_download`: sorts newest first, raises on a path without `/`,
   * skips file names without `-`, and appends `(path, filename)` under the instance key.
   */
  method GroupFilesToDownload(files: seq<Stamped>) returns (r: Result<map<string, seq<Candidate>>, string>)
    ensures r.Err? <==> !AllHaveSlash(files)
    ensures r.Err? ==> '/' !in r.error
    ensures r.Ok? ==> r.value == Group(SortDesc(files))
  {
    var sorted := SortDesc(files);
    r := GroupSorted(sorted);
  }

  /** The loop of `_group_files_to_download`, over the already sorted list. */
  method GroupSorted(sorted: seq<Stamped>) returns (r: Result<map<string, seq<Candidate>>, string>)
    ensures r.Err? <==> !AllHaveSlash(sorted)
    ensures r.Err? ==> '/' !in r.error
    ensures r.Ok? ==> r.value == Group(sorted)
  {
    var ret: map<string, seq<Candidate>> := map[];
    var i := 0;
    while i < |sorted|
      invariant 0 <= i <= |sorted|
      invariant AllHaveSlash(sorted[..i])
      invariant ret == Group(sorted[..i])
    {
      var f := sorted[i].path;
      if '/' !in f {
        assert sorted[i] in sorted;
        return Err(f);
      }
      GroupSnoc(sorted, i);
      ret := AddFile(ret, f);
      i := i + 1;
    }
    assert sorted[..i] == sorted;
    return Ok(ret);
  }

  /** The body of the grouping loop for a path with a `/`: the entry joins its instance's list. */
  method AddFile(ret: map<string, seq<Candidate>>, f: string) returns (ret': map<string, seq<Candidate>>)
    requires '/' in f
    ensures ret' == AddEntry(ret, f)
  {
    ret' := ret;
    var isplit := LastIndexOf(f, '/');
    var filename := f[isplit + 1..];
    assert filename == FileName(f);
    if '-' !in filename {
      assert InstanceKey(filename).None?;
      return;
    }
    var parts := Split(filename, '-');
    var instance := Join(parts[..|parts| - 1], '-');
    assert InstanceKey(filename) == Some(instance);
    var existing := if instance in ret then ret[instance] else [];
    ret' := ret[instance := existing + [Candidate(f, filename)]];
  }

  /** One step of the grouping loop, at index `i` of `s`. */
  lemma GroupSnoc(s: seq<Stamped>, i: nat)
    requires i < |s| && AllHaveSlash(s[..i]) && '/' in s[i].path
    ensures AllHaveSlash(s[..i + 1])
    ensures Group(s[..i + 1]) == AddEntry(Group(s[..i]), s[i].path)
  {
    var t := s[..i + 1];
    assert t == s[..i] + [s[i]];
    assert t[..|t| - 1] == s[..i];
  }

  /** Each group holds exactly the entries with that key, in the order of the input. */
  lemma {:induction false} GroupIsMembers(s: seq<Stamped>, k: string)
    ensures k in Group(s) <==> Members(s, k) != []
    ensures k in Group(s) ==> Group(s)[k] == AsCandidates(Members(s, k))
  {
    if s != [] {
      GroupIsMembers(s[..|s| - 1], k);
    }
  }

  /** Keeping a subsequence of a descending sequence keeps it descending. */
  lemma {:induction false} MembersSorted(s: seq<Stamped>, k: string)
    requires SortedDesc(s)
    ensures SortedDesc(Members(s, k))
    ensures forall x :: x in Members(s, k) ==> x in s && KeyOf(x) == Some(k)
  {
    if s != [] {
      var init := s[..|s| - 1];
      assert SortedDesc(init);
      MembersSorted(init, k);
      var m := Members(init, k);
      if KeyOf(Last(s)) == Some(k) {
        forall i | 0 <= i < |m| ensures StampLe(Last(s), m[i]) {
          assert m[i] in init;
        }
      }
    }
  }

  /**
   * Within every group the candidates come newest first: each group is the candidate view
   * of a non-increasing `(time, path)` sequence of entries that share its key.
   */
  lemma GroupsNewestFirst(files: seq<Stamped>, k: string)
    ensures k in Group(SortDesc(files)) ==>
              var m := Members(SortDesc(files), k);
              SortedDesc(m) && Group(SortDesc(files))[k] == AsCandidates(m) &&
              forall x :: x in m ==> x in files && KeyOf(x) == Some(k)
  {
    var sorted := SortDesc(files);
    SortDescSorted(files);
    GroupIsMembers(sorted, k);
    MembersSorted(sorted, k);
  }

  /** The instance key, a `-` and the last `-` token give back the file name. */
  lemma InstanceKeyReconstructs(filename: string)
    requires '-' in filename
    ensures var parts := Split(filename, '-');
            InstanceKey(filename).Some? &&
            InstanceKey(filename).value + "-" + Last(parts) == filename &&
            '-' !in Last(parts)
  {
    var parts := Split(filename, '-');
    SplitCount(filename, '-');
    var init := parts[..|parts| - 1];
    assert init + [Last(parts)] == parts;
    JoinSnoc(init, Last(parts), '-');
    JoinSplit(filename, '-');
    assert InstanceKey(filename) == Some(Join(init, '-'));
    SplitPiecesLackSeparator(filename, '-');
    assert '-' !in parts[|parts| - 1];
  }

  /** Every grouped candidate's file name is its key, a `-`, and the file name's last `-` token. */
  lemma GroupedCandidatesReconstruct(s: seq<Stamped>, k: string, c: Candidate)
    requires k in Group(s) && c in Group(s)[k]
    ensures c.file == FileName(c.path)
    ensures '-' in c.file && k + "-" + Last(Split(c.file, '-')) == c.file
  {
    GroupIsMembers(s, k);
    MembersOfKey(s, k);
    var m := Members(s, k);
    var i :| 0 <= i < |AsCandidates(m)| && AsCandidates(m)[i] == c;
    assert m[i] in m;
    InstanceKeyReconstructs(c.file);
  }

  lemma {:induction false} MembersOfKey(s: seq<Stamped>, k: string)
    ensures forall x :: x in Members(s, k) ==> KeyOf(x) == Some(k)
  {
    if s != [] {
      MembersOfKey(s[..|s| - 1], k);
    }
  }

  // ---------------------------------------------------------------------------------
  // list_files

  /** The WebDAV directory listed for a location: `"/remote.php/webdav/" + directory`. */
  function ListingPath(where: string): (p: string)
    ensures StartsWith(p, "/remote.php/webdav/")
    ensures p[|"/remote.php/webdav/"|..] == CloudNames.SplitCloudName(where).1
  {
    "/remote.php/webdav/" + CloudNames.SplitCloudName(where).1
  }

  /** What the server lists for a location; a failed listing lists nothing. */
  function Listed(where: string, ls: (string, string) -> Option<seq<DavEntry>>): seq<DavEntry>
  {
    var listing := ls(CloudNames.SplitCloudName(where).0, ListingPath(where));
    if listing.Some? then listing.value else []
  }

  /** The `-i` patterns in force: none given means the empty list. */
  function Patterns(instances: Option<seq<string>>): seq<string>
  {
    if instances.Some? then instances.value else []
  }

  /** The groups whose key passes the instance patterns, with their lists. */
  function Selected(all: map<string, seq<Candidate>>, patterns: seq<string>): map<string, seq<Candidate>>
  {
    map k | k in all && CloudNames.MatchAnyWildcard(patterns, k) :: all[k]
  }

  /**
   * `list_files`: `ls(host, dir)` is what the WebDAV server lists for `dir` on `host`
   * (`None` when listing fails), `now` the current time, `instances` the `-i` patterns.
   */
  method ListFiles(where: string, ls: (string, string) -> Option<seq<DavEntry>>, now: int,
                   instances: Option<seq<string>>)
    returns (r: Result<map<string, seq<Candidate>>, string>)
    ensures var kept := KeptEntries(Listed(where, ls), now);
            && (r.Err? <==> !AllHaveSlash(kept))
            && (r.Ok? ==> r.value == Selected(Group(SortDesc(kept)), Patterns(instances)))
    ensures r.Ok? <==> Listing(where, ls, now, instances).Some?
    ensures r.Ok? ==> Listing(where, ls, now, instances) == Some(r.value)
  {
    var (host, directory) := CloudNames.SplitCloudName(where);
    var listed := GetAllFilesAndTimestamp(ls(host, "/remote.php/webdav/" + directory), now);
    var grouped := GroupFilesToDownload(listed);
    if grouped.Err? {
      return Err(grouped.error);
    }
    var all := grouped.value;
    var inst: seq<string> := [];
    if instances.Some? {
      inst := instances.value;
    }
    var ret := SelectGroups(all, inst);
    return Ok(ret);
  }

  /** The groups `list_files` returns for a listing, or `None` where it raises. */
  function Listing(where: string, ls: (string, string) -> Option<seq<DavEntry>>, now: int,
                   instances: Option<seq<string>>): Option<map<string, seq<Candidate>>>
  {
    var kept := KeptEntries(Listed(where, ls), now);
    if AllHaveSlash(kept) then Some(Selected(Group(SortDesc(kept)), Patterns(instances))) else None
  }

  /** The `for i in all` loop of `list_files`. */
  method SelectGroups(all: map<string, seq<Candidate>>, inst: seq<string>) returns (ret: map<string, seq<Candidate>>)
    ensures ret == Selected(all, inst)
  {
    ret := map[];
    var todo := all.Keys;
    while todo != {}
      invariant todo <= all.Keys
      invariant forall k :: k in ret <==> k in all && k !in todo && CloudNames.MatchAnyWildcard(inst, k)
      invariant forall k :: k in ret ==> ret[k] == all[k]
      decreases todo
    {
      var i :| i in todo;
      if CloudNames.MatchAnyWildcard(inst, i) {
        ret := ret[i := all[i]];
      }
      todo := todo - {i};
    }
  }

  /** The selection keeps exactly the groups whose key passes the patterns, their lists unchanged. */
  lemma SelectedExactly(all: map<string, seq<Candidate>>, patterns: seq<string>)
    ensures forall k :: k in Selected(all, patterns) <==> k in all && CloudNames.MatchAnyWildcard(patterns, k)
    ensures forall k :: k in Selected(all, patterns) ==> Selected(all, patterns)[k] == all[k]
  {
  }

  /** Without `-i` patterns every group is listed. */
  lemma NoPatternsSelectAll(all: map<string, seq<Candidate>>)
    ensures Selected(all, Patterns(None)) == all
  {
  }
}
