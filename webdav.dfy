/**
 * The OneDrive/SharePoint client (ufload/webdav.py): the defaults its constructor
 * settles, the organisation switch, and the chunked upload, whose posts are kept in a
 * log instead of being sent.
 */
module Webdav {
  import opened Wrappers
  import opened Bytes
  import opened Text

  /** The port used when none is given: 443 for `https`, 80 for anything else. */
  function DefaultPort(port: int, protocol: string): (p: int)
    ensures port != 0 ==> p == port
    ensures port == 0 ==> (p == 443 <==> protocol == "https")
    ensures port == 0 ==> p in {80, 443}
  {
    if port != 0 then port else if protocol == "https" then 443 else 80
  }

  /** The remote path with a trailing `/`, the empty path when none is given. */
  function NormalPath(path: Option<string>): (p: string)
    ensures EndsWith(p, "/")
    ensures var given := if path.Some? then path.value else "";
            if EndsWith(given, "/") then p == given else p == given + "/"
  {
    var given := if path.Some? then path.value else "";
    if EndsWith(given, "/") then given else given + "/"
  }

  /** `str(i)` for an integer. */
  function IntToString(i: int): string
  {
    if i < 0 then "-" + NatToString(-i) else NatToString(i)
  }

  /** The site part of a path: its first three `/`-separated pieces, joined again. */
  function Site(path: string): string
  {
    var parts := Split(path, '/');
    Join(parts[..if |parts| < 3 then |parts| else 3], '/')
  }

  /** For a path `/personal/<site>/<folders>` the site part is `/personal/<site>`. */
  lemma SiteOfPersonalPath(a: string, b: string, rest: string)
    requires '/' !in a && '/' !in b
    ensures Site("/" + a + "/" + b + "/" + rest) == "/" + a + "/" + b
  {
    var parts := Split("/" + a + "/" + b + "/" + rest, '/');
    SplitPersonalPath(a, b, rest);
    var three: seq<string> := ["", a, b];
    assert parts[..3] == three;
    JoinThree(a, b);
  }

  lemma SplitPersonalPath(a: string, b: string, rest: string)
    requires '/' !in a && '/' !in b
    ensures var parts := Split("/" + a + "/" + b + "/" + rest, '/');
            |parts| >= 3 && parts[0] == "" && parts[1] == a && parts[2] == b
  {
    var s3 := b + ['/'] + rest;
    var s2 := a + ['/'] + s3;
    RegroupPath(a, b, rest);
    SplitCons(b, '/', rest);
    SplitCons(a, '/', s3);
    SplitCons([], '/', s2);
  }

  lemma RegroupPath(a: string, b: string, rest: string)
    ensures "/" + a + "/" + b + "/" + rest == [] + ['/'] + (a + ['/'] + (b + ['/'] + rest))
  {
    var s3 := b + ['/'] + rest;
    var p := "/" + a + "/";
    Assoc(p + b, "/", rest);
    Assoc(p, b, "/" + rest);
    Assoc(b, "/", rest);
    Assoc("/" + a, "/", s3);
    Assoc("/", a, "/" + s3);
    Assoc(a, "/", s3);
  }

  lemma JoinThree(a: string, b: string)
    ensures Join(["", a, b], '/') == "/" + a + "/" + b
  {
    var three: seq<string> := ["", a, b];
    var two: seq<string> := [a, b];
    assert three[1..] == two && two[1..] == [b];
    assert Join([b], '/') == b;
    assert Join(two, '/') == a + ['/'] + b;
    assert Join(three, '/') == [] + ['/'] + (a + ['/'] + b);
    assert [] + ['/'] == "/";
    Assoc("/", a + "/", b);
    Assoc("/", a, "/");
  }

  lemma Assoc(x: string, y: string, z: string)
    ensures x + (y + z) == x + y + z
  {
  }

  /** `protocol://host:port<site>/`, the address the client authenticates against. */
  function BaseUrl(protocol: string, host: string, port: int, path: string): string
  {
    protocol + "://" + host + ":" + IntToString(port) + Site(path) + "/"
  }

  /** The personal site holding an organisation's backups. */
  function PersonalSite(oc: string): string
  {
    "/personal/UF_" + oc + "_msf_geneva_msf_org/"
  }

  /** The site of an organisation's backups: `OCA`, `OCB` and `OCG` are known, anything else is taken as a site already. */
  function OcSite(dir: string): string
  {
    if dir == "OCA" then PersonalSite("OCA")
    else if dir == "OCB" then PersonalSite("OCB")
    else if dir == "OCG" then PersonalSite("OCG")
    else dir
  }

  /**
   * Exactly the three organisation names are replaced, each by its own personal site, and
   * a site that came out of the mapping maps to itself.
   */
  lemma OcSiteCases(dir: string)
    ensures OcSite(dir) != dir <==> dir in {"OCA", "OCB", "OCG"}
    ensures dir in {"OCA", "OCB", "OCG"} ==> OcSite(dir) == PersonalSite(dir)
    ensures OcSite(OcSite(dir)) == OcSite(dir)
  {
    if dir in {"OCA", "OCB", "OCG"} {
      assert |PersonalSite(dir)| == |dir| + 33;
    }
  }

  // ---------------------------------------------------------------------------------
  // The chunked upload

  /**
   * The endpoints of an upload: adding a whole file (which also opens every upload),
   * starting, continuing and finishing a chunked upload at a file offset.
   */
  datatype Endpoint = AddFile | StartUpload | ContinueUpload(fileOffset: nat) | FinishUpload(fileOffset: nat)

  /** A `POST` of a body to an endpoint. */
  datatype Post = Post(endpoint: Endpoint, body: seq<byte>)

  const DEFAULT_BUFFER: nat := 10 * 1024 * 1024

  /** The chunk size: the one given, or 10 MiB when none (or 0) is given. */
  function BufferSize(given: nat): (bs: nat)
    ensures bs > 0
    ensures given != 0 ==> bs == given
    ensures given == 0 ==> bs == 10485760
  {
    if given == 0 then DEFAULT_BUFFER else given
  }

  /** `fileobj.read(bs)` on a file holding `data`, positioned at `pos`. */
  function ReadFrom(data: seq<byte>, pos: nat, bs: nat): (x: seq<byte>)
    requires pos <= |data|
    ensures |x| <= bs && pos + |x| <= |data| && x == data[pos..pos + |x|]
    ensures |x| == (if |data| - pos < bs then |data| - pos else bs)
  {
    data[pos..if |data| - pos < bs then |data| else pos + bs]
  }

  /** The endpoint of a chunk, after `sent` bytes, by whether the chunk fills the buffer. */
  function ChunkEndpoint(sent: nat, full: bool): Endpoint
  {
    if sent == 0 then (if full then StartUpload else AddFile)
    else if full then ContinueUpload(sent) else FinishUpload(sent)
  }

  /** The endpoint the upload loop picks for the chunk `x`, with `offset` bytes sent so far (-1 before the first post). */
  function NextEndpoint(offset: int, x: seq<byte>, bs: nat): Endpoint
    requires offset >= -1
  {
    if offset == -1 then AddFile
    else if offset == 0 then (if |x| == bs then StartUpload else AddFile)
    else if |x| == bs then ContinueUpload(offset)
    else FinishUpload(offset)
  }

  /** The posts for the bytes of `data` from `sent` on, one per chunk. */
  function ChunkPosts(data: seq<byte>, bs: nat, sent: nat): seq<Post>
    requires bs > 0 && sent <= |data|
    decreases |data| - sent
  {
    if sent == |data| then []
    else
      var x := ReadFrom(data, sent, bs);
      [Post(ChunkEndpoint(sent, |x| == bs), x)] + ChunkPosts(data, bs, sent + |x|)
  }

  /** Every post of an upload: the empty `add`, then the chunks. */
  function Plan(data: seq<byte>, bs: nat): seq<Post>
    requires bs > 0
  {
    [Post(AddFile, [])] + ChunkPosts(data, bs, 0)
  }

  /** The bodies of posts, in order. */
  function Bodies(ps: seq<Post>): seq<seq<byte>>
  {
    if ps == [] then [] else [ps[0].body] + Bodies(ps[1..])
  }

  /** Whether the upload goes on after a post: statuses other than 200 and 201 raise. */
  predicate Proceeds(status: int)
  {
    status == 200 || status == 201
  }

  /** The index of the first post, from `i` on, whose status stops the upload (`|plan|` if none). */
  function FirstRejected(plan: seq<Post>, status: nat -> int, i: nat): (f: nat)
    requires i <= |plan|
    ensures i <= f <= |plan|
    ensures f < |plan| ==> !Proceeds(status(f))
    ensures forall j :: i <= j < f ==> Proceeds(status(j))
    decreases |plan| - i
  {
    if i == |plan| then |plan|
    else if !Proceeds(status(i)) then i
    else FirstRejected(plan, status, i + 1)
  }

  /** The bodies of the chunk posts, one after the other, are the rest of the file. */
  lemma {:induction false} ChunkPostsCoverData(data: seq<byte>, bs: nat, sent: nat)
    requires bs > 0 && sent <= |data|
    ensures Flatten(Bodies(ChunkPosts(data, bs, sent))) == data[sent..]
    decreases |data| - sent
  {
    if sent < |data| {
      var x := ReadFrom(data, sent, bs);
      var rest := ChunkPosts(data, bs, sent + |x|);
      var p := Post(ChunkEndpoint(sent, |x| == bs), x);
      assert ChunkPosts(data, bs, sent) == [p] + rest;
      BodiesCons(p, rest);
      ChunkPostsCoverData(data, bs, sent + |x|);
      FlattenCons(x, Bodies(rest));
      assert data[sent..] == x + data[sent + |x|..];
    }
  }

  lemma BodiesCons(p: Post, rest: seq<Post>)
    ensures Bodies([p] + rest) == [p.body] + Bodies(rest)
  {
    assert ([p] + rest)[1..] == rest;
  }

  /** The bodies of an upload's posts, one after the other, are the whole file. */
  lemma PlanCoversData(data: seq<byte>, bs: nat)
    requires bs > 0
    ensures Flatten(Bodies(Plan(data, bs))) == data
  {
    var chunks := ChunkPosts(data, bs, 0);
    ChunkPostsCoverData(data, bs, 0);
    assert Plan(data, bs)[1..] == chunks;
    var empty: seq<seq<byte>> := [[]];
    assert Bodies(Plan(data, bs)) == empty + Bodies(chunks);
    FlattenAppend(empty, Bodies(chunks));
    assert empty[..0] == [];
    assert Flatten(empty) == [];
    assert data[0..] == data;
  }

  /** `m` buffers of `bs` bytes. */
  function Mul(m: nat, bs: nat): nat
  {
    if m == 0 then 0 else Mul(m - 1, bs) + bs
  }

  lemma {:induction false} MulIsProduct(m: nat, bs: nat)
    ensures Mul(m, bs) == m * bs
  {
    if m > 0 {
      MulIsProduct(m - 1, bs);
      assert (m - 1) * bs + bs == m * bs;
    }
  }

  /** A whole number of buffers leaves no remainder. */
  lemma ProductMod(m: nat, bs: nat)
    requires bs > 0
    ensures (m * bs) % bs == 0
  {
    var n := m * bs;
    var d := m - n / bs;
    assert n == bs * (n / bs) + n % bs;
    assert bs * d == n % bs by {
      assert bs * d == bs * m - bs * (n / bs);
    }
  }

  /**
   * The `k`-th chunk from `sent` on is non-empty, goes to the endpoint selected by its
   * offset, `k` buffers further, and by whether it fills the buffer, which every chunk but
   * the last does.
   */
  predicate ChunkAt(ps: seq<Post>, k: nat, bs: nat, sent: nat)
    requires k < |ps|
  {
    && 0 < |ps[k].body| <= bs
    && ps[k].endpoint == ChunkEndpoint(sent + Mul(k, bs), |ps[k].body| == bs)
    && (k < |ps| - 1 ==> |ps[k].body| == bs)
  }

  /** One chunk, then the chunks after it. */
  lemma ChunkPostsUnfold(data: seq<byte>, bs: nat, sent: nat)
    requires bs > 0 && sent < |data|
    ensures var x := ReadFrom(data, sent, bs);
            && ChunkPosts(data, bs, sent) == [Post(ChunkEndpoint(sent, |x| == bs), x)] + ChunkPosts(data, bs, sent + |x|)
            && (ChunkPosts(data, bs, sent + |x|) == [] <==> sent + |x| == |data|)
            && (ChunkPosts(data, bs, sent + |x|) != [] ==> |x| == bs)
  {
  }

  /** Every chunk has the shape `ChunkAt` describes. */
  lemma {:induction false} ChunkPostsShape(data: seq<byte>, bs: nat, sent: nat)
    requires bs > 0 && sent <= |data|
    ensures var ps := ChunkPosts(data, bs, sent);
            forall k :: 0 <= k < |ps| ==> ChunkAt(ps, k, bs, sent)
    decreases |data| - sent
  {
    var ps := ChunkPosts(data, bs, sent);
    if sent < |data| {
      var x := ReadFrom(data, sent, bs);
      var next := sent + |x|;
      var rest := ChunkPosts(data, bs, next);
      ChunkPostsUnfold(data, bs, sent);
      ChunkPostsShape(data, bs, next);
      forall k | 0 <= k < |ps|
        ensures ChunkAt(ps, k, bs, sent)
      {
        if k > 0 {
          assert ps[k] == rest[k - 1];
          assert ChunkAt(rest, k - 1, bs, next);
          assert next + Mul(k - 1, bs) == sent + Mul(k, bs);
        }
      }
    }
  }

  /** The last chunk ends the file, `|chunks| - 1` buffers after `sent`. */
  lemma {:induction false} ChunkPostsEnd(data: seq<byte>, bs: nat, sent: nat)
    requires bs > 0 && sent <= |data|
    ensures var ps := ChunkPosts(data, bs, sent);
            ps != [] ==> sent + Mul(|ps| - 1, bs) + |ps[|ps| - 1].body| == |data|
    decreases |data| - sent
  {
    var ps := ChunkPosts(data, bs, sent);
    if sent < |data| {
      var x := ReadFrom(data, sent, bs);
      var next := sent + |x|;
      var rest := ChunkPosts(data, bs, next);
      ChunkPostsUnfold(data, bs, sent);
      ChunkPostsEnd(data, bs, next);
      if rest != [] {
        assert ps[|ps| - 1] == rest[|rest| - 1];
        assert Mul(|ps| - 1, bs) == bs + Mul(|rest| - 1, bs);
      }
    }
  }

  /** From an offset a whole number of buffers before the end, every chunk fills the buffer: no `finishupload`. */
  lemma {:induction false} FullChunksOnly(data: seq<byte>, bs: nat, sent: nat, m: nat)
    requires bs > 0 && sent <= |data| && |data| - sent == Mul(m, bs)
    ensures forall k :: 0 <= k < |ChunkPosts(data, bs, sent)| ==>
              !ChunkPosts(data, bs, sent)[k].endpoint.FinishUpload? &&
              |ChunkPosts(data, bs, sent)[k].body| == bs
    decreases m
  {
    if sent < |data| {
      var x := ReadFrom(data, sent, bs);
      assert |x| == bs;
      FullChunksOnly(data, bs, sent + bs, m - 1);
      var ps := ChunkPosts(data, bs, sent);
      assert ps == [Post(ChunkEndpoint(sent, true), x)] + ChunkPosts(data, bs, sent + bs);
    }
  }

  /** A file whose size is a whole number of buffers never gets a `finishupload`. */
  lemma ExactMultipleNeverFinishes(data: seq<byte>, bs: nat)
    requires bs > 0 && |data| % bs == 0
    ensures forall k :: 0 <= k < |Plan(data, bs)| ==> !Plan(data, bs)[k].endpoint.FinishUpload?
  {
    var m := |data| / bs;
    assert |data| == m * bs;
    MulIsProduct(m, bs);
    FullChunksOnly(data, bs, 0, m);
    assert forall k :: 0 < k < |Plan(data, bs)| ==> Plan(data, bs)[k] == ChunkPosts(data, bs, 0)[k - 1];
  }

  /** Any other file larger than one buffer ends with a short chunk sent to `finishupload` at the offset of the bytes before it. */
  lemma EndsWithFinish(data: seq<byte>, bs: nat)
    requires bs > 0 && |data| > bs && |data| % bs != 0
    ensures var ps := Plan(data, bs);
            && |ps| > 2
            && 0 < |ps[|ps| - 1].body| < bs
            && ps[|ps| - 1].endpoint == FinishUpload(|data| - |ps[|ps| - 1].body|)
  {
    var ps := ChunkPosts(data, bs, 0);
    ChunkPostsUnfold(data, bs, 0);
    ChunkPostsShape(data, bs, 0);
    ChunkPostsEnd(data, bs, 0);
    var k := |ps| - 1;
    var last := ps[k];
    assert ChunkAt(ps, k, bs, 0);
    assert Mul(k, bs) + |last.body| == |data|;
    if k == 0 {
      assert false;
    }
    assert Mul(k, bs) > 0;
    if |last.body| == bs {
      LastFullMeansMultiple(|data|, bs, k);
      assert false;
    }
    assert last.endpoint == FinishUpload(Mul(k, bs));
    var plan := Plan(data, bs);
    assert plan[|plan| - 1] == last;
  }

  lemma LastFullMeansMultiple(n: nat, bs: nat, k: nat)
    requires bs > 0 && n == Mul(k, bs) + bs
    ensures n % bs == 0
  {
    MulIsProduct(k + 1, bs);
    ProductMod(k + 1, bs);
  }

  /** A file smaller than the buffer goes in one `add` after the empty one; an empty file in the empty `add` alone. */
  lemma SmallFile(data: seq<byte>, bs: nat)
    requires bs > 0 && |data| < bs
    ensures Plan(data, bs) == if data == [] then [Post(AddFile, [])] else [Post(AddFile, []), Post(AddFile, data)]
  {
    if data != [] {
      var x := ReadFrom(data, 0, bs);
      assert x == data;
      assert ChunkPosts(data, bs, |x|) == [];
    }
  }

  class Client {
    /** The folder path, always ending in `/`. */
    var path: string
    /** The site address posts go to. */
    var baseurl: string
    /** Every post sent, in order. */
    var posts: seq<Post>

    /** The port and path defaults, and the site address derived from them. */
    constructor(host: string, port: int, protocol: string, path: Option<string>)
      ensures EndsWith(this.path, "/")
      ensures this.path == NormalPath(path)
      ensures baseurl == BaseUrl(protocol, host, DefaultPort(port, protocol), this.path)
      ensures posts == []
    {
      var p := port;
      if p == 0 {
        p := if protocol == "https" then 443 else 80;
      }
      var given := if path.Some? then path.value else "";
      if !EndsWith(given, "/") {
        given := given + "/";
      }
      this.path := given;
      baseurl := BaseUrl(protocol, host, p, given);
      posts := [];
    }

    /** `change_oc`: the site address becomes the base followed by the organisation's site. */
    method ChangeOc(base: string, dir: string)
      modifies this`baseurl
      ensures baseurl == base + OcSite(dir)
    {
      var site := dir;
      if dir == "OCA" {
        site := PersonalSite("OCA");
      } else if dir == "OCB" {
        site := PersonalSite("OCB");
      } else if dir == "OCG" {
        site := PersonalSite("OCG");
      }
      baseurl := base + site;
    }

    /**
     * `upload`: the posts of `Plan` are sent in order up to and including the first one
     * whose status is neither 200 nor 201, which raises with that status; `status(k)` is
     * the status of the `k`-th post of this upload.
     */
    method Upload(data: seq<byte>, bufferSize: nat, status: nat -> int) returns (r: Result<bool, int>)
      modifies this`posts
      ensures var plan := Plan(data, BufferSize(bufferSize));
              var f := FirstRejected(plan, status, 0);
              && posts == old(posts) + plan[..if f < |plan| then f + 1 else |plan|]
              && r == (if f < |plan| then Err(status(f)) else Ok(true))
    {
      var bs := BufferSize(bufferSize);
      ghost var plan := Plan(data, bs);
      var offset := -1;
      var x: seq<byte> := [];
      var pos: nat := 0;
      var k: nat := 0;
      LoopingStart(data, bs);
      while true
        invariant Looping(data, bs, k, offset, x, pos)
        invariant posts == old(posts) + plan[..k]
        invariant forall j :: 0 <= j < k ==> Proceeds(status(j))
        decreases if offset == -1 then |data| + 1 else |data| - offset
      {
        Advance(data, bs, k, offset, x, pos);
        var e := NextEndpoint(offset, x, bs);
        if offset == -1 {
          offset := 0;
        }
        offset := offset + |x|;
        posts := posts + [Post(e, x)];
        var st := status(k);
        k := k + 1;
        if !Proceeds(st) {
          StopsAfter(plan, status, k);
          return Err(st);
        }
        x := ReadFrom(data, pos, bs);
        pos := pos + |x|;
        if x == [] {
          StopsAfter(plan, status, k);
          return Ok(true);
        }
      }
    }
  }

  /**
   * The upload stops after its `k`-th post: the earlier ones were accepted, and either that
   * one was rejected or it was the last of the plan.
   */
  lemma StopsAfter(plan: seq<Post>, status: nat -> int, k: nat)
    requires 0 < k <= |plan|
    requires forall j :: 0 <= j < k - 1 ==> Proceeds(status(j))
    requires Proceeds(status(k - 1)) ==> k == |plan|
    ensures var f := FirstRejected(plan, status, 0);
            && (if f < |plan| then f + 1 else |plan|) == k
            && (f < |plan| <==> !Proceeds(status(k - 1)))
            && (f < |plan| ==> f == k - 1)
  {
    if Proceeds(status(k - 1)) {
      FirstRejectedIs(plan, status, k, 0);
    } else {
      FirstRejectedIs(plan, status, k - 1, 0);
    }
  }

  /** The first rejected post is the one after a run of accepted posts that is itself rejected, or none. */
  lemma {:induction false} FirstRejectedIs(plan: seq<Post>, status: nat -> int, f: nat, i: nat)
    requires i <= f <= |plan|
    requires forall j :: i <= j < f ==> Proceeds(status(j))
    requires f < |plan| ==> !Proceeds(status(f))
    ensures FirstRejected(plan, status, i) == f
    decreases f - i
  {
    if i < f {
      FirstRejectedIs(plan, status, f, i + 1);
    }
  }

  /**
   * The state at the head of the upload loop: before the first post nothing is read;
   * afterwards `k` posts went out, `x` is the chunk read at `offset`, the file position
   * follows it, and what remains of the plan is the chunk posts from `offset` on.
   */
  ghost predicate Looping(data: seq<byte>, bs: nat, k: nat, offset: int, x: seq<byte>, pos: nat)
    requires bs > 0
  {
    && -1 <= offset && pos <= |data| && k <= |Plan(data, bs)|
    && (offset == -1 ==> k == 0 && pos == 0 && x == [])
    && (offset >= 0 ==>
          && 1 <= k && offset < |data| && x == ReadFrom(data, offset, bs) && pos == offset + |x|
          && Plan(data, bs)[k..] == ChunkPosts(data, bs, offset))
  }

  /** Before the first turn of the upload loop nothing is sent and nothing is read. */
  lemma LoopingStart(data: seq<byte>, bs: nat)
    requires bs > 0
    ensures Looping(data, bs, 0, -1, [], 0)
  {
  }

  /**
   * One turn of the upload loop: the post it sends is the next post of the plan, and the
   * chunk it reads next either starts another turn or, empty, means the plan is complete.
   */
  lemma Advance(data: seq<byte>, bs: nat, k: nat, offset: int, x: seq<byte>, pos: nat)
    requires bs > 0 && Looping(data, bs, k, offset, x, pos)
    ensures var plan := Plan(data, bs);
            var next := (if offset == -1 then 0 else offset) + |x|;
            var y := ReadFrom(data, pos, bs);
            && k < |plan|
            && plan[..k + 1] == plan[..k] + [Post(NextEndpoint(offset, x, bs), x)]
            && next == pos && (offset >= 0 ==> offset < next)
            && (y != [] ==> Looping(data, bs, k + 1, next, y, pos + |y|))
            && (y == [] ==> k + 1 == |plan|)
  {
    var plan := Plan(data, bs);
    var next := (if offset == -1 then 0 else offset) + |x|;
    if offset >= 0 {
      ChunkPostsUnfold(data, bs, offset);
      assert plan[k..][0] == plan[k];
      assert plan[k..][1..] == plan[k + 1..];
    } else {
      assert plan[1..] == ChunkPosts(data, bs, 0);
    }
    assert plan[k + 1..] == ChunkPosts(data, bs, next);
    assert plan[..k + 1] == plan[..k] + [plan[k]];
    if next == |data| {
      assert plan[k + 1..] == [];
    }
  }


}
