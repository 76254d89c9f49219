/**
 * A read-only, file-like cursor over a remote file, fetched piece by piece with HTTP
 * range requests (ufload/httpfile.py). The server's answers are parameters of each
 * operation; the requests issued are kept in a log.
 */
module HttpCursor {
  import opened Wrappers
  import opened Bytes

  /** The requests the cursor issues: a `HEAD` for the size and a ranged `GET`. */
  datatype Request = Head | Get(first: int, last: int)

  /** The status and, when present, the `content-length` of a `HEAD` answer. */
  datatype HeadAnswer = HeadAnswer(status: int, length: Option<nat>)

  /** The status and body of a `GET` answer. */
  datatype Response = Response(status: int, content: seq<byte>)

  /** Why an operation raised. */
  datatype Error = BadStatus(code: int) | ShortRead(wanted: int, got: nat) | InvalidWhence(whence: int)

  /** The `ok` test of the HTTP library: no client (4xx) or server (5xx) error. */
  predicate Accepted(status: int)
  {
    !(400 <= status < 600)
  }

  /** What a fresh `HEAD` makes of the size: its length, 0 when the header is absent. */
  function SizeOf(h: HeadAnswer): (r: Result<nat, Error>)
    ensures r.Err? <==> !Accepted(h.status)
    ensures r.Err? ==> r.error == BadStatus(h.status)
    ensures r.Ok? && h.length.Some? ==> r.value == h.length.value
    ensures r.Ok? && h.length.None? ==> r.value == 0
  {
    if !Accepted(h.status) then Err(BadStatus(h.status))
    else if h.length.Some? then Ok(h.length.value)
    else Ok(0)
  }

  /** What `size()` answers given the cached size: the cache once set, otherwise a fresh `HEAD`. */
  function Known(cachedSize: int, h: HeadAnswer): (r: Result<nat, Error>)
    ensures cachedSize >= 0 ==> r == Ok(cachedSize)
    ensures cachedSize < 0 ==> r == SizeOf(h)
  {
    if cachedSize >= 0 then Ok(cachedSize) else SizeOf(h)
  }

  /** Python's `s[0:count]`: a negative count drops that many bytes from the end. */
  function Slice(s: seq<byte>, count: int): (r: seq<byte>)
    ensures count >= 0 ==> r == s[..if count <= |s| then count else |s|]
    ensures count < 0 ==> r == s[..if |s| + count >= 0 then |s| + count else 0]
  {
    if count >= 0 then (if count <= |s| then s[..count] else s)
    else if |s| + count >= 0 then s[..|s| + count]
    else []
  }

  /**
   * What `read` makes of the `GET` answer once the count is known: an error status or a
   * body shorter than the count raises, otherwise the first `count` bytes are returned.
   */
  function Fetch(count: int, resp: Response): (r: Result<seq<byte>, Error>)
    ensures !Accepted(resp.status) ==> r == Err(BadStatus(resp.status))
    ensures Accepted(resp.status) && count >= 0 ==>
              (r.Ok? <==> |resp.content| >= count)
    ensures r.Ok? && count >= 0 ==> r.value == resp.content[..count]
    ensures r.Ok? && count < 0 ==> |r.value| == (if |resp.content| + count >= 0 then |resp.content| + count else 0)
  {
    if !Accepted(resp.status) then Err(BadStatus(resp.status))
    else if |resp.content| < count then Err(ShortRead(count, |resp.content|))
    else Ok(Slice(resp.content, count))
  }

  /** The number of bytes `read(count)` asks for once the size is known. */
  function Wanted(count: int, offset: int, size: nat): int
  {
    if count < 0 then size - offset else count
  }

  class HttpFile {
    const url: string
    const user: string
    const pw: string
    /** The position of the next byte to read. */
    var offset: int
    /** The size learnt from the server, or -1 while unknown. */
    var cachedSize: int
    /** Every request sent, in order. */
    var requests: seq<Request>

    /** The cached size is either unset (-1) or a length. */
    ghost predicate Valid()
      reads this
    {
      cachedSize >= -1
    }

    constructor(url: string, user: string, pw: string)
      ensures Valid()
      ensures this.url == url && this.user == user && this.pw == pw
      ensures offset == 0 && cachedSize == -1 && requests == []
    {
      this.url := url;
      this.user := user;
      this.pw := pw;
      offset := 0;
      cachedSize := -1;
      requests := [];
    }

    /**
     * `size()`: once known the size is answered from the cache without a request;
     * otherwise one `HEAD` is sent, and only a successful answer fills the cache.
     */
    method Size(h: HeadAnswer) returns (r: Result<nat, Error>)
      requires Valid()
      modifies this`cachedSize, this`requests
      ensures Valid()
      ensures r == Known(old(cachedSize), h)
      ensures requests == old(requests) + (if old(cachedSize) >= 0 then [] else [Head])
      ensures cachedSize == (if r.Ok? then r.value else old(cachedSize))
    {
      if cachedSize < 0 {
        requests := requests + [Head];
        r := SizeOf(h);
        if r.Ok? {
          cachedSize := r.value;
        }
      } else {
        r := Ok(cachedSize);
      }
    }

    /**
     * `read(count)`: a negative count means the rest of the file, which needs the size;
     * the bytes `offset .. offset+count-1` are asked for, and on success the cursor
     * moves on by the count. Every failure leaves the offset where it was.
     */
    method Read(count: int, h: HeadAnswer, resp: Response) returns (r: Result<seq<byte>, Error>)
      requires Valid()
      modifies this`offset, this`cachedSize, this`requests
      ensures Valid()
      ensures count < 0 && Known(old(cachedSize), h).Err? ==>
                r == Err(Known(old(cachedSize), h).error) && offset == old(offset) &&
                requests == old(requests) + [Head] && cachedSize == old(cachedSize)
      ensures count >= 0 ==> cachedSize == old(cachedSize)
      ensures count >= 0 || Known(old(cachedSize), h).Ok? ==>
                var n := Wanted(count, old(offset), if count < 0 then Known(old(cachedSize), h).value else 0);
                && r == Fetch(n, resp)
                && requests == old(requests) + (if count < 0 && old(cachedSize) < 0 then [Head] else []) + [Get(old(offset), old(offset) + n - 1)]
                && offset == (if r.Ok? then old(offset) + n else old(offset))
                && (count < 0 ==> cachedSize == Known(old(cachedSize), h).value)
    {
      var n := count;
      if count < 0 {
        var sz := Size(h);
        if sz.Err? {
          return Err(sz.error);
        }
        n := sz.value - offset;
      }
      requests := requests + [Get(offset, offset + n - 1)];
      r := Fetch(n, resp);
      if r.Ok? {
        offset := offset + n;
      }
    }

    /**
     * `seek(pos, whence)`: whence 0 sets the offset, 1 moves it, 2 places it relative to
     * the size; any other whence raises and changes nothing.
     */
    method Seek(pos: int, whence: int, h: HeadAnswer) returns (r: Result<(), Error>)
      requires Valid()
      modifies this`offset, this`cachedSize, this`requests
      ensures Valid()
      ensures whence == 0 ==> r.Ok? && offset == pos && unchanged(this`cachedSize, this`requests)
      ensures whence == 1 ==> r.Ok? && offset == old(offset) + pos && unchanged(this`cachedSize, this`requests)
      ensures whence == 2 ==>
                && requests == old(requests) + (if old(cachedSize) >= 0 then [] else [Head])
                && (Known(old(cachedSize), h).Ok? ==> r.Ok? && offset == Known(old(cachedSize), h).value + pos && cachedSize == offset - pos)
                && (Known(old(cachedSize), h).Err? ==> r == Err(Known(old(cachedSize), h).error) && offset == old(offset) && cachedSize == old(cachedSize))
      ensures whence !in {0, 1, 2} ==> r == Err(InvalidWhence(whence)) && unchanged(this`offset, this`cachedSize, this`requests)
    {
      if whence == 0 {
        offset := pos;
      } else if whence == 1 {
        offset := offset + pos;
      } else if whence == 2 {
        var sz := Size(h);
        if sz.Err? {
          return Err(sz.error);
        }
        offset := sz.value + pos;
      } else {
        return Err(InvalidWhence(whence));
      }
      r := Ok(());
    }

    /** `tell()`: the offset, with nothing sent and nothing changed. */
    method Tell() returns (o: int)
      ensures o == offset
    {
      o := offset;
    }
  }

  /**
   * The answer of a server that honours range requests as section 2.1 of RFC 7233
   * describes them: a range whose last position comes before its first is not a valid
   * byte-range-spec and is ignored (the whole content, status 200); a range that starts at
   * or beyond the end cannot be satisfied (status 416, section 4.4); otherwise the bytes
   * from the first position to the last, cut at the end of the content (status 206).
   */
  function Served(content: seq<byte>, first: int, last: int): (resp: Response)
    ensures first < 0 || last < first ==> resp == Response(200, content)
    ensures 0 <= first <= last && first >= |content| ==> !Accepted(resp.status)
    ensures 0 <= first <= last && first < |content| ==>
              resp.status == 206 && resp.content == content[first..if last + 1 <= |content| then last + 1 else |content|]
  {
    if first < 0 || last < first then Response(200, content)
    else if first >= |content| then Response(416, [])
    else Response(206, content[first..if last + 1 <= |content| then last + 1 else |content|])
  }

  /** From an honest server, a read that stays within the content returns exactly those bytes. */
  lemma HonestRead(content: seq<byte>, offset: int, count: int)
    requires 0 <= offset && 0 < count && offset + count <= |content|
    ensures Fetch(count, Served(content, offset, offset + count - 1)) == Ok(content[offset..offset + count])
  {
    var resp := Served(content, offset, offset + count - 1);
    assert resp.content == content[offset..offset + count];
    assert resp.content[..count] == resp.content;
  }

  /** From an honest server, a read that runs past the end raises. */
  lemma HonestReadPastEnd(content: seq<byte>, offset: int, count: int)
    requires 0 <= offset && 0 < count && offset + count > |content|
    ensures Fetch(count, Served(content, offset, offset + count - 1)).Err?
  {
  }

  /** A read of zero bytes asks for an invalid range, which the server ignores; the result is empty. */
  lemma HonestEmptyRead(content: seq<byte>, offset: int)
    ensures Fetch(0, Served(content, offset, offset - 1)) == Ok([])
  {
  }

  /**
   * `read()` with the cursor past the end: the count is negative, the range invalid and
   * ignored, and the answer is the content minus as many bytes as the cursor lies past the
   * end: the first bytes of the file rather than nothing, while the offset moves back to the size.
   */
  lemma ReadRestPastEnd(content: seq<byte>, offset: int)
    requires |content| < offset
    ensures var n := Wanted(-1, offset, |content|);
            n < 0 &&
            Fetch(n, Served(content, offset, offset + n - 1))
              == Ok(content[..if 2 * |content| >= offset then 2 * |content| - offset else 0]) &&
            offset + n == |content|
  {
  }

  /** Two honest reads in a row return consecutive pieces of the content. */
  lemma {:induction false} HonestReadsConcatenate(content: seq<byte>, offset: int, a: int, b: int)
    requires 0 <= offset && 0 < a && 0 < b && offset + a + b <= |content|
    ensures var first := Fetch(a, Served(content, offset, offset + a - 1));
            var second := Fetch(b, Served(content, offset + a, offset + a + b - 1));
            first.Ok? && second.Ok? && first.value + second.value == content[offset..offset + a + b]
  {
    HonestRead(content, offset, a);
    HonestRead(content, offset + a, b);
    assert content[offset..offset + a] + content[offset + a..offset + a + b] == content[offset..offset + a + b];
  }
}
