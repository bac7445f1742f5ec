/** The delimited reader (__getdelimiter): copies bytes from the read window into a growable
    scratch buffer until the delimiter has been copied, refilling the window as often as needed,
    and stops early at the end of the stream. */
module DelimitedReader {
  import opened Bytes
  import opened Io

  /** The caller's scratch buffer *str and its capacity *str_size. The buffer is reallocated
      as it grows, so its bytes are a sequence the methods reassign; the empty sequence stands
      for a NULL pointer (every allocation here has at least one byte). */
  class LineBuffer {
    var str: seq<byte>
    var size: int

    constructor (str: seq<byte>, size: int)
      ensures this.str == str && this.size == size
    {
      this.str := str;
      this.size := size;
    }

    /** Grows the buffer ahead of a copy so that needed bytes fit: when needed exceeds the
        capacity, realloc to the larger of needed and twice the capacity, keeping the bytes. */
    method Reserve(needed: int)
      requires 0 < size <= |str|
      modifies this
      ensures 0 < size <= |str|
      ensures size == (if needed > old(size) then Grow(old(size), needed) else old(size))
      ensures str[..old(size)] == old(str[..size])
    {
      if needed > size {
        var n := Grow(size, needed);
        str := str[..size] + seq(n - size, _ => NUL);
        size := n;
      }
    }

    /** memcpy(str + at, chunk, |chunk|): chunk follows the first at bytes, and the capacity
        stays. */
    method Put(at: int, chunk: seq<byte>)
      requires 0 <= at && at + |chunk| < size <= |str|
      modifies this
      ensures size == old(size) && |str| == old(|str|)
      ensures str[..at + |chunk|] == old(str[..at]) + chunk
    {
      str := str[..at] + chunk + str[at + |chunk|..];
    }
  }

  /** Two sequences that agree on their first n elements agree on any shorter prefix. */
  lemma PrefixOfPrefix(a: seq<byte>, b: seq<byte>, n: nat, m: nat)
    requires m <= n <= |a| && n <= |b| && a[..n] == b[..n]
    ensures a[..m] == b[..m]
  {
    assert a[..m] == a[..n][..m];
    assert b[..m] == b[..n][..m];
  }

  /** The capacity a call of GetDelimiter starts from: LINE_BUFFER_SIZE replaces a size that
      is not positive. */
  function FirstCapacity(size: int): int
  {
    if size <= 0 then LINE_BUFFER_SIZE else size
  }

  /** The new capacity when needed bytes do not fit in cap: at least needed and at least
      double, yet never more than twice what is needed, less one. */
  function Grow(cap: int, needed: int): (r: int)
    ensures r >= needed && r >= 2 * cap
    ensures 0 < cap < needed ==> cap < r <= 2 * needed - 1
  {
    if needed < 2 * cap then 2 * cap else needed
  }

  /** How many bytes of p one read takes: up to and including the first d, or all of p. */
  function LineLength(p: seq<byte>, d: byte): (n: nat)
    ensures n <= |p|
  {
    var i := IndexOf(p, d);
    if i < |p| then i + 1 else |p|
  }

  /** A line ends just after the first delimiter, or takes all of p when there is none. */
  lemma {:induction false} LineLengthFacts(p: seq<byte>, d: byte)
    ensures var n := LineLength(p, d);
      && (d in p ==> 0 < n && p[n - 1] == d && d !in p[..n - 1])
      && (d !in p ==> n == |p|)
  {
    var i := IndexOf(p, d);
    assert i < |p| ==> d !in p[..i];
  }

  /** A line length is determined by where its first delimiter is. */
  lemma {:induction false} LineLengthAt(p: seq<byte>, d: byte, n: nat)
    requires 0 < n <= |p| && p[n - 1] == d && d !in p[..n - 1]
    ensures LineLength(p, d) == n
  {
    assert forall j :: 0 <= j < n - 1 ==> p[..n - 1][j] == p[j];
    LineLengthFacts(p, d);
  }

  /** The line one read delivers from the pending bytes p. */
  function NextLine(p: seq<byte>, d: byte): seq<byte>
  {
    p[..LineLength(p, d)]
  }

  datatype ReadResult = Line(bytes: seq<byte>) | ReadError

  /** What one read makes of the pending bytes p: the next line, or an error when the medium
      fails before a delimiter turns up. */
  function ReadLine(p: seq<byte>, d: byte, failing: bool): ReadResult
  {
    if d !in p && failing then ReadError else Line(NextLine(p, d))
  }

  /** One pass of the copy loop: the unread bytes of the window up to and including the first
      delimiter (all of them when there is none) are appended at curLen, growing the buffer
      first so that they and a terminating NUL fit, and consumed from the window. */
  method TakeChunk(line: LineBuffer, curLen: int, delimiter: byte, b: Window) returns (newLen: int, found: bool)
    requires b.Valid()
    requires 0 < line.size <= |line.str|
    requires 0 <= curLen < line.size
    modifies line, b
    ensures b.Valid() && b.buffer == old(b.buffer) && b.size == old(b.size) && b.end == old(b.end)
    ensures 0 < line.size <= |line.str|
    ensures newLen - curLen == LineLength(old(b.Unread()), delimiter) && newLen < line.size
    ensures b.bp == old(b.bp) + (newLen - curLen)
    ensures found == (delimiter in old(b.Unread()))
    ensures line.str[..newLen] == old(line.str[..curLen]) + old(b.Unread())[..newLen - curLen]
    ensures line.size >= old(line.size) && (line.size == old(line.size) || line.size <= 2 * newLen + 1)
  {
    ghost var w := b.Unread();
    ghost var copied := line.str[..curLen];
    var len := b.end - b.bp;
    var k := IndexOf(b.buffer[b.bp..b.end], delimiter);
    found := k < len;
    if found {
      len := k + 1;
    }
    LineLengthFacts(w, delimiter);
    ghost var size0 := line.size;
    line.Reserve(curLen + len + 1);
    PrefixOfPrefix(line.str, old(line.str), size0, curLen);
    var chunk := b.buffer[b.bp..b.bp + len];
    assert chunk == w[..len];
    line.Put(curLen, chunk);
    newLen := curLen + len;
    b.bp := b.bp + len;
  }

  /** got has been copied from the front of the pending bytes p, pending is what is left, and
      no delimiter has been copied yet. */
  ghost predicate Copying(p: seq<byte>, d: byte, got: seq<byte>, pending: seq<byte>)
  {
    got + pending == p && d !in got
  }

  /** got has been copied from the front of p and pending is what is left; got either ends
      with its only delimiter, or holds none and all of p has been copied. */
  ghost predicate Delivered(p: seq<byte>, d: byte, got: seq<byte>, pending: seq<byte>)
  {
    && got + pending == p
    && (if d in got then got[|got| - 1] == d && d !in got[..|got| - 1] else pending == [])
  }

  /** What has been delivered is the line one read takes from p. */
  lemma {:induction false} DeliveredLine(p: seq<byte>, d: byte, got: seq<byte>, pending: seq<byte>)
    requires Delivered(p, d, got, pending)
    ensures got == NextLine(p, d) && pending == p[|got|..]
  {
    assert p[..|got|] == got;
    if d in got {
      assert p[..|got| - 1] == got[..|got| - 1];
      LineLengthAt(p, d, |got|);
    } else {
      LineLengthFacts(p, d);
    }
  }

  /** Copying the window's bytes w up to and including their first delimiter either completes
      the line (w holds the delimiter) or keeps copying. */
  lemma {:induction false} Advance(p: seq<byte>, d: byte, got: seq<byte>, w: seq<byte>, rest: seq<byte>, n: nat)
    requires Copying(p, d, got, w + rest) && n == LineLength(w, d)
    ensures d in w ==> d in p && Delivered(p, d, got + w[..n], w[n..] + rest)
    ensures d !in w ==> n == |w| && Copying(p, d, got + w[..n], w[n..] + rest)
  {
    LineLengthFacts(w, d);
    assert got + w[..n] + (w[n..] + rest) == p by {
      assert w == w[..n] + w[n..];
    }
    if d in w {
      assert (got + w[..n])[..|got| + n - 1] == got + w[..n - 1];
      assert w[n - 1] in got + w[..n];
      assert d in p by {
        assert p[|got| + n - 1] == w[n - 1];
      }
    } else {
      assert w[..n] == w;
    }
  }

  /** The loop body as the loop sees it: a pass either completes the line or takes the whole
      window without meeting a delimiter. */
  method Step(line: LineBuffer, curLen: int, delimiter: byte, b: Window, fp: Stream, ghost p: seq<byte>)
    returns (newLen: int, found: bool)
    requires b.Valid() && fp.Valid()
    requires 0 < line.size <= |line.str|
    requires 0 <= curLen < line.size
    requires Copying(p, delimiter, line.str[..curLen], Pending(b, fp))
    modifies line, b
    ensures b.Valid() && b.buffer == old(b.buffer) && b.size == old(b.size)
    ensures 0 < line.size <= |line.str|
    ensures curLen <= newLen < line.size
    ensures found ==> delimiter in p && Delivered(p, delimiter, line.str[..newLen], Pending(b, fp))
    ensures !found ==> Copying(p, delimiter, line.str[..newLen], Pending(b, fp)) && b.bp == b.end
    ensures old(b.bp) < old(b.end) ==> b.end - b.bp < old(b.end - b.bp)
    ensures line.size >= old(line.size) && (line.size == old(line.size) || line.size <= 2 * newLen + 1)
  {
    ghost var got := line.str[..curLen];
    ghost var w := b.Unread();
    ghost var rest := fp.Rest();
    newLen, found := TakeChunk(line, curLen, delimiter, b);
    ghost var n := newLen - curLen;
    Advance(p, delimiter, got, w, rest, n);
    assert b.Unread() == w[n..];
    assert line.str[..newLen] == got + w[..n];
  }

  /** With nothing pending, all of p has been copied and it is the line delivered. */
  lemma {:induction false} Exhausted(p: seq<byte>, d: byte, got: seq<byte>)
    requires Copying(p, d, got, [])
    ensures d !in p && Delivered(p, d, got, [])
  {
    assert got == p;
  }

  /** An empty window over a stream at its end has nothing pending. */
  lemma {:induction false} Drained(b: Window, fp: Stream)
    requires b.Valid() && fp.Valid() && b.bp == b.end && fp.eof
    ensures Pending(b, fp) == []
  {
  }

  /** A refill of the empty window from the stream: what is pending stays the same, unless the
      read fails, which happens only once nothing is pending. */
  method Refill(b: Window, fp: Stream) returns (e: int)
    requires b.Valid() && fp.Valid() && b.bp == b.end
    modifies b, b.buffer, fp
    ensures b.Valid() && b.buffer == old(b.buffer) && b.size == old(b.size)
    ensures fp.Valid() && fp.content == old(fp.content) && fp.failing == old(fp.failing)
    ensures e == FAILED_READ || (e == b.end - b.bp && fp.pos == old(fp.pos) + e)
    ensures e == FAILED_READ ==> fp.failing && old(Pending(b, fp)) == [] && Pending(b, fp) == []
    ensures e != FAILED_READ ==> Pending(b, fp) == old(Pending(b, fp))
    ensures e == 0 ==> fp.eof
  {
    e := b.Load(fp);
  }

  /** Ends a read that delivered a line: the copied bytes are terminated with NUL and their
      number returned. */
  method Finish(line: LineBuffer, curLen: int, delimiter: byte, b: Window, fp: Stream, ghost p: seq<byte>)
    returns (r: int)
    requires b.Valid() && fp.Valid()
    requires 0 <= curLen < |line.str|
    requires Delivered(p, delimiter, line.str[..curLen], Pending(b, fp))
    modifies line
    ensures line.size == old(line.size) && |line.str| == old(|line.str|)
    ensures r == curLen && line.str[r] == NUL
    ensures Delivered(p, delimiter, line.str[..r], Pending(b, fp))
  {
    ghost var got := line.str[..curLen];
    line.str := line.str[curLen := NUL];
    assert line.str[..curLen] == got;
    r := curLen;
  }

  /** Outcomes of one pass of the copy loop: go round again, the line is complete, or the
      stream failed before a delimiter turned up. */
  datatype Status = More | Done | Failed

  /** One pass of the copy loop of __getdelimiter: take from the window; when no delimiter
      turned up, stop at the end of the stream, or refill the window (FAILED_READ when that
      fails) and go round again. */
  method Pass(line: LineBuffer, curLen: int, delimiter: byte, b: Window, fp: Stream, ghost p: seq<byte>)
    returns (newLen: int, status: Status)
    requires b.Valid() && fp.Valid() && (b.end == b.bp ==> fp.eof)
    requires 0 <= curLen < line.size <= |line.str|
    requires Copying(p, delimiter, line.str[..curLen], Pending(b, fp))
    modifies line, b, b.buffer, fp
    ensures b.Valid() && b.buffer == old(b.buffer) && b.size == old(b.size)
    ensures fp.Valid() && fp.content == old(fp.content) && fp.failing == old(fp.failing)
    ensures curLen <= newLen < line.size <= |line.str|
    ensures line.size >= old(line.size) && (line.size == old(line.size) || line.size <= 2 * newLen + 1)
    ensures status == More ==>
      && Copying(p, delimiter, line.str[..newLen], Pending(b, fp)) && (b.end == b.bp ==> fp.eof)
      && |fp.content| - fp.pos + (b.end - b.bp) < old(|fp.content| - fp.pos + (b.end - b.bp))
    ensures status == Done ==>
      Delivered(p, delimiter, line.str[..newLen], Pending(b, fp)) && (delimiter !in p ==> fp.eof)
    ensures status == Failed ==> fp.failing && delimiter !in p && Pending(b, fp) == []
  {
    var found;
    newLen, found := Step(line, curLen, delimiter, b, fp, p);
    if found {
      return newLen, Done;
    }
    // Without a delimiter the whole window was taken, so it is empty now.
    if fp.eof {
      Drained(b, fp);
      Exhausted(p, delimiter, line.str[..newLen]);
      return newLen, Done;
    }
    var e := Refill(b, fp);
    if e < 0 {
      Exhausted(p, delimiter, line.str[..newLen]);
      return newLen, Failed;
    }
    status := More;
  }

  /** The copy loop of __getdelimiter, once both buffers exist: passes over the window until
      the delimiter has been copied or the stream ends, then terminates the copy with NUL. */
  method CopyLine(line: LineBuffer, delimiter: byte, b: Window, fp: Stream, ghost p: seq<byte>) returns (r: int)
    requires b.Valid() && fp.Valid() && p == Pending(b, fp)
    requires 0 < line.size <= |line.str|
    modifies line, b, b.buffer, fp
    ensures b.Valid() && b.buffer == old(b.buffer) && b.size == old(b.size)
    ensures fp.Valid() && fp.content == old(fp.content) && fp.failing == old(fp.failing)
    ensures 0 < line.size <= |line.str|
    ensures line.size >= old(line.size)
    ensures r == FAILED_READ || 0 <= r < line.size
    ensures r == FAILED_READ ==> fp.failing && delimiter !in p && Pending(b, fp) == []
    ensures r >= 0 ==>
      && Delivered(p, delimiter, line.str[..r], Pending(b, fp))
      && line.str[r] == NUL
      && (delimiter !in p ==> fp.eof)
      && (line.size == old(line.size) || line.size <= 2 * r + 1)
  {
    ghost var cap0 := line.size;
    if b.end == b.bp {
      var e := Refill(b, fp);
      if e < 0 {
        Exhausted(p, delimiter, []);
        return e;
      }
    }
    var curLen := 0;
    while true
      invariant b.Valid() && b.buffer == old(b.buffer) && b.size == old(b.size)
      invariant fp.Valid() && fp.content == old(fp.content) && fp.failing == old(fp.failing)
      invariant b.end == b.bp ==> fp.eof
      invariant 0 <= curLen < line.size <= |line.str|
      invariant Copying(p, delimiter, line.str[..curLen], Pending(b, fp))
      invariant line.size >= cap0 && (line.size == cap0 || line.size <= 2 * curLen + 1)
      decreases |fp.content| - fp.pos + (b.end - b.bp)
    {
      var status;
      curLen, status := Pass(line, curLen, delimiter, b, fp, p);
      if status == Failed {
        return FAILED_READ;
      }
      if status == Done {
        r := Finish(line, curLen, delimiter, b, fp, p);
        return;
      }
    }
  }

  /** __getdelimiter(&line.str, &line.size, delimiter, b, fp). Returns the line length (the
      delimiter included, the terminating NUL excluded), 0 at end of stream, FAILED_READ when
      the stream fails, INCORRECT_FORMAT for a missing argument. The result depends only on the
      pending bytes, not on the window's capacity or on where its refills fall. */
  method GetDelimiter(line: LineBuffer?, delimiter: byte, b: Window?, fp: Stream) returns (r: int)
    requires fp.Valid()
    requires b != null ==> b.Valid()
    requires line != null && line.str != [] && line.size > 0 ==> line.size <= |line.str|
    modifies line, b, (if b != null then {b.buffer} else {}), fp
    ensures line == null || b == null ==> r == INCORRECT_FORMAT
    ensures line != null && b != null ==>
      && b.Valid() && b.buffer == old(b.buffer) && b.size == old(b.size)
      && fp.Valid() && fp.content == old(fp.content) && fp.failing == old(fp.failing)
      && 0 < line.size <= |line.str| && line.size >= FirstCapacity(old(line.size))
    ensures line != null && b != null ==>
      match ReadLine(old(Pending(b, fp)), delimiter, fp.failing)
      case ReadError => r == FAILED_READ && Pending(b, fp) == []
      case Line(s) =>
        && r == |s| && r < line.size && line.str[..r] == s && line.str[r] == NUL
        && Pending(b, fp) == old(Pending(b, fp))[r..]
        && (line.size == FirstCapacity(old(line.size)) || line.size <= 2 * r + 1)
  {
    if line == null || b == null {
      return INCORRECT_FORMAT;
    }
    if line.str == [] || line.size <= 0 {
      if line.size <= 0 {
        line.size := LINE_BUFFER_SIZE;
      }
      line.str := seq(line.size, _ => NUL);
    }
    ghost var p := Pending(b, fp);
    r := CopyLine(line, delimiter, b, fp, p);
    if r >= 0 {
      DeliveredLine(p, delimiter, line.str[..r], Pending(b, fp));
    }
  }

  // ---------------------------------------------------------------------------------------
  // Successive reads

  /** The lines successive reads deliver from p until nothing is pending. */
  function Lines(p: seq<byte>, d: byte): seq<seq<byte>>
    decreases |p|
  {
    if p == [] then []
    else
      var l := NextLine(p, d);
      [l] + Lines(p[|l|..], d)
  }

  function Flatten(ls: seq<seq<byte>>): seq<byte>
  {
    if ls == [] then [] else ls[0] + Flatten(ls[1..])
  }

  /** Successive reads deliver every pending byte exactly once and in order. */
  lemma {:induction false} LinesFlatten(p: seq<byte>, d: byte)
    ensures Flatten(Lines(p, d)) == p
    decreases |p|
  {
    if p != [] {
      var l := NextLine(p, d);
      LinesFlatten(p[|l|..], d);
      assert p == l + p[|l|..];
    }
  }

  /** Each line read is non-empty and holds the delimiter only as its last byte, and every line
      but the last ends with the delimiter. */
  lemma {:induction false} LinesShape(p: seq<byte>, d: byte, i: nat)
    requires i < |Lines(p, d)|
    ensures Lines(p, d)[i] != []
    ensures d !in Lines(p, d)[i][..|Lines(p, d)[i]| - 1]
    ensures i + 1 < |Lines(p, d)| ==> Lines(p, d)[i][|Lines(p, d)[i]| - 1] == d
    decreases |p|
  {
    var l := NextLine(p, d);
    var rest := p[|l|..];
    assert Lines(p, d) == [l] + Lines(rest, d);
    LineLengthFacts(p, d);
    if i == 0 {
      if 1 < |Lines(p, d)| {
        assert rest != [];
      }
    } else {
      LinesShape(rest, d, i - 1);
    }
  }
}
