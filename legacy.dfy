/** The older copy of the reader and tokenizer kept at the root of the repository (csv.c):
    __getdelim, which refills the window only when it is empty on entry and so never reads
    past the end of one window, and load_row, which neither releases the previous row nor
    cuts the last field at CR or LF. Its get_number_of_fields is the one in Tokenizer. */
module Legacy {
  import opened Bytes
  import opened Io
  import opened Tokens
  import opened Tokenizer
  import opened DelimitedReader

  /** The bytes one call of __getdelim works on: the unread bytes of the window, or, when the
      window is empty, the first bytes of the stream that a refill puts in it. */
  ghost function Taken(b: Window, fp: Stream): (w: seq<byte>)
    reads b, b.buffer, fp
    requires b.Valid() && fp.Valid()
    ensures |w| <= b.size
  {
    if b.bp == b.end then fp.Rest()[..Min(b.size, |fp.Rest()|)] else b.Unread()
  }

  /** What a call that does not fail has taken is the front of what was pending. */
  lemma {:induction false} TakenIsPrefix(b: Window, fp: Stream)
    requires b.Valid() && fp.Valid()
    ensures Taken(b, fp) <= Pending(b, fp)
  {
    if b.bp == b.end {
      assert Pending(b, fp) == fp.Rest();
    }
  }

  /** __getdelim(&line.str, &line.size, delimiter, b, fp). Returns the bytes of the window
      (refilled first when it is empty) up to and including the first delimiter, or all of
      them when there is none, NUL-terminated; their number is the result and the cursor has
      moved past them. FAILED_READ when the window is empty and the refill fails,
      INCORRECT_FORMAT for a missing argument. */
  method GetDelim(line: LineBuffer?, delimiter: byte, b: Window?, fp: Stream) returns (r: int)
    requires fp.Valid()
    requires b != null ==> b.Valid()
    requires line != null && line.str != [] && line.size > 0 ==> line.size <= |line.str|
    modifies line, b, (if b != null then {b.buffer} else {}), fp
    ensures line == null || b == null ==> r == INCORRECT_FORMAT
    ensures line != null && b != null ==>
      && b.Valid() && b.buffer == old(b.buffer) && b.size == old(b.size)
      && fp.Valid() && fp.content == old(fp.content) && fp.failing == old(fp.failing)
      && 0 < line.size <= |line.str| && line.size >= FirstCapacity(old(line.size))
    ensures line != null && b != null ==>
      (r == FAILED_READ <==> old(b.bp == b.end) && old(fp.Rest()) == [] && fp.failing)
    ensures line != null && b != null && r != FAILED_READ ==>
      var w := old(Taken(b, fp));
      && r == LineLength(w, delimiter) && r < line.size
      && line.str[..r] == NextLine(w, delimiter) && line.str[r] == NUL
      && b.Unread() == w[r..]
      && Pending(b, fp) == old(Pending(b, fp))[r..]
      && (line.size == FirstCapacity(old(line.size)) || line.size <= 2 * r + 1)
  {
    if line == null || b == null {
      return INCORRECT_FORMAT;
    }
    if line.str == [] || line.size <= 0 {
      if line.size <= 0 {
        line.size := LINE_BUFFER_SIZE;
      }
      line.str := seq(line.size, _ => NUL);
    }
    r := ReadWindow(line, delimiter, b, fp);
  }

  /** The work of __getdelim once both buffers exist: refill the window if it is empty, then
      copy from it. */
  method ReadWindow(line: LineBuffer, delimiter: byte, b: Window, fp: Stream) returns (r: int)
    requires fp.Valid() && b.Valid()
    requires 0 < line.size <= |line.str|
    modifies line, b, b.buffer, fp
    ensures b.Valid() && b.buffer == old(b.buffer) && b.size == old(b.size)
    ensures fp.Valid() && fp.content == old(fp.content) && fp.failing == old(fp.failing)
    ensures 0 < line.size <= |line.str| && line.size >= old(line.size)
    ensures r == FAILED_READ <==> old(b.bp == b.end) && old(fp.Rest()) == [] && fp.failing
    ensures r != FAILED_READ ==>
      var w := old(Taken(b, fp));
      && r == LineLength(w, delimiter) && r < line.size
      && line.str[..r] == NextLine(w, delimiter) && line.str[r] == NUL
      && b.Unread() == w[r..]
      && Pending(b, fp) == old(Pending(b, fp))[r..]
      && (line.size == old(line.size) || line.size <= 2 * r + 1)
  {
    ghost var p := Pending(b, fp);
    ghost var w := Taken(b, fp);
    var e := Fill(b, fp);
    if e == FAILED_READ {
      return e;
    }
    ghost var rest := fp.Rest();
    r := CopyWindow(line, delimiter, b, w);
    DropFromWindow(w, rest, r);
  }

  /** The refill at the start of __getdelim: load the window when it is empty. Afterwards the
      window holds what the call takes, and with the stream the same pending bytes. */
  method Fill(b: Window, fp: Stream) returns (e: int)
    requires fp.Valid() && b.Valid()
    modifies b, b.buffer, fp
    ensures b.Valid() && b.buffer == old(b.buffer) && b.size == old(b.size)
    ensures fp.Valid() && fp.content == old(fp.content) && fp.failing == old(fp.failing)
    ensures e == FAILED_READ <==> old(b.bp == b.end) && old(fp.Rest()) == [] && fp.failing
    ensures e != FAILED_READ ==>
      b.Unread() == old(Taken(b, fp)) && old(Pending(b, fp)) == b.Unread() + fp.Rest()
  {
    TakenIsPrefix(b, fp);
    e := 0;
    if b.end == b.bp {
      e := b.Load(fp);
    }
  }

  /** Dropping r bytes of the window from the pending bytes. */
  lemma DropFromWindow(w: seq<byte>, rest: seq<byte>, r: nat)
    requires r <= |w|
    ensures (w + rest)[r..] == w[r..] + rest
  {
  }

  /** One pass of the copy loop of __getdelim: take from the window; the loop is over when
      the delimiter has been copied or the pass copied nothing. */
  method WindowPass(line: LineBuffer, curLen: int, delimiter: byte, b: Window, ghost w: seq<byte>)
    returns (newLen: int, done: bool)
    requires b.Valid()
    requires 0 <= curLen < line.size <= |line.str|
    requires Copying(w, delimiter, line.str[..curLen], b.Unread())
    modifies line, b
    ensures b.Valid() && b.buffer == old(b.buffer) && b.size == old(b.size) && b.end == old(b.end)
    ensures curLen <= newLen < line.size <= |line.str|
    ensures line.size >= old(line.size) && (line.size == old(line.size) || line.size <= 2 * newLen + 1)
    ensures done ==> Delivered(w, delimiter, line.str[..newLen], b.Unread())
    ensures !done ==> Copying(w, delimiter, line.str[..newLen], b.Unread())
                      && b.end - b.bp < old(b.end - b.bp)
  {
    ghost var got := line.str[..curLen];
    ghost var u := b.Unread();
    var found;
    newLen, found := TakeChunk(line, curLen, delimiter, b);
    var len := newLen - curLen;
    assert u + [] == u;
    Advance(w, delimiter, got, u, [], len);
    assert b.Unread() == u[len..];
    done := found || len == 0;
    if !found && len == 0 {
      Exhausted(w, delimiter, line.str[..newLen]);
    }
  }

  /** The copy loop of __getdelim: passes over the window until the delimiter has been copied
      or a pass copies nothing, then terminates the copy with NUL. No pass refills the window,
      so the loop ends at the window's end whether or not the line does. */
  method CopyWindow(line: LineBuffer, delimiter: byte, b: Window, ghost w: seq<byte>) returns (r: int)
    requires b.Valid() && b.Unread() == w
    requires 0 < line.size <= |line.str|
    modifies line, b
    ensures b.Valid() && b.buffer == old(b.buffer) && b.size == old(b.size) && b.end == old(b.end)
    ensures r == LineLength(w, delimiter) && r < line.size <= |line.str|
    ensures line.str[..r] == NextLine(w, delimiter) && line.str[r] == NUL
    ensures b.Unread() == w[r..]
    ensures line.size >= old(line.size) && (line.size == old(line.size) || line.size <= 2 * r + 1)
  {
    ghost var cap0 := line.size;
    var curLen := 0;
    while true
      invariant b.Valid() && b.buffer == old(b.buffer) && b.size == old(b.size) && b.end == old(b.end)
      invariant 0 <= curLen < line.size <= |line.str|
      invariant Copying(w, delimiter, line.str[..curLen], b.Unread())
      invariant line.size >= cap0 && (line.size == cap0 || line.size <= 2 * curLen + 1)
      decreases b.end - b.bp
    {
      var done;
      curLen, done := WindowPass(line, curLen, delimiter, b, w);
      if done {
        r := Terminate(line, curLen, delimiter, b, w);
        return;
      }
    }
  }

  /** Ends the copy: the delivered line is terminated with NUL and its length returned. */
  method Terminate(line: LineBuffer, curLen: int, delimiter: byte, b: Window, ghost w: seq<byte>)
    returns (r: int)
    requires b.Valid()
    requires 0 <= curLen < |line.str|
    requires Delivered(w, delimiter, line.str[..curLen], b.Unread())
    modifies line
    ensures line.size == old(line.size) && |line.str| == old(|line.str|)
    ensures r == curLen && r == LineLength(w, delimiter)
    ensures line.str[..r] == NextLine(w, delimiter) && line.str[r] == NUL
    ensures b.Unread() == w[r..]
  {
    ghost var got := line.str[..curLen];
    line.str := line.str[curLen := NUL];
    assert line.str[..curLen] == got;
    DeliveredLine(w, delimiter, got, b.Unread());
    r := curLen;
  }

  /** A line whose delimiter lies beyond the window's bytes w comes back from __getdelim cut
      at the window's end: all of w, without the delimiter, where one read of the pending bytes
      delivers w followed by the rest of the line. */
  lemma {:induction false} SplitLine(w: seq<byte>, rest: seq<byte>, d: byte)
    requires d !in w && d in rest
    ensures NextLine(w, d) == w
    ensures NextLine(w + rest, d) == w + NextLine(rest, d)
    ensures NextLine(w, d) != NextLine(w + rest, d)
  {
    var p := w + rest;
    var n := LineLength(rest, d);
    LineLengthFacts(w, d);
    LineLengthFacts(rest, d);
    assert p[..|w| + n - 1] == w + rest[..n - 1];
    assert p[|w| + n - 1] == rest[n - 1];
    LineLengthAt(p, d, |w| + n);
    assert p[..|w| + n] == w + rest[..n];
  }

  /** A stream holding a line of CSV_BUFFER_SIZE bytes before its '\n', read through a fresh
      window: __getdelim returns the bytes without the newline, __getdelimiter the whole line. */
  method SplitAcrossWindow(w: seq<byte>) returns (legacy: int, current: int)
    requires |w| == CSV_BUFFER_SIZE && LF !in w
    ensures legacy == |w| && current == |w| + 1
  {
    legacy := LegacyOnLongLine(w);
    current := CurrentOnLongLine(w);
  }

  /** __getdelim on w + "\n" from a fresh window stops at the window's end. */
  method LegacyOnLongLine(w: seq<byte>) returns (r: int)
    requires |w| == CSV_BUFFER_SIZE && LF !in w
    ensures r == |w|
  {
    LineLengthFacts(w, LF);
    var fp := new Stream.Open(w + [LF], false);
    var b := new Window.Create();
    var line := new LineBuffer([], 0);
    assert fp.Rest()[..Min(b.size, |fp.Rest()|)] == w;
    r := GetDelim(line, LF, b, fp);
  }

  /** __getdelimiter on w + "\n" from a fresh window delivers the whole line. */
  method CurrentOnLongLine(w: seq<byte>) returns (r: int)
    requires |w| == CSV_BUFFER_SIZE && LF !in w
    ensures r == |w| + 1
  {
    SplitLine(w, [LF], LF);
    LineLengthFacts([LF], LF);
    var fp := new Stream.Open(w + [LF], false);
    var b := new Window.Create();
    var line := new LineBuffer([], 0);
    assert Pending(b, fp) == w + [LF];
    r := GetDelimiter(line, LF, b, fp);
  }

  /** The line of CSV_BUFFER_SIZE bytes 'a' and then '\n' comes back from __getdelim without
      its newline. */
  method SplitLongLine() returns (legacy: int, current: int)
    ensures legacy == CSV_BUFFER_SIZE && current == CSV_BUFFER_SIZE + 1
  {
    var w := seq(CSV_BUFFER_SIZE, _ => 97 as byte);
    assert forall i :: 0 <= i < |w| ==> w[i] == 97;
    legacy, current := SplitAcrossWindow(w);
  }

  /** load_row of the older copy: counts, allocates, copies, tokenizes and checks the
      terminator like the current one, but never releases the blocks the row held before (a
      successful load leaks them) and leaves the last field as it is. On failure the row is
      not touched. */
  method LoadRow(r: Row, src: seq<byte>, size: int, sep: byte) returns (e: int)
    requires 0 <= size < |src| && sep < 128
    modifies r
    ensures e == 0 || e == INCORRECT_STRING
    ensures e == INCORRECT_STRING <==> src[size] != NUL
    ensures e == 0 ==>
      && r.Valid() && r.data != null && r.text != null && fresh(r.data) && fresh(r.text)
      && r.size == Count(src[..size], sep) + 1
      && r.data[..] == Starts(src[..size], sep)
      && r.text[..] == CutCopy(src[..size], sep, size)
    ensures e == 0 && NUL !in src[..size] ==> r.Fields() == Split(src[..size], sep)
    ensures e != 0 ==> unchanged(r)
    ensures r.freed == old(r.freed)
    ensures e == 0 && old(r.data) != null && old(r.data) !in old(r.freed) ==>
      r.data != old(r.data) && old(r.data) !in r.freed
  {
    ghost var s := src[..size];
    var fields := GetNumberOfFields(src, size, sep);
    var data := new nat[fields];
    var copy := Duplicate(src, size);
    assert copy[..size] == s;
    Tokenize(copy, data, size, sep);
    if copy[size] != NUL {
      return INCORRECT_STRING;
    }
    RewriteCopy(s, sep);
    r.size, r.data, r.text := fields, data, copy;
    e := 0;
    if NUL !in s {
      UncutFields(s, sep);
    }
  }

  /** Joining the fields the older load_row leaves with the separator gives back the line,
      line ending included. */
  lemma {:induction false} LegacyRoundTrip(s: seq<byte>, d: byte)
    requires NUL !in s
    ensures Join(Views(CutCopy(s, d, |s|), Starts(s, d)), d) == s
  {
    UncutFields(s, d);
    JoinSplit(s, d);
  }
}
