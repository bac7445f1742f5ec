/** The input stream (what fread, feof and ferror see of a FILE) and the read window that is
    refilled from it wholesale (Buffer, create_buffer, load_buffer, destroy_buffer). */
module Io {
  import opened Bytes

  /** An input stream: the bytes it will deliver, how many have been read, and whether the
      medium reports a read error once those bytes are exhausted (a stream that fails part way
      is the prefix it delivered followed by the error). eof and error are the indicators that
      feof and ferror report; a short read sets one of them. */
  class Stream {
    var content: seq<byte>
    var pos: nat
    var failing: bool
    var eof: bool
    var error: bool

    ghost predicate Valid()
      reads this
    {
      && pos <= |content|
      && (eof ==> pos == |content| && !failing)
      && (error ==> pos == |content| && failing)
    }

    /** The bytes not read yet. */
    function Rest(): seq<byte>
      reads this
      requires Valid()
    {
      content[pos..]
    }

    constructor Open(content: seq<byte>, failing: bool)
      ensures Valid() && Rest() == content
      ensures this.content == content && this.failing == failing && !eof && !error
    {
      this.content := content;
      this.failing := failing;
      pos := 0;
      eof := false;
      error := false;
    }

    /** fread(dst, 1, n, this): copies up to n unread bytes to the front of dst. A short read
        sets the end-of-file indicator, or the error indicator on a failing medium. */
    method Read(dst: array<byte>, n: int) returns (k: int)
      requires Valid() && 0 <= n <= dst.Length
      modifies this, dst
      ensures Valid() && content == old(content) && failing == old(failing)
      ensures k == Min(n, |old(Rest())|)
      ensures pos == old(pos) + k && Rest() == old(Rest())[k..]
      ensures dst[..k] == old(Rest())[..k] && dst[k..] == old(dst[k..])
      ensures eof == (old(eof) || (k < n && !failing))
      ensures error == (old(error) || (k < n && failing))
    {
      k := Min(n, |content| - pos);
      forall i | 0 <= i < k {
        dst[i] := content[pos + i];
      }
      pos := pos + k;
      if k < n {
        if failing {
          error := true;
        } else {
          eof := true;
        }
      }
    }
  }

  /** The read window: a fixed-capacity array, the cursor bp of the next unread byte and the
      end of valid data, as indices into the array. */
  class Window {
    var size: int
    var buffer: array<byte>
    var bp: int
    var end: int
    /** Whether the array is still allocated (destroy_buffer releases it). */
    ghost var live: bool

    /** buffer <= bp <= end <= buffer + size. */
    ghost predicate Valid()
      reads this
    {
      0 <= bp <= end <= size && size == buffer.Length && size > 0 && live
    }

    /** The bytes read from the stream and not consumed yet. */
    function Unread(): seq<byte>
      reads this, buffer
      requires Valid()
    {
      buffer[bp..end]
    }

    /** create_buffer: an empty window of CSV_BUFFER_SIZE bytes. */
    constructor Create()
      ensures Valid() && fresh(buffer)
      ensures size == CSV_BUFFER_SIZE && bp == 0 && end == 0 && Unread() == []
    {
      buffer := new byte[CSV_BUFFER_SIZE];
      size := CSV_BUFFER_SIZE;
      bp := 0;
      end := 0;
      live := true;
    }

    /** load_buffer: refills the whole window from the stream. Fails with FAILED_READ only
        when nothing was read and the error indicator is set; then bp and end stay. */
    method Load(fp: Stream) returns (r: int)
      requires Valid() && fp.Valid()
      modifies this, buffer, fp
      ensures Valid() && buffer == old(buffer) && size == old(size)
      ensures fp.Valid() && fp.content == old(fp.content) && fp.failing == old(fp.failing)
      ensures var k := Min(size, |old(fp.Rest())|);
              r == (if k == 0 && fp.error then FAILED_READ else k)
      ensures r == FAILED_READ ==> bp == old(bp) && end == old(end) && buffer[..] == old(buffer[..])
      ensures r == FAILED_READ ==> fp.Rest() == old(fp.Rest()) && fp.Rest() == []
      ensures r != FAILED_READ ==> bp == 0 && end == r
      ensures r != FAILED_READ ==> Unread() == old(fp.Rest())[..r] && fp.Rest() == old(fp.Rest())[r..]
      ensures r == 0 ==> fp.eof
    {
      var n := fp.Read(buffer, size);
      if n == 0 && fp.error {
        return FAILED_READ;
      }
      bp := 0;
      end := n;
      r := n;
    }

    /** destroy_buffer: releases the array. */
    method Destroy()
      requires Valid()
      modifies this
      ensures !live && buffer == old(buffer) && size == old(size)
      ensures bp == old(bp) && end == old(end)
    {
      live := false;
    }
  }

  /** What a reader still has to deliver: the window's unread bytes, then the stream's. */
  ghost function Pending(b: Window, fp: Stream): seq<byte>
    reads b, b.buffer, fp
    requires b.Valid() && fp.Valid()
  {
    b.Unread() + fp.Rest()
  }
}
