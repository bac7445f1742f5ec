/** Bytes, the constants of the reader, and the two scans every other module is built on:
    the first occurrence of a byte (memchr, strlen) and the number of occurrences of a byte. */
module Bytes {

  /** One byte of the input, compared as an unsigned char. */
  newtype byte = x: int | 0 <= x < 256

  const NUL: byte := 0
  const LF: byte := 10
  const CR: byte := 13
  const COMMA: byte := 44

  /** Error codes returned by the reader. */
  const FAILED_MALLOC: int := -1
  const INCORRECT_STRING: int := -2
  const FAILED_READ: int := -3
  const INCORRECT_FORMAT: int := -4

  /** Capacity of the read window and initial capacity of the scratch line buffer. */
  const CSV_BUFFER_SIZE: int := 4096
  const LINE_BUFFER_SIZE: int := 1024

  function Min(a: int, b: int): int { if a <= b then a else b }

  /** The bytes of a text, one per character (its low eight bits, which for ASCII text is the
      character itself). */
  function Ascii(s: string): (b: seq<byte>)
    ensures |b| == |s| && forall i :: 0 <= i < |s| ==> b[i] as int == s[i] as int % 256
  {
    seq(|s|, i requires 0 <= i < |s| => (s[i] as int % 256) as byte)
  }

  lemma {:induction false} AsciiAppend(x: string, y: string)
    ensures Ascii(x + y) == Ascii(x) + Ascii(y)
  {
    assert forall i :: 0 <= i < |x| ==> (x + y)[i] == x[i];
    assert forall i :: |x| <= i < |x + y| ==> (x + y)[i] == y[i - |x|];
  }

  /** Index of the first d in s, or |s| when there is none. */
  function IndexOf(s: seq<byte>, d: byte): (i: nat)
    ensures i <= |s|
    ensures i < |s| ==> s[i] == d
    ensures forall j :: 0 <= j < i ==> s[j] != d
    decreases |s|
  {
    if s == [] then 0
    else if s[0] == d then 0
    else 1 + IndexOf(s[1..], d)
  }

  /** Number of occurrences of d in s, counted from the front as the source's loops do. */
  function Count(s: seq<byte>, d: byte): (n: nat)
    ensures n <= |s|
    decreases |s|
  {
    if s == [] then 0
    else Count(s[..|s| - 1], d) + (if s[|s| - 1] == d then 1 else 0)
  }

  /** Counting one more byte of the same sequence adds one exactly when that byte is d. */
  lemma {:induction false} CountStep(s: seq<byte>, i: nat, d: byte)
    requires i < |s|
    ensures Count(s[..i + 1], d) == Count(s[..i], d) + (if s[i] == d then 1 else 0)
  {
    assert s[..i + 1][..i] == s[..i];
  }

  /** Counting a longer prefix never gives fewer occurrences. */
  lemma {:induction false} CountMonotone(s: seq<byte>, i: nat, j: nat, d: byte)
    requires i <= j <= |s|
    ensures Count(s[..i], d) <= Count(s[..j], d)
    decreases j - i
  {
    if i < j {
      CountStep(s, j - 1, d);
      CountMonotone(s, i, j - 1, d);
    }
  }

  /** The count of a concatenation is the sum of the counts. */
  lemma {:induction false} CountAppend(a: seq<byte>, b: seq<byte>, d: byte)
    ensures Count(a + b, d) == Count(a, d) + Count(b, d)
    decreases |b|
  {
    if b != [] {
      var b' := b[..|b| - 1];
      assert (a + b)[..|a + b| - 1] == a + b';
      CountAppend(a, b', d);
    } else {
      assert a + b == a;
    }
  }

  /** Count is the number of indices at which d occurs. */
  lemma {:induction false} CountIndices(s: seq<byte>, d: byte)
    ensures Count(s, d) == |set i | 0 <= i < |s| && s[i] == d|
    decreases |s|
  {
    if s != [] {
      var s' := s[..|s| - 1];
      CountIndices(s', d);
      var before := set i | 0 <= i < |s'| && s'[i] == d;
      var after := set i | 0 <= i < |s| && s[i] == d;
      if s[|s| - 1] == d {
        assert after == before + {|s| - 1};
      } else {
        assert after == before;
      }
    }
  }

  /** The first d of a sequence that holds d at offset n is the first d of its first n bytes,
      or n itself. */
  lemma {:induction false} IndexOfBefore(a: seq<byte>, n: nat, d: byte)
    requires n < |a| && a[n] == d
    ensures IndexOf(a, d) == IndexOf(a[..n], d)
  {
    var i := IndexOf(a, d);
    var j := IndexOf(a[..n], d);
    assert i <= n;
    if j < n {
      assert a[j] == d;
    }
  }
}
