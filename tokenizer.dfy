/** The row tokenizer: counting fields, copying a line and cutting it into NUL-terminated
    fields in place (get_number_of_fields, load_row, load_row_comma), and the Row that owns the
    result (create_row, destroy_row). */
module Tokenizer {
  import opened Bytes
  import opened Tokens

  /** A parsed row: its number of fields, the array of field starts (data; null stands for
      NULL), given as offsets into the block the first start points to (text), and the blocks
      that have been released so far. */
  class Row {
    var size: int
    var data: array?<nat>
    var text: array?<byte>
    ghost var freed: set<object?>

    /** Either the empty row, or a row owning two blocks not yet released, with one start per
        field, each inside the text block. */
    ghost predicate Valid()
      reads this, data
    {
      if data == null then size == 0
      else
        && text != null && data !in freed && text !in freed
        && size == data.Length && size >= 1
        && (forall k :: 0 <= k < size ==> data[k] < text.Length)
    }

    /** size 0 and data NULL, as create_row leaves a row. */
    ghost predicate Empty()
      reads this
    {
      size == 0 && data == null
    }

    /** The blocks the row points to: none for the empty row, else data and data[0]. */
    ghost function Blocks(): set<object?>
      reads this
    {
      if data == null then {} else {data, text}
    }

    /** The row holds the tokenized copy of the line s, split at d. */
    ghost predicate Holds(s: seq<byte>, d: byte)
      reads this, data, text
    {
      && data != null && text != null
      && size == Count(s, d) + 1
      && data[..] == Starts(s, d)
      && text[..] == TokenCopy(s, d)
    }

    /** The C strings the field starts point to. */
    function Fields(): seq<seq<byte>>
      reads this, data, text
      requires Valid()
    {
      if data == null then [] else Views(text[..], data[..])
    }

    /** create_row. */
    constructor ()
      ensures Valid() && Empty() && freed == {}
    {
      size := 0;
      data := null;
      text := null;
      freed := {};
    }

    /** The release at the start of get_next_line2: frees both blocks of a loaded row and
        resets it to the empty row. */
    method Release()
      requires Valid()
      modifies this
      ensures Valid() && Empty()
      ensures freed == old(freed) + old(Blocks())
    {
      freed := freed + Blocks();
      data := null;
      size := 0;
    }

    /** destroy_row: releases the blocks but leaves size and data as they were (the row itself
        may live on the stack and is not released). */
    method Destroy()
      requires Valid()
      modifies this
      ensures size == old(size) && data == old(data) && text == old(text)
      ensures freed == old(freed) + old(Blocks())
    {
      freed := freed + Blocks();
    }
  }

  /** get_number_of_fields: one more than the number of d among the first size bytes (none
      when size is not positive). */
  method GetNumberOfFields(src: seq<byte>, size: int, d: byte) returns (n: int)
    requires size <= |src|
    ensures n == Count(src[..if size > 0 then size else 0], d) + 1
  {
    var num := 0;
    var i := 0;
    var remaining := size;
    while remaining > 0
      invariant 0 <= i <= |src|
      invariant remaining > 0 ==> i + remaining == size
      invariant remaining <= 0 ==> i == (if size > 0 then size else 0)
      invariant num == Count(src[..i], d)
      decreases remaining
    {
      CountStep(src, i, d);
      if src[i] == d {
        num := num + 1;
      }
      i := i + 1;
      remaining := remaining - 1;
    }
    n := num + 1;
  }

  /** malloc(size + 1) followed by memcpy of the line and the byte after it. */
  method Duplicate(src: seq<byte>, size: nat) returns (text: array<byte>)
    requires size < |src|
    ensures fresh(text) && text[..] == src[..size + 1]
  {
    text := new byte[size + 1];
    forall i | 0 <= i <= size {
      text[i] := src[i];
    }
  }

  /** One pass of the loop of load_row at offset i: a separator becomes NUL and the offset
      just past it is recorded as the next field start. */
  method Visit(text: array<byte>, data: array<nat>, i: nat, offset: nat, sep: byte,
               ghost s: seq<byte>) returns (next: nat)
    requires text.Length == |s| + 1 && i < |s| && text[i] == s[i]
    requires offset == Count(s[..i], sep) + 1 && data.Length == Count(s, sep) + 1
    requires offset <= data.Length
    requires data[..offset] == Starts(s[..i], sep)
    modifies text, data
    ensures next == Count(s[..i + 1], sep) + 1 && next <= data.Length
    ensures data[..next] == Starts(s[..i + 1], sep)
    ensures text[..] == old(text[..])[i := if s[i] == sep then NUL else s[i]]
  {
    StartsStep(s, i, sep);
    CountMonotone(s, i + 1, |s|, sep);
    assert s[..|s|] == s;
    next := offset;
    if text[i] == sep {
      text[i] := NUL;
      data[offset] := i + 1;
      next := offset + 1;
    }
  }

  /** The loop of load_row: rewrites every separator among the first size bytes of text to
      NUL and records, after offset 0, the offset just past each one. */
  method Tokenize(text: array<byte>, data: array<nat>, size: nat, sep: byte)
    requires text.Length == size + 1 && data.Length == Count(text[..size], sep) + 1
    modifies text, data
    ensures text[..] == Rewrite(old(text[..size]), sep) + [old(text[size])]
    ensures data[..] == Starts(old(text[..size]), sep)
  {
    ghost var s := text[..size];
    ghost var terminator := text[size];
    data[0] := 0;
    var offset := 1;
    var i := 0;
    while i < size
      invariant 0 <= i <= size
      invariant offset == Count(s[..i], sep) + 1 && offset <= data.Length
      invariant data[..offset] == Starts(s[..i], sep)
      invariant text[..] == Rewrite(s[..i], sep) + s[i..] + [terminator]
    {
      assert text[i] == s[i];
      offset := Visit(text, data, i, offset, sep, s);
      RewriteStep(s, i, sep, terminator);
      i := i + 1;
    }
    assert s[..size] == s;
    RewriteDone(s, terminator);
  }

  /** The work of load_row once the previous row is dealt with: count, allocate, copy,
      tokenize, check the terminator, and cut the last field at its first CR or LF. The blocks
      are returned only on success (on failure they are released). */
  method Build(src: seq<byte>, size: nat, sep: byte) returns (e: int, data: array?<nat>, text: array?<byte>)
    requires size < |src| && sep < 128
    ensures e == INCORRECT_STRING <==> src[size] != NUL
    ensures e == 0 || e == INCORRECT_STRING
    ensures e == INCORRECT_STRING ==> data == null && text == null
    ensures e == 0 ==> && data != null && text != null && fresh(data) && fresh(text)
                       && data[..] == Starts(src[..size], sep)
                       && text[..] == TokenCopy(src[..size], sep)
  {
    ghost var s := src[..size];
    var fields := GetNumberOfFields(src, size, sep);
    var offsets := new nat[fields];
    var copy := Duplicate(src, size);
    assert copy[..size] == s && copy[size] == src[size];
    Tokenize(copy, offsets, size, sep);
    if copy[size] != NUL {
      return INCORRECT_STRING, null, null;
    }
    CutLast(copy, offsets, fields, sep, s);
    e, data, text := 0, offsets, copy;
  }

  /** The tail of load_row: the last field of the tokenized copy is cut at its first CR or LF
      (strcspn), which leaves the copy a load returns. */
  method CutLast(copy: array<byte>, offsets: array<nat>, fields: nat, sep: byte, ghost s: seq<byte>)
    requires fields == Count(s, sep) + 1 && offsets[..] == Starts(s, sep)
    requires copy[..] == Rewrite(s, sep) + [NUL]
    modifies copy
    ensures copy[..] == TokenCopy(s, sep)
  {
    var last := offsets[fields - 1];
    StripRewritten(s, sep);
    var n := Strcspn(copy[last..]);
    copy[last + n] := NUL;
  }

  /** load_row as written: releases the blocks of a loaded row without resetting its fields,
      so a load that then fails leaves the row pointing at released blocks. */
  method LoadRowDangling(r: Row, src: seq<byte>, size: int, sep: byte) returns (e: int)
    requires r.Valid()
    requires 0 <= size < |src| && sep < 128
    modifies r
    ensures e == 0 || e == INCORRECT_STRING
    ensures e == INCORRECT_STRING <==> src[size] != NUL
    ensures e == 0 ==> r.Valid() && r.Holds(src[..size], sep) && fresh(r.data) && fresh(r.text)
    ensures r.freed == old(r.freed) + old(r.Blocks())
    ensures e != 0 ==> r.size == old(r.size) && r.data == old(r.data) && r.text == old(r.text)
  {
    if r.data != null {
      r.freed := r.freed + r.Blocks();
    }
    var data, text;
    e, data, text := Build(src, size, sep);
    if e == 0 {
      r.size, r.data, r.text := data.Length, data, text;
    }
  }

  /** A row loaded from "a,b" and then reloaded from a line whose byte at the given size is not
      the terminator ends up with its data pointing at blocks that were released. */
  method DanglingAfterFailedReload() returns (r: Row, first: int, second: int)
    ensures first == 0 && second == INCORRECT_STRING
    ensures r.data != null && r.data in r.freed && !r.Valid()
  {
    r := new Row();
    first := LoadRowDangling(r, [97, COMMA, 98, NUL], 3, COMMA);
    second := LoadRowDangling(r, [97, 98], 1, COMMA);
  }

  /** load_row with the released blocks forgotten: a row that fails to load is empty. On
      success the row holds the tokenized copy of the first size bytes; when they hold no NUL,
      its fields are the line's split fields with the last one cut at its first CR or LF. */
  method LoadRow(r: Row, src: seq<byte>, size: int, sep: byte) returns (e: int)
    requires r.Valid()
    requires 0 <= size < |src| && sep < 128
    modifies r
    ensures r.Valid()
    ensures e == 0 || e == INCORRECT_STRING
    ensures e == INCORRECT_STRING <==> src[size] != NUL
    ensures e == 0 ==> r.Holds(src[..size], sep) && fresh(r.data) && fresh(r.text)
    ensures e == 0 && NUL !in src[..size] ==> r.Fields() == StripLast(Split(src[..size], sep))
    ensures e != 0 ==> r.Empty()
    ensures r.freed == old(r.freed) + old(r.Blocks())
  {
    if r.data != null {
      r.freed := r.freed + r.Blocks();
      r.data := null;
      r.size := 0;
    }
    var data, text;
    e, data, text := Build(src, size, sep);
    if e == 0 {
      r.size, r.data, r.text := data.Length, data, text;
      if NUL !in src[..size] {
        TokenizeFields(src[..size], sep);
      }
    }
  }

  /** load_row_comma. */
  method LoadRowComma(r: Row, src: seq<byte>, size: int) returns (e: int)
    requires r.Valid()
    requires 0 <= size < |src|
    modifies r
    ensures r.Valid()
    ensures e == INCORRECT_STRING <==> src[size] != NUL
    ensures e == 0 ==> r.Holds(src[..size], COMMA)
    ensures e != 0 ==> e == INCORRECT_STRING && r.Empty()
    ensures r.freed == old(r.freed) + old(r.Blocks())
  {
    e := LoadRow(r, src, size, COMMA);
  }

  /** Three texts joined by commas, as bytes, are the join of their bytes. */
  lemma AsciiJoin3(x: string, y: string, z: string)
    ensures Ascii(x + "," + y + "," + z) == Join([Ascii(x), Ascii(y), Ascii(z)], COMMA)
  {
    var fs := [Ascii(x), Ascii(y), Ascii(z)];
    AsciiAppend(x, ",");
    AsciiAppend(x + ",", y);
    AsciiAppend(x + "," + y, ",");
    AsciiAppend(x + "," + y + ",", z);
    assert Ascii(",") == [COMMA];
    assert fs[..2][..1] == [fs[0]];
    assert Join(fs[..2], COMMA) == fs[0] + [COMMA] + fs[1];
  }

  /** Loading "'a9ab','432a','6ad0'" with ',' gives the three quoted fields. */
  lemma QuotedFields()
    ensures var s := Ascii("'a9ab','432a','6ad0'");
            && Count(s, COMMA) + 1 == 3
            && Views(TokenCopy(s, COMMA), Starts(s, COMMA))
               == [Ascii("'a9ab'"), Ascii("'432a'"), Ascii("'6ad0'")]
  {
    var fs := [Ascii("'a9ab'"), Ascii("'432a'"), Ascii("'6ad0'")];
    assert "'a9ab','432a','6ad0'" == "'a9ab'" + "," + "'432a'" + "," + "'6ad0'";
    AsciiJoin3("'a9ab'", "'432a'", "'6ad0'");
    QuotedClean("'a9ab'");
    QuotedClean("'432a'");
    QuotedClean("'6ad0'");
    TokenizeJoin(fs, [], COMMA);
    assert Join(fs, COMMA) + [] == Join(fs, COMMA);
  }

  /** A field made of quotes, lower-case letters and digits holds none of the comma, NUL, CR
      and LF. */
  lemma QuotedClean(x: string)
    requires forall i :: 0 <= i < |x| ==> x[i] == '\'' || 'a' <= x[i] <= 'z' || '0' <= x[i] <= '9'
    ensures var f := Ascii(x); COMMA !in f && NUL !in f && CR !in f && LF !in f
  {
  }
}
