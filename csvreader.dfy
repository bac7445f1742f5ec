/** The stream reader: a CSV handle owning the stream, the read window and the current row
    (initialize_csv, create_csv, destroy_csv), and the state machine that releases the
    previous row, reads the next line and tokenizes it (get_next_line2, get_next_line,
    get_next_row). */
module CsvReader {
  import opened Bytes
  import opened Io
  import opened Tokens
  import opened Tokenizer
  import opened DelimitedReader

  /** What a read returns for the line s it delivered: 0 for the empty read at the end of the
      stream, otherwise the number of fields of the line up to its first NUL (where strlen
      stops). */
  function Code(s: seq<byte>, d: byte): (r: int)
    ensures r == 0 <==> s == []
    ensures s != [] ==> r == Count(s[..IndexOf(s, NUL)], d) + 1
  {
    if s == [] then 0 else Count(s[..IndexOf(s, NUL)], d) + 1
  }

  /** A parsed row as get_next_row hands it out: a copy of the Row struct, whose pointers
      still refer to the handle's blocks. */
  datatype RowValue = RowValue(size: int, data: array?<nat>, text: array?<byte>)

  class Csv {
    var fp: Stream
    var buffer: Window
    var row: Row

    ghost predicate Valid()
      reads this, fp, buffer, row, row.data
    {
      fp.Valid() && buffer.Valid() && row.Valid()
    }

    /** create_csv: keeps the stream, creates an empty read window and an empty row. */
    constructor (fp: Stream)
      requires fp.Valid()
      ensures Valid() && this.fp == fp && fresh(buffer) && fresh(buffer.buffer) && fresh(row)
      ensures buffer.size == CSV_BUFFER_SIZE && row.Empty()
      ensures Pending(buffer, fp) == fp.Rest()
    {
      this.fp := fp;
      buffer := new Window.Create();
      row := new Row();
    }

    /** get_next_line2: releases the previous row, reads the next line up to and including
        LF across any number of refills, and tokenizes it at the first NUL with the given
        separator. It returns the number of fields, 0 with an empty row at the end of the
        stream, or FAILED_READ with an empty row. */
    method GetNextLine2(delimiter: byte) returns (r: int)
      requires Valid() && delimiter < 128
      modifies row, buffer, buffer.buffer, fp
      ensures Valid() && buffer.buffer == old(buffer.buffer) && buffer.size == old(buffer.size)
      ensures fp.content == old(fp.content) && fp.failing == old(fp.failing)
      ensures match ReadLine(old(Pending(buffer, fp)), LF, fp.failing)
        case ReadError => r == FAILED_READ && row.Empty() && Pending(buffer, fp) == []
        case Line(s) =>
          && r == Code(s, delimiter)
          && Pending(buffer, fp) == old(Pending(buffer, fp))[|s|..]
          && (s == [] ==> row.Empty())
          && (s != [] ==> row.Holds(s[..IndexOf(s, NUL)], delimiter))
          && (s != [] ==> fresh(row.data) && fresh(row.text))
      ensures row.freed == old(row.freed) + old(row.Blocks())
    {
      if row.data != null && row.size > 0 {
        row.Release();
      }
      var line := new LineBuffer(seq(LINE_BUFFER_SIZE, _ => NUL), LINE_BUFFER_SIZE);
      var e := GetDelimiter(line, LF, buffer, fp);
      r := LoadLine(row, line, e, delimiter);
    }

    /** One call of get_next_line2 as a sequence of m calls sees it: its code is the first of
        the codes of what was pending, and the rest are the codes of what it leaves. */
    method NextCode(delimiter: byte, ghost m: nat) returns (r: int)
      requires Valid() && delimiter < 128 && m >= 1
      modifies row, buffer, buffer.buffer, fp
      ensures Valid() && buffer.buffer == old(buffer.buffer) && buffer.size == old(buffer.size)
      ensures fp.failing == old(fp.failing)
      ensures Codes(old(Pending(buffer, fp)), delimiter, fp.failing, m)
              == [r] + Codes(Pending(buffer, fp), delimiter, fp.failing, m - 1)
    {
      ghost var p := Pending(buffer, fp);
      r := GetNextLine2(delimiter);
      CodesCall(p, delimiter, fp.failing, m, r, Pending(buffer, fp));
    }

    /** k successive calls of get_next_line2: they return the codes Codes gives for what was
        pending before the first call. */
    method ReadCodes(delimiter: byte, k: nat) returns (codes: seq<int>)
      requires Valid() && delimiter < 128
      modifies row, buffer, buffer.buffer, fp
      ensures Valid() && buffer.buffer == old(buffer.buffer) && buffer.size == old(buffer.size)
      ensures fp.failing == old(fp.failing)
      ensures codes == Codes(old(Pending(buffer, fp)), delimiter, fp.failing, k)
    {
      if k == 0 {
        codes := [];
      } else {
        var r := NextCode(delimiter, k);
        var rest := ReadCodes(delimiter, k - 1);
        codes := [r] + rest;
      }
    }

    /** get_next_line: get_next_line2 with the comma separator. */
    method GetNextLine() returns (r: int)
      requires Valid()
      modifies row, buffer, buffer.buffer, fp
      ensures Valid() && buffer.buffer == old(buffer.buffer) && buffer.size == old(buffer.size)
      ensures fp.content == old(fp.content) && fp.failing == old(fp.failing)
      ensures match ReadLine(old(Pending(buffer, fp)), LF, fp.failing)
        case ReadError => r == FAILED_READ && row.Empty() && Pending(buffer, fp) == []
        case Line(s) =>
          && r == Code(s, COMMA)
          && Pending(buffer, fp) == old(Pending(buffer, fp))[|s|..]
          && (s == [] ==> row.Empty())
          && (s != [] ==> row.Holds(s[..IndexOf(s, NUL)], COMMA))
          && (s != [] ==> fresh(row.data) && fresh(row.text))
      ensures row.freed == old(row.freed) + old(row.Blocks())
    {
      r := GetNextLine2(COMMA);
    }

    /** get_next_row: the row after get_next_line, or a row whose size is the error code and
        whose data is NULL. Either way the handle's row is the one get_next_line left: empty
        on a failure and at the end of the stream. */
    method GetNextRow() returns (v: RowValue)
      requires Valid()
      modifies row, buffer, buffer.buffer, fp
      ensures Valid() && buffer.buffer == old(buffer.buffer) && buffer.size == old(buffer.size)
      ensures fp.content == old(fp.content) && fp.failing == old(fp.failing)
      ensures match ReadLine(old(Pending(buffer, fp)), LF, fp.failing)
        case ReadError =>
          v == RowValue(FAILED_READ, null, null) && row.Empty() && Pending(buffer, fp) == []
        case Line(s) =>
          && v == RowValue(row.size, row.data, row.text) && v.size == Code(s, COMMA)
          && Pending(buffer, fp) == old(Pending(buffer, fp))[|s|..]
          && (s == [] ==> row.Empty() && v.data == null)
          && (s != [] ==> row.Holds(s[..IndexOf(s, NUL)], COMMA))
          && (s != [] ==> fresh(row.data) && fresh(row.text))
      ensures row.freed == old(row.freed) + old(row.Blocks())
    {
      var result := GetNextLine();
      if result < 0 {
        return RowValue(result, null, null);
      }
      v := RowValue(row.size, row.data, row.text);
    }

    /** destroy_csv: releases the window and the row; the stream is left open. */
    method Destroy()
      requires Valid()
      modifies buffer, row
      ensures !buffer.live && row.freed == old(row.freed) + old(row.Blocks())
      ensures unchanged(fp)
    {
      buffer.Destroy();
      row.Destroy();
    }
  }

  /** The tail of get_next_line2 once the read returned e into line: a failed read empties
      the row and passes the code on, an empty read empties the row and returns 0, and a line
      is measured with strlen and tokenized by load_row, which cannot fail here since strlen
      stopped at a NUL. */
  method LoadLine(row: Row, line: LineBuffer, e: int, delimiter: byte) returns (r: int)
    requires row.Valid() && row.Empty() && delimiter < 128
    requires e >= 0 ==> e < |line.str| && line.str[e] == NUL
    modifies row
    ensures row.Valid() && row.freed == old(row.freed)
    ensures e > 0 ==> fresh(row.data) && fresh(row.text)
    ensures e < 0 ==> r == e && row.Empty()
    ensures e >= 0 ==>
      var s := line.str[..e];
      && r == Code(s, delimiter)
      && (s == [] ==> row.Empty())
      && (s != [] ==> row.Holds(s[..IndexOf(s, NUL)], delimiter))
  {
    if e < 0 {
      // Fail: the row was emptied on entry, so there is nothing left to release.
      row.data := null;
      row.size := 0;
      return e;
    }
    if e == 0 {
      row.size := 0;
      row.data := null;
      return row.size;
    }
    ghost var s := line.str[..e];
    var len := IndexOf(line.str, NUL);
    IndexOfBefore(line.str, e, NUL);
    assert line.str[..len] == s[..IndexOf(s, NUL)];
    var _ := LoadRow(row, line.str, len, delimiter);
    r := row.size;
  }

  /** initialize_csv: a new handle over an open stream, with nothing read yet. */
  method InitializeCsv(fp: Stream) returns (e: int, c: Csv)
    requires fp.Valid()
    ensures e == 0 && fresh(c) && c.Valid() && c.fp == fp && c.row.Empty()
    ensures Pending(c.buffer, c.fp) == fp.Rest()
  {
    c := new Csv(fp);
    e := 0;
  }

  // ---------------------------------------------------------------------------------------
  // Successive calls

  /** The codes k successive calls of get_next_line2 return when p is pending. */
  function Codes(p: seq<byte>, d: byte, failing: bool, k: nat): seq<int>
    decreases k
  {
    if k == 0 then []
    else
      match ReadLine(p, LF, failing)
      case ReadError => [FAILED_READ] + Codes([], d, failing, k - 1)
      case Line(s) => [Code(s, d)] + Codes(p[|s|..], d, failing, k - 1)
  }

  /** The codes of a list of lines. */
  function LineCodes(ls: seq<seq<byte>>, d: byte): seq<int>
  {
    seq(|ls|, i requires 0 <= i < |ls| => Code(ls[i], d))
  }

  /** One call returns the first of the codes of what is pending, and leaves what the rest of
      them are the codes of. */
  lemma CodesCall(p: seq<byte>, d: byte, failing: bool, m: nat, r: int, after: seq<byte>)
    requires m >= 1
    requires match ReadLine(p, LF, failing)
      case ReadError => r == FAILED_READ && after == []
      case Line(s) => r == Code(s, d) && after == p[|s|..]
    ensures Codes(p, d, failing, m) == [r] + Codes(after, d, failing, m - 1)
  {
  }

  /** Once a stream that does not fail is exhausted, every further call returns 0. */
  lemma {:induction false} EndIsSticky(d: byte, k: nat)
    ensures Codes([], d, false, k) == seq(k, _ => 0)
    decreases k
  {
    if k > 0 {
      EndIsSticky(d, k - 1);
      assert ReadLine([], LF, false) == Line([]);
    }
  }

  /** Once a failing stream is exhausted, every further call returns FAILED_READ. */
  lemma {:induction false} ErrorIsSticky(d: byte, k: nat)
    ensures Codes([], d, true, k) == seq(k, _ => FAILED_READ)
    decreases k
  {
    if k > 0 {
      ErrorIsSticky(d, k - 1);
    }
  }

  /** A call on a stream that does not fail returns the code of the next line and leaves the
      rest pending. The parameter i stands for j - 1, so that the terms of the callers match
      those of the contract. */
  lemma CodesLine(p: seq<byte>, l: seq<byte>, rest: seq<byte>, d: byte, j: nat, i: nat)
    requires i == j - 1 && l == NextLine(p, LF) && rest == p[|l|..]
    ensures Codes(p, d, false, j) == [Code(l, d)] + Codes(rest, d, false, i)
  {
    assert ReadLine(p, LF, false) == Line(l);
    CodesUnfold(p, d, j, i, l);
  }

  /** Proof step of CodesLine: one unfolding of Codes, with i standing for j - 1. */
  lemma CodesUnfold(p: seq<byte>, d: byte, j: nat, i: nat, l: seq<byte>)
    requires i == j - 1 && ReadLine(p, LF, false) == Line(l)
    ensures Codes(p, d, false, j) == [Code(l, d)] + Codes(p[|l|..], d, false, i)
  {
  }

  /** From a stream that does not fail, j successive calls return one code per line and then
      what they return once it is exhausted (0 for ever, by EndIsSticky). */
  lemma {:induction false} RowsThenEnd(p: seq<byte>, d: byte, k: nat, j: nat)
    requires j == |Lines(p, LF)| + k
    ensures Codes(p, d, false, j) == LineCodes(Lines(p, LF), d) + Codes([], d, false, k)
    decreases |p|
  {
    if p != [] {
      var l := NextLine(p, LF);
      var rest := p[|l|..];
      var i := j - 1;
      LinesCount(p, l, rest);
      RowsThenEnd(rest, d, k, i);
      RowsStep(p, l, rest, d, k, j, i);
    } else {
      assert Lines(p, LF) == [] && LineCodes([], d) == [];
    }
  }

  /** Proof step of RowsThenEnd: the first line's code, then those of the rest (i stands for
      j - 1, as in CodesLine). */
  lemma RowsStep(p: seq<byte>, l: seq<byte>, rest: seq<byte>, d: byte, k: nat, j: nat, i: nat)
    requires p != [] && l == NextLine(p, LF) && rest == p[|l|..] && i == j - 1
    requires Codes(rest, d, false, i) == LineCodes(Lines(rest, LF), d) + Codes([], d, false, k)
    ensures Codes(p, d, false, j) == LineCodes(Lines(p, LF), d) + Codes([], d, false, k)
  {
    LinesStep(p, l, rest, d);
    CodesLine(p, l, rest, d, j, i);
    Regroup(Codes(p, d, false, j), Code(l, d), Codes(rest, d, false, i),
            LineCodes(Lines(rest, LF), d), Codes([], d, false, k), LineCodes(Lines(p, LF), d));
  }

  /** Reading a line from p leaves fewer bytes and one line fewer. */
  lemma LinesCount(p: seq<byte>, l: seq<byte>, rest: seq<byte>)
    requires p != [] && l == NextLine(p, LF) && rest == p[|l|..]
    ensures |rest| < |p| && |Lines(p, LF)| == 1 + |Lines(rest, LF)|
  {
    LineLengthFacts(p, LF);
  }

  /** The first line read from p, then the lines of what it leaves. */
  lemma LinesStep(p: seq<byte>, l: seq<byte>, rest: seq<byte>, d: byte)
    requires p != [] && l == NextLine(p, LF) && rest == p[|l|..]
    ensures LineCodes(Lines(p, LF), d) == [Code(l, d)] + LineCodes(Lines(rest, LF), d)
  {
    LineLengthFacts(p, LF);
    assert Lines(p, LF) == [l] + Lines(rest, LF);
    LineCodesCons(l, Lines(rest, LF), d);
  }

  /** Proof step of RowsStep, on plain sequences: the first code, then the codes of the lines
      that follow and then the tail. */
  lemma Regroup(all: seq<int>, x: int, after: seq<int>, codes: seq<int>, tail: seq<int>, lines: seq<int>)
    requires all == [x] + after && after == codes + tail && lines == [x] + codes
    ensures all == lines + tail
  {
  }

  /** ... and then 0 for ever. */
  lemma RowsThenZeros(p: seq<byte>, d: byte, k: nat)
    ensures Codes(p, d, false, |Lines(p, LF)| + k) == LineCodes(Lines(p, LF), d) + seq(k, _ => 0)
  {
    RowsThenEnd(p, d, k, |Lines(p, LF)| + k);
    EndIsSticky(d, k);
  }

  lemma LineCodesCons(l: seq<byte>, ls: seq<seq<byte>>, d: byte)
    ensures LineCodes([l] + ls, d) == [Code(l, d)] + LineCodes(ls, d)
  {
  }

  /** Every line read is non-empty, so its code is a positive field count. */
  lemma LineCodesPositive(p: seq<byte>, d: byte)
    ensures forall i :: 0 <= i < |Lines(p, LF)| ==> LineCodes(Lines(p, LF), d)[i] >= 1
  {
    forall i | 0 <= i < |Lines(p, LF)|
      ensures LineCodes(Lines(p, LF), d)[i] >= 1
    {
      LinesShape(p, LF, i);
    }
  }

  /** Three one-digit fields are clean for the comma: none holds the comma, NUL or LF, and
      the last holds no CR. */
  lemma DigitFields(fs: seq<seq<byte>>, x: char, y: char, z: char)
    requires '0' <= x <= '9' && '0' <= y <= '9' && '0' <= z <= '9'
    requires fs == [Ascii([x]), Ascii([y]), Ascii([z])]
    ensures |fs| == 3
    ensures forall k :: 0 <= k < |fs| ==> COMMA !in fs[k] && NUL !in fs[k] && LF !in fs[k]
    ensures CR !in fs[|fs| - 1]
  {
    DigitField(x);
    DigitField(y);
    DigitField(z);
  }

  /** A one-digit field holds none of the comma, NUL, CR and LF. */
  lemma DigitField(x: char)
    requires '0' <= x <= '9'
    ensures var f := Ascii([x]);
            COMMA !in f && NUL !in f && LF !in f && CR !in f
  {
    var f := Ascii([x]);
    assert |f| == 1 && 48 <= f[0] <= 57;
  }

  /** A line made of clean fields and LF is read whole, and its code is its number of fields;
      the row it leaves holds those fields. */
  lemma RowLine(fs: seq<seq<byte>>, rest: seq<byte>, d: byte)
    requires |fs| >= 1 && d != NUL && d != CR && d != LF
    requires forall k :: 0 <= k < |fs| ==> d !in fs[k] && NUL !in fs[k] && LF !in fs[k]
    requires CR !in fs[|fs| - 1]
    ensures var l := Join(fs, d) + [LF];
            && NextLine(l + rest, LF) == l && (l + rest)[|l|..] == rest
            && Code(l, d) == |fs|
            && Views(TokenCopy(l[..IndexOf(l, NUL)], d), Starts(l[..IndexOf(l, NUL)], d)) == fs
  {
    var j := Join(fs, d);
    var l := j + [LF];
    JoinFree(fs, d, LF);
    JoinFree(fs, d, NUL);
    assert (l + rest)[..|l| - 1] == j;
    LineLengthAt(l + rest, LF, |l|);
    assert IndexOf(l, NUL) == |l|;
    assert l[..|l|] == l;
    TokenizeJoin(fs, [LF], d);
  }

  /** Three lines of clean fields give their field counts, then 0; j, the number of calls,
      stands for 4. */
  lemma ThreeLines(f1: seq<seq<byte>>, f2: seq<seq<byte>>, f3: seq<seq<byte>>,
                   l1: seq<byte>, l2: seq<byte>, l3: seq<byte>, d: byte, j: nat)
    requires d != NUL && d != CR && d != LF && j == 4
    requires |f1| >= 1 && |f2| >= 1 && |f3| >= 1
    requires forall k :: 0 <= k < |f1| ==> d !in f1[k] && NUL !in f1[k] && LF !in f1[k]
    requires forall k :: 0 <= k < |f2| ==> d !in f2[k] && NUL !in f2[k] && LF !in f2[k]
    requires forall k :: 0 <= k < |f3| ==> d !in f3[k] && NUL !in f3[k] && LF !in f3[k]
    requires CR !in f1[|f1| - 1] && CR !in f2[|f2| - 1] && CR !in f3[|f3| - 1]
    requires l1 == Join(f1, d) + [LF] && l2 == Join(f2, d) + [LF] && l3 == Join(f3, d) + [LF]
    ensures Codes(l1 + (l2 + l3), d, false, j) == [|f1|, |f2|, |f3|, 0]
  {
    CodesRow(f1, l1, l2 + l3, d, j);
    CodesRow(f2, l2, l3, d, j - 1);
    CodesRow(f3, l3, [], d, j - 1 - 1);
    EndOnce(d);
    assert l3 + [] == l3;
    DisplayOfFour(|f1|, |f2|, |f3|, 0);
  }

  /** Proof step of ThreeLines: the display of four codes is the concatenation of their
      singletons. */
  lemma DisplayOfFour(a: int, b: int, c: int, e: int)
    ensures [a] + ([b] + ([c] + [e])) == [a, b, c, e]
  {
  }

  /** One call on an exhausted stream returns 0. */
  lemma EndOnce(d: byte)
    ensures Codes([], d, false, 1) == [0]
  {
    EndIsSticky(d, 1);
  }

  /** A call that reads a line of clean fields returns its field count. */
  lemma CodesRow(fs: seq<seq<byte>>, l: seq<byte>, rest: seq<byte>, d: byte, j: nat)
    requires |fs| >= 1 && d != NUL && d != CR && d != LF && j >= 1
    requires forall k :: 0 <= k < |fs| ==> d !in fs[k] && NUL !in fs[k] && LF !in fs[k]
    requires CR !in fs[|fs| - 1]
    requires l == Join(fs, d) + [LF]
    ensures Codes(l + rest, d, false, j) == [|fs|] + Codes(rest, d, false, j - 1)
  {
    RowLine(fs, rest, d);
    CodesLine(l + rest, l, rest, d, j, j - 1);
  }

  /** Reading "1,2,3\n2,3,4\n3,4,5\n" returns three rows of three fields, then 0. */
  lemma ThreeRows()
    ensures Codes(Ascii("1,2,3\n2,3,4\n3,4,5\n"), COMMA, false, 4) == [3, 3, 3, 0]
  {
    var f1 := [Ascii("1"), Ascii("2"), Ascii("3")];
    var f2 := [Ascii("2"), Ascii("3"), Ascii("4")];
    var f3 := [Ascii("3"), Ascii("4"), Ascii("5")];
    ThreeLineText("1,2,3\n2,3,4\n3,4,5\n", "1,2,3\n", "2,3,4\n", "3,4,5\n");
    RowText("1,2,3\n", "1", "2", "3");
    RowText("2,3,4\n", "2", "3", "4");
    RowText("3,4,5\n", "3", "4", "5");
    DigitFields(f1, '1', '2', '3');
    DigitFields(f2, '2', '3', '4');
    DigitFields(f3, '3', '4', '5');
    ThreeLines(f1, f2, f3, Ascii("1,2,3\n"), Ascii("2,3,4\n"), Ascii("3,4,5\n"), COMMA, 4);
  }

  /** A row of three one-digit fields, such as each row of that stream, holds those digits
      as its fields. */
  lemma DigitRowFields(x: char, y: char, z: char)
    requires '0' <= x <= '9' && '0' <= y <= '9' && '0' <= z <= '9'
    ensures var l := Ascii([x] + "," + [y] + "," + [z] + "\n");
            Views(TokenCopy(l[..IndexOf(l, NUL)], COMMA), Starts(l[..IndexOf(l, NUL)], COMMA))
            == [Ascii([x]), Ascii([y]), Ascii([z])]
  {
    var fs := [Ascii([x]), Ascii([y]), Ascii([z])];
    RowText([x] + "," + [y] + "," + [z] + "\n", [x], [y], [z]);
    DigitFields(fs, x, y, z);
    RowLine(fs, [], COMMA);
  }

  /** The bytes of a text of three lines. */
  lemma ThreeLineText(text: string, x: string, y: string, z: string)
    requires text == x + (y + z)
    ensures Ascii(text) == Ascii(x) + (Ascii(y) + Ascii(z))
  {
    AsciiAppend(x, y + z);
    AsciiAppend(y, z);
  }

  /** The bytes of a three-field text line. */
  lemma RowText(line: string, x: string, y: string, z: string)
    requires line == x + "," + y + "," + z + "\n"
    ensures Ascii(line) == Join([Ascii(x), Ascii(y), Ascii(z)], COMMA) + [LF]
  {
    AsciiJoin3(x, y, z);
    AsciiAppend(x + "," + y + "," + z, "\n");
    assert Ascii("\n") == [LF];
  }
}
