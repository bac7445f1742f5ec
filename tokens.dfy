/** The meaning of a tokenized row, on values: where its fields start, what its backing copy
    holds once separators are rewritten and the last field is cut at its line ending, what a
    field view reads, and how fields relate to the line (split, join and the round trips). */
module Tokens {
  import opened Bytes

  /** Offsets of the field starts in a line s: 0, then the offset just after each separator,
      in source order. */
  function Starts(s: seq<byte>, d: byte): (st: seq<nat>)
    ensures |st| == Count(s, d) + 1
    ensures st[0] == 0
    ensures forall k :: 0 <= k < |st| ==> st[k] <= |s|
    decreases |s|
  {
    if s == [] then [0]
    else Starts(s[..|s| - 1], d) + (if s[|s| - 1] == d then [|s|] else [])
  }

  /** Every start after the first follows a separator. */
  lemma {:induction false} StartsFollowSeparators(s: seq<byte>, d: byte, st: seq<nat>)
    requires st == Starts(s, d)
    ensures forall k :: 0 < k < |st| ==> 1 <= st[k] <= |s| && s[st[k] - 1] == d
    decreases |s|
  {
    if s != [] {
      var s' := s[..|s| - 1];
      var st' := Starts(s', d);
      StartsFollowSeparators(s', d, st');
      forall k | 0 < k < |st'| ensures s[st'[k] - 1] == d {
        assert s'[st'[k] - 1] == d;
      }
    }
  }

  /** The starts are in source order. */
  lemma {:induction false} StartsIncrease(s: seq<byte>, d: byte, st: seq<nat>)
    requires st == Starts(s, d)
    ensures forall k :: 0 < k < |st| ==> st[k - 1] < st[k]
    decreases |s|
  {
    if s != [] {
      var s' := s[..|s| - 1];
      var st' := Starts(s', d);
      StartsIncrease(s', d, st');
      assert st'[|st'| - 1] <= |s'|;
    }
  }

  /** Every separator is followed by a recorded start. */
  lemma {:induction false} StartsAfterEverySeparator(s: seq<byte>, d: byte, st: seq<nat>)
    requires st == Starts(s, d)
    ensures forall i :: 0 <= i < |s| && s[i] == d ==> i + 1 in st
    decreases |s|
  {
    if s != [] {
      var s' := s[..|s| - 1];
      var st' := Starts(s', d);
      StartsAfterEverySeparator(s', d, st');
      assert forall x :: x in st' ==> x in st;
      forall i | 0 <= i < |s| && s[i] == d
        ensures i + 1 in st
      {
        if i < |s'| {
          assert s'[i] == d;
        }
      }
    }
  }

  /** No separator lies inside a field. */
  lemma {:induction false} NoSeparatorInsideField(s: seq<byte>, d: byte, st: seq<nat>)
    requires st == Starts(s, d)
    ensures forall k, j :: 0 < k < |st| && st[k - 1] <= j < st[k] - 1 ==> s[j] != d
    ensures forall j :: st[|st| - 1] <= j < |s| ==> s[j] != d
    decreases |s|
  {
    if s != [] {
      var s' := s[..|s| - 1];
      var st' := Starts(s', d);
      NoSeparatorInsideField(s', d, st');
      if s[|s| - 1] == d {
        assert st == st' + [|s|];
      } else {
        assert st == st';
      }
      forall k, j | 0 < k < |st| && st[k - 1] <= j < st[k] - 1 ensures s[j] != d {
        assert j < |s'| && s[j] == s'[j];
      }
    }
  }

  /** Scanning one more byte adds a start exactly when that byte is a separator. */
  lemma {:induction false} StartsStep(s: seq<byte>, i: nat, d: byte)
    requires i < |s|
    ensures Starts(s[..i + 1], d) == Starts(s[..i], d) + (if s[i] == d then [i + 1] else [])
    ensures Count(s[..i + 1], d) == Count(s[..i], d) + (if s[i] == d then 1 else 0)
  {
    assert s[..i + 1][..i] == s[..i];
  }

  /** Rewriting one more byte of a partly rewritten line followed by its terminator t. */
  lemma {:induction false} RewriteStep(s: seq<byte>, i: nat, d: byte, t: byte)
    requires i < |s|
    ensures Rewrite(s[..i + 1], d) + s[i + 1..] + [t]
            == (Rewrite(s[..i], d) + s[i..] + [t])[i := if s[i] == d then NUL else s[i]]
  {
    var a := Rewrite(s[..i], d) + s[i..];
    var b := Rewrite(s[..i + 1], d) + s[i + 1..];
    assert b == a[i := if s[i] == d then NUL else s[i]];
    assert (a + [t])[i := if s[i] == d then NUL else s[i]] == b + [t];
  }

  /** A line rewritten all the way, followed by its terminator t. */
  lemma {:induction false} RewriteDone(s: seq<byte>, t: byte)
    ensures forall d :: Rewrite(s[..|s|], d) + s[|s|..] + [t] == Rewrite(s, d) + [t]
  {
    assert s[..|s|] == s && s[|s|..] == [];
  }

  /** Where field k of s ends: just before the next separator, or at the end of s. */
  function FieldEnd(s: seq<byte>, d: byte, k: nat): (e: nat)
    requires k < Count(s, d) + 1
    ensures Starts(s, d)[k] <= e <= |s|
  {
    var st := Starts(s, d);
    StartsFollowSeparators(s, d, st);
    StartsIncrease(s, d, st);
    if k + 1 < |st| then st[k + 1] - 1 else |s|
  }

  /** The fields of s between separators, built from the front as the tokenizer scans. */
  function Split(s: seq<byte>, d: byte): (fs: seq<seq<byte>>)
    ensures |fs| == Count(s, d) + 1
    decreases |s|
  {
    if s == [] then [[]]
    else
      var init := Split(s[..|s| - 1], d);
      if s[|s| - 1] == d then init + [[]]
      else init[..|init| - 1] + [init[|init| - 1] + [s[|s| - 1]]]
  }

  /** The fields put back together, one separator between neighbours. */
  function Join(fs: seq<seq<byte>>, d: byte): seq<byte>
    requires |fs| >= 1
    decreases |fs|
  {
    if |fs| == 1 then fs[0] else Join(fs[..|fs| - 1], d) + [d] + fs[|fs| - 1]
  }

  /** The line with every separator byte replaced by NUL and every other byte kept. */
  function Rewrite(s: seq<byte>, d: byte): (r: seq<byte>)
    ensures |r| == |s|
  {
    seq(|s|, i requires 0 <= i < |s| => if s[i] == d then NUL else s[i])
  }

  /** strcspn(u, "\r\n") on a C string: the length of the leading run free of CR, LF and NUL. */
  function Strcspn(u: seq<byte>): (n: nat)
    ensures n <= |u|
    ensures n < |u| ==> u[n] == NUL || u[n] == CR || u[n] == LF
    ensures forall j :: 0 <= j < n ==> u[j] != NUL && u[j] != CR && u[j] != LF
    decreases |u|
  {
    if u == [] || u[0] == NUL || u[0] == CR || u[0] == LF then 0 else 1 + Strcspn(u[1..])
  }

  /** The C string that starts at offset i of t: the bytes up to the next NUL. */
  function View(t: seq<byte>, i: nat): seq<byte>
    requires i <= |t|
  {
    t[i..i + IndexOf(t[i..], NUL)]
  }

  /** The field views of a row: the C string at each recorded start. */
  function Views(t: seq<byte>, st: seq<nat>): seq<seq<byte>>
    requires forall k :: 0 <= k < |st| ==> st[k] <= |t|
  {
    seq(|st|, k requires 0 <= k < |st| => View(t, st[k]))
  }

  /** Where the last field is cut: its first CR or LF (or NUL), or the end of the line. */
  function Cut(s: seq<byte>, d: byte): (c: nat)
    ensures Starts(s, d)[Count(s, d)] <= c <= |s|
  {
    var last := Starts(s, d)[Count(s, d)];
    last + Strcspn(s[last..])
  }

  /** The line with its terminator, NUL at every separator and at offset c, and the line
      elsewhere. */
  function CutCopy(s: seq<byte>, d: byte, c: nat): (t: seq<byte>)
    requires c <= |s|
    ensures |t| == |s| + 1 && t[|s|] == NUL && t[c] == NUL
  {
    seq(|s| + 1, i requires 0 <= i <= |s| =>
      if i == c || i == |s| || s[i] == d then NUL else s[i])
  }

  /** The backing copy a successful load leaves for the line s (its NUL terminator included):
      NUL at every separator, at the cut of the last field and at the end, the line elsewhere. */
  function TokenCopy(s: seq<byte>, d: byte): (t: seq<byte>)
    ensures |t| == |s| + 1 && t[|s|] == NUL && t[Cut(s, d)] == NUL
  {
    CutCopy(s, d, Cut(s, d))
  }

  /** The fields with the last one cut at its first CR or LF. */
  function StripLast(fs: seq<seq<byte>>): (r: seq<seq<byte>>)
    requires |fs| >= 1
    ensures |r| == |fs|
  {
    var f := fs[|fs| - 1];
    fs[..|fs| - 1] + [f[..Strcspn(f)]]
  }

  // ---------------------------------------------------------------------------------------
  // Split and Join

  /** Field k of s is exactly the bytes between its recorded start and its end. */
  lemma {:induction false} SplitField(s: seq<byte>, d: byte, k: nat)
    requires k < Count(s, d) + 1
    ensures Split(s, d)[k] == s[Starts(s, d)[k]..FieldEnd(s, d, k)]
    decreases |s|
  {
    if s != [] {
      var s' := s[..|s| - 1];
      if k < Count(s', d) + 1 {
        SplitField(s', d, k);
      }
      if s[|s| - 1] == d {
        SplitFieldAfterSeparator(s, d, k);
      } else {
        SplitFieldExtended(s, d, k);
      }
    }
  }

  /** SplitField's step when s ends with a separator: it closes the last field of s minus that
      byte and opens an empty one. */
  lemma {:induction false} SplitFieldAfterSeparator(s: seq<byte>, d: byte, k: nat)
    requires s != [] && s[|s| - 1] == d && k < Count(s, d) + 1
    requires var s' := s[..|s| - 1];
             k < Count(s', d) + 1 ==> Split(s', d)[k] == s'[Starts(s', d)[k]..FieldEnd(s', d, k)]
    ensures Split(s, d)[k] == s[Starts(s, d)[k]..FieldEnd(s, d, k)]
  {
    var s' := s[..|s| - 1];
    var st' := Starts(s', d);
    assert Starts(s, d) == st' + [|s|];
    if k < |st'| {
      var e := FieldEnd(s', d, k);
      assert FieldEnd(s, d, k) == e;
      CloseEarlier(s, d, k, st'[k], e);
    } else {
      assert s == s' + [d];
      SplitSeparator(s', d);
    }
  }

  /** A separator at the end of s leaves the fields of the bytes before it. */
  lemma {:induction false} CloseEarlier(s: seq<byte>, d: byte, k: nat, a: nat, e: nat)
    requires s != [] && s[|s| - 1] == d
    requires var t := s[..|s| - 1];
             k < |Split(t, d)| && a <= e <= |t| && Split(t, d)[k] == t[a..e]
    ensures Split(s, d)[k] == s[a..e]
  {
    var t := s[..|s| - 1];
    assert s == t + [d];
    SplitSeparator(t, d);
    SliceKeep(s, t, d, a, e);
  }

  /** SplitField's step when s ends with another byte: it extends the last field. */
  lemma {:induction false} SplitFieldExtended(s: seq<byte>, d: byte, k: nat)
    requires s != [] && s[|s| - 1] != d && k < Count(s, d) + 1
    requires var s' := s[..|s| - 1];
             k < Count(s', d) + 1 ==> Split(s', d)[k] == s'[Starts(s', d)[k]..FieldEnd(s', d, k)]
    ensures Split(s, d)[k] == s[Starts(s, d)[k]..FieldEnd(s, d, k)]
  {
    var s' := s[..|s| - 1];
    var st' := Starts(s', d);
    assert Starts(s, d) == st';
    if k == |st'| - 1 {
      assert FieldEnd(s', d, k) == |s'| && FieldEnd(s, d, k) == |s|;
      ExtendLast(s, d, k, st'[k]);
    } else {
      var e := st'[k + 1] - 1;
      assert FieldEnd(s', d, k) == e && FieldEnd(s, d, k) == e;
      KeepEarlier(s, d, k, st'[k], e);
    }
  }

  /** A byte other than d at the end of s extends the last field of the bytes before it. */
  lemma {:induction false} ExtendLast(s: seq<byte>, d: byte, k: nat, a: nat)
    requires s != [] && s[|s| - 1] != d
    requires var t := s[..|s| - 1];
             k + 1 == |Split(t, d)| && a <= |t| && Split(t, d)[k] == t[a..|t|]
    ensures Split(s, d)[k] == s[a..|s|]
  {
    var t := s[..|s| - 1];
    var c := s[|s| - 1];
    assert s == t + [c];
    SplitExtend(t, c, d);
    ExtendField(Split(t, d), Split(s, d), c, k);
    SliceExtend(s, t, c, a);
  }

  /** The bytes of t + [c] from a are those of t from a, then c. */
  lemma SliceExtend(s: seq<byte>, t: seq<byte>, c: byte, a: nat)
    requires s == t + [c] && a <= |t|
    ensures s[a..|s|] == t[a..|t|] + [c]
  {
  }

  /** Extending the last field k by c. */
  lemma ExtendField(gs: seq<seq<byte>>, r: seq<seq<byte>>, c: byte, k: nat)
    requires k + 1 == |gs| && r == gs[..|gs| - 1] + [gs[|gs| - 1] + [c]]
    ensures r[k] == gs[k] + [c]
  {
  }

  /** A byte other than d at the end of s leaves the earlier fields of the bytes before it. */
  lemma {:induction false} KeepEarlier(s: seq<byte>, d: byte, k: nat, a: nat, e: nat)
    requires s != [] && s[|s| - 1] != d
    requires var t := s[..|s| - 1];
             k + 1 < |Split(t, d)| && a <= e <= |t| && Split(t, d)[k] == t[a..e]
    ensures Split(s, d)[k] == s[a..e]
  {
    var t := s[..|s| - 1];
    var c := s[|s| - 1];
    assert s == t + [c];
    SplitExtend(t, c, d);
    KeepField(Split(t, d), Split(s, d), c, k);
    SliceKeep(s, t, c, a, e);
  }

  /** The bytes of t + [c] within t are those of t. */
  lemma SliceKeep(s: seq<byte>, t: seq<byte>, c: byte, a: nat, e: nat)
    requires s == t + [c] && a <= e <= |t|
    ensures s[a..e] == t[a..e]
  {
  }

  /** Extending the last field leaves field k before it as it was. */
  lemma KeepField(gs: seq<seq<byte>>, r: seq<seq<byte>>, c: byte, k: nat)
    requires k + 1 < |gs| && r == gs[..|gs| - 1] + [gs[|gs| - 1] + [c]]
    ensures r[k] == gs[k]
  {
  }

  /** Joining the split fields gives the line back. */
  lemma {:induction false} JoinSplit(s: seq<byte>, d: byte)
    ensures Join(Split(s, d), d) == s
    decreases |s|
  {
    if s != [] {
      var s' := s[..|s| - 1];
      var c := s[|s| - 1];
      var init := Split(s', d);
      JoinSplit(s', d);
      if c == d {
        assert (init + [[]])[..|init|] == init;
      } else {
        var fs := init[..|init| - 1] + [init[|init| - 1] + [c]];
        if |init| > 1 {
          assert fs[..|fs| - 1] == init[..|init| - 1];
          assert Join(init, d) == Join(init[..|init| - 1], d) + [d] + init[|init| - 1];
        }
      }
      assert s == s' + [c];
    }
  }

  /** Appending separator-free bytes extends the last field. */
  lemma {:induction false} SplitAppendFree(s: seq<byte>, f: seq<byte>, d: byte)
    requires d !in f
    ensures var fs := Split(s, d);
            Split(s + f, d) == fs[..|fs| - 1] + [fs[|fs| - 1] + f]
    decreases |f|
  {
    var fs := Split(s, d);
    if f == [] {
      assert s + f == s;
      assert fs[|fs| - 1] + f == fs[|fs| - 1];
      assert fs[..|fs| - 1] + [fs[|fs| - 1]] == fs;
    } else {
      var f' := f[..|f| - 1];
      var c := f[|f| - 1];
      SplitAppendFree(s, f', d);
      assert s + f == (s + f') + [c];
      assert c != d;
      SplitExtend(s + f', c, d);
      ExtendBy(fs, Split(s + f', d), f, Split(s + f, d));
    }
  }

  /** Extending the last field by f without its last byte, then by that byte, extends it by f. */
  lemma {:induction false} ExtendBy(fs: seq<seq<byte>>, gs: seq<seq<byte>>, f: seq<byte>, r: seq<seq<byte>>)
    requires |fs| >= 1 && f != []
    requires gs == fs[..|fs| - 1] + [fs[|fs| - 1] + f[..|f| - 1]]
    requires r == gs[..|gs| - 1] + [gs[|gs| - 1] + [f[|f| - 1]]]
    ensures r == fs[..|fs| - 1] + [fs[|fs| - 1] + f]
  {
    assert gs[..|gs| - 1] == fs[..|fs| - 1];
    assert f[..|f| - 1] + [f[|f| - 1]] == f;
    assert (fs[|fs| - 1] + f[..|f| - 1]) + [f[|f| - 1]] == fs[|fs| - 1] + f;
  }

  /** A byte other than the separator extends the last field. */
  lemma {:induction false} SplitExtend(x: seq<byte>, c: byte, d: byte)
    requires c != d
    ensures var gs := Split(x, d);
            Split(x + [c], d) == gs[..|gs| - 1] + [gs[|gs| - 1] + [c]]
  {
    assert (x + [c])[..|x|] == x;
  }

  /** Splitting a join of separator-free fields gives the fields back. */
  lemma {:induction false} SplitJoin(fs: seq<seq<byte>>, d: byte)
    requires |fs| >= 1
    requires forall k :: 0 <= k < |fs| ==> d !in fs[k]
    ensures Split(Join(fs, d), d) == fs
    decreases |fs|
  {
    var f := fs[|fs| - 1];
    if |fs| == 1 {
      SplitAppendFree([], f, d);
      assert [] + f == f;
      assert Split([], d) == [[]];
    } else {
      var init := fs[..|fs| - 1];
      SplitJoin(init, d);
      var x := Join(init, d);
      SplitSeparator(x, d);
      SplitAppendFree(x + [d], f, d);
      assert Join(fs, d) == x + [d] + f;
      AppendField(fs, init, f, Split(x + [d], d), Split(x + [d] + f, d));
    }
  }

  /** A separator at the end opens an empty field. */
  lemma SplitSeparator(x: seq<byte>, d: byte)
    ensures Split(x + [d], d) == Split(x, d) + [[]]
  {
    assert (x + [d])[..|x|] == x;
  }

  /** The fields before an empty last field, that field extended by f. */
  lemma AppendField(fs: seq<seq<byte>>, init: seq<seq<byte>>, f: seq<byte>, sj: seq<seq<byte>>, r: seq<seq<byte>>)
    requires |fs| >= 1 && init == fs[..|fs| - 1] && f == fs[|fs| - 1]
    requires sj == init + [[]] && r == sj[..|sj| - 1] + [sj[|sj| - 1] + f]
    ensures r == fs
  {
    assert sj[..|sj| - 1] == init;
    assert sj[|sj| - 1] + f == f;
  }

  // ---------------------------------------------------------------------------------------
  // Field views of the tokenized copy

  /** The C string at offset a ends at the first NUL from a on. */
  lemma {:induction false} ViewEndsAtNul(t: seq<byte>, a: nat, e: nat)
    requires a <= e < |t| && t[e] == NUL
    requires forall i :: a <= i < e ==> t[i] != NUL
    ensures View(t, a) == t[a..e]
  {
    var u := t[a..];
    assert u[e - a] == NUL;
    assert forall j :: 0 <= j < e - a ==> u[j] == t[a + j];
  }

  /** Away from the cut, the copy keeps every byte that is not a separator. */
  lemma {:induction false} CutCopyKeeps(s: seq<byte>, d: byte, c: nat, i: nat)
    requires NUL !in s
    requires c <= |s|
    requires i < c || c < i < |s|
    requires s[i] != d
    ensures CutCopy(s, d, c)[i] == s[i] && s[i] != NUL
  {
  }

  /** Field k other than the last reads the line between its start and the next separator,
      wherever the last field is cut. */
  lemma {:induction false} InnerFieldView(s: seq<byte>, d: byte, c: nat, k: nat)
    requires NUL !in s
    requires Starts(s, d)[Count(s, d)] <= c <= |s|
    requires k + 1 < Count(s, d) + 1
    ensures View(CutCopy(s, d, c), Starts(s, d)[k]) == s[Starts(s, d)[k]..FieldEnd(s, d, k)]
  {
    var st := Starts(s, d);
    var t := CutCopy(s, d, c);
    var a := st[k];
    var e := st[k + 1] as int - 1;
    InnerFieldBounds(s, d, c, k, st, a, e);
    forall i | a <= i < e ensures t[i] == s[i] && t[i] != NUL {
      CutCopyKeeps(s, d, c, i);
    }
    ViewEndsAtNul(t, a, e);
    SameSlice(t, s, a, e);
    assert FieldEnd(s, d, k) == e;
  }

  /** Field k other than the last ends at a separator before the cut, and holds none. */
  lemma InnerFieldBounds(s: seq<byte>, d: byte, c: nat, k: nat, st: seq<nat>, a: nat, e: int)
    requires st == Starts(s, d) && st[|st| - 1] <= c <= |s|
    requires k + 1 < |st| && a == st[k] && e + 1 == st[k + 1]
    ensures 0 <= a <= e < c && s[e] == d
    ensures forall i :: a <= i < e ==> s[i] != d
  {
    StartsFollowSeparators(s, d, st);
    StartsIncrease(s, d, st);
    NoSeparatorInsideField(s, d, st);
    StartsOrdered(st, k + 1, |st| - 1);
  }

  /** Two sequences that agree on [a, e) have the same slice there. */
  lemma SameSlice(t: seq<byte>, s: seq<byte>, a: nat, e: nat)
    requires a <= e <= |t| && e <= |s|
    requires forall i :: a <= i < e ==> t[i] == s[i]
    ensures t[a..e] == s[a..e]
  {
  }

  /** The last field reads the line from its start up to the cut. */
  lemma {:induction false} LastFieldView(s: seq<byte>, d: byte, c: nat)
    requires NUL !in s
    requires Starts(s, d)[Count(s, d)] <= c <= |s|
    ensures var last := Starts(s, d)[Count(s, d)];
            View(CutCopy(s, d, c), last) == s[last..c]
  {
    var st := Starts(s, d);
    var t := CutCopy(s, d, c);
    NoSeparatorInsideField(s, d, st);
    var last := st[|st| - 1];
    forall i | last <= i < c ensures t[i] == s[i] && t[i] != NUL {
      assert s[last..][i - last] == s[i];
      CutCopyKeeps(s, d, c, i);
    }
    ViewEndsAtNul(t, last, c);
    assert t[last..c] == s[last..c];
  }

  /** View k of a tokenized line is split field k, cut at its first CR or LF if it is the last. */
  lemma {:induction false} FieldView(s: seq<byte>, d: byte, k: nat)
    requires NUL !in s
    requires k < Count(s, d) + 1
    ensures View(TokenCopy(s, d), Starts(s, d)[k]) == StripLast(Split(s, d))[k]
  {
    if k + 1 < Count(s, d) + 1 {
      InnerFieldCut(s, d, k);
    } else {
      LastFieldCut(s, d, k);
    }
  }

  /** FieldView for a field before the last. */
  lemma InnerFieldCut(s: seq<byte>, d: byte, k: nat)
    requires NUL !in s
    requires k + 1 < Count(s, d) + 1
    ensures View(TokenCopy(s, d), Starts(s, d)[k]) == StripLast(Split(s, d))[k]
  {
    SplitField(s, d, k);
    InnerFieldView(s, d, Cut(s, d), k);
    StripKeeps(Split(s, d), k);
  }

  /** FieldView for the last field. */
  lemma LastFieldCut(s: seq<byte>, d: byte, k: nat)
    requires NUL !in s
    requires k == Count(s, d)
    ensures View(TokenCopy(s, d), Starts(s, d)[k]) == StripLast(Split(s, d))[k]
  {
    var fs := Split(s, d);
    var last := Starts(s, d)[k];
    var f := s[last..];
    SplitField(s, d, k);
    assert FieldEnd(s, d, k) == |s|;
    assert fs[k] == f;
    LastFieldView(s, d, Cut(s, d));
    assert TokenCopy(s, d) == CutCopy(s, d, Cut(s, d));
    TakeAfter(s, last, Strcspn(f));
    StripLastIs(fs, k);
  }

  /** The last field, cut at its first CR or LF. */
  lemma StripLastIs(fs: seq<seq<byte>>, k: nat)
    requires k + 1 == |fs|
    ensures StripLast(fs)[k] == fs[k][..Strcspn(fs[k])]
  {
  }

  /** Cutting the last field leaves the others as they are. */
  lemma StripKeeps(fs: seq<seq<byte>>, k: nat)
    requires k + 1 < |fs|
    ensures StripLast(fs)[k] == fs[k]
  {
  }

  /** The n bytes from offset a. */
  lemma TakeAfter(s: seq<byte>, a: nat, n: nat)
    requires a + n <= |s|
    ensures s[a..a + n] == s[a..][..n]
  {
  }

  /** The views of a tokenized line are its split fields, the last one cut at its first CR or
      LF, provided the line holds no NUL of its own. */
  lemma {:induction false} TokenizeFields(s: seq<byte>, d: byte)
    requires NUL !in s
    ensures Views(TokenCopy(s, d), Starts(s, d)) == StripLast(Split(s, d))
  {
    var st := Starts(s, d);
    var vs := Views(TokenCopy(s, d), st);
    forall k | 0 <= k < |st|
      ensures vs[k] == StripLast(Split(s, d))[k]
    {
      FieldView(s, d, k);
    }
  }

  /** Appending a terminator does not move the first CR, LF or NUL of a string. */
  lemma {:induction false} StrcspnStopsAtNul(u: seq<byte>)
    ensures Strcspn(u + [NUL]) == Strcspn(u)
    decreases |u|
  {
    var v := u + [NUL];
    if u != [] && u[0] != NUL && u[0] != CR && u[0] != LF {
      StrcspnStopsAtNul(u[1..]);
      assert v[1..] == u[1..] + [NUL];
    }
  }

  /** The separator rewrite followed by the terminator is the copy cut at the very end. */
  lemma {:induction false} RewriteCopy(s: seq<byte>, d: byte)
    ensures Rewrite(s, d) + [NUL] == CutCopy(s, d, |s|)
  {
  }

  /** Cutting the rewritten copy at its last field's first CR, LF or NUL gives the backing copy:
      the rewrite leaves the last field alone, so the cut falls where Cut says. */
  lemma {:induction false} StripRewritten(s: seq<byte>, d: byte)
    ensures var u := Rewrite(s, d) + [NUL];
            var last := Starts(s, d)[Count(s, d)];
            last + Strcspn(u[last..]) == Cut(s, d)
            && TokenCopy(s, d) == u[Cut(s, d) := NUL]
  {
    var u := Rewrite(s, d) + [NUL];
    var st := Starts(s, d);
    var last := st[Count(s, d)];
    NoSeparatorInsideField(s, d, st);
    assert u[last..] == s[last..] + [NUL];
    StrcspnStopsAtNul(s[last..]);
    CutRewritten(s, d, Cut(s, d));
  }

  /** The copy cut at c is the rewritten line, terminated, with NUL written at c. */
  lemma {:induction false} CutRewritten(s: seq<byte>, d: byte, c: nat)
    requires c <= |s|
    ensures CutCopy(s, d, c) == (Rewrite(s, d) + [NUL])[c := NUL]
  {
    var u := Rewrite(s, d) + [NUL];
    assert forall i :: 0 <= i < |s| ==> u[i] == Rewrite(s, d)[i];
  }

  /** Without the cut, the views of the rewritten line are exactly its split fields. */
  lemma {:induction false} UncutFields(s: seq<byte>, d: byte)
    requires NUL !in s
    ensures Views(CutCopy(s, d, |s|), Starts(s, d)) == Split(s, d)
  {
    var st := Starts(s, d);
    var vs := Views(CutCopy(s, d, |s|), st);
    forall k | 0 <= k < |st|
      ensures vs[k] == Split(s, d)[k]
    {
      UncutField(s, d, k);
    }
  }

  /** Without the cut, the view at start k of the rewritten line is field k. */
  lemma UncutField(s: seq<byte>, d: byte, k: nat)
    requires NUL !in s && k < Count(s, d) + 1
    ensures View(CutCopy(s, d, |s|), Starts(s, d)[k]) == Split(s, d)[k]
  {
    SplitField(s, d, k);
    if k + 1 < Count(s, d) + 1 {
      InnerFieldView(s, d, |s|, k);
    } else {
      assert k == Count(s, d) && FieldEnd(s, d, k) == |s|;
      LastFieldView(s, d, |s|);
    }
  }

  /** Starts that increase step by step increase over any distance. */
  lemma {:induction false} StartsOrdered(st: seq<nat>, a: nat, b: nat)
    requires a <= b < |st|
    requires forall k :: 0 < k < |st| ==> st[k - 1] < st[k]
    ensures st[a] <= st[b]
    decreases b - a
  {
    if a < b {
      StartsOrdered(st, a, b - 1);
    }
  }

  /** Cutting the last field drops exactly its tail from the joined line. */
  lemma {:induction false} JoinStripLast(fs: seq<seq<byte>>, d: byte)
    requires |fs| >= 1
    ensures var f := fs[|fs| - 1];
            Join(StripLast(fs), d) + f[Strcspn(f)..] == Join(fs, d)
  {
    var n := |fs|;
    var f := fs[n - 1];
    var m := Strcspn(f);
    var stripped := StripLast(fs);
    assert stripped == fs[..n - 1] + [f[..m]];
    if n == 1 {
      assert Join(stripped, d) + f[m..] == f[..m] + f[m..];
    } else {
      var init := fs[..n - 1];
      assert stripped[..n - 1] == init;
      assert Join(stripped, d) == Join(init, d) + [d] + f[..m];
      ReattachTail(Join(init, d) + [d], f, m);
    }
    assert f[..m] + f[m..] == f;
  }

  /** Cutting f at m and putting its tail back after a prefix x gives x + f. */
  lemma ReattachTail(x: seq<byte>, f: seq<byte>, m: nat)
    requires m <= |f|
    ensures x + f[..m] + f[m..] == x + f
  {
    assert f[..m] + f[m..] == f;
  }

  /** A join of fields none of which holds the separator or the byte x holds no x. */
  lemma {:induction false} JoinFree(fs: seq<seq<byte>>, d: byte, x: byte)
    requires |fs| >= 1 && x != d
    requires forall k :: 0 <= k < |fs| ==> x !in fs[k]
    ensures x !in Join(fs, d)
    decreases |fs|
  {
    if |fs| > 1 {
      JoinFree(fs[..|fs| - 1], d, x);
    }
  }

  /** A field free of CR, LF and NUL is not cut by a line ending after it. */
  lemma {:induction false} StrcspnBeforeEnding(f: seq<byte>, ending: seq<byte>)
    requires NUL !in f && CR !in f && LF !in f
    requires ending == [] || ending == [LF] || ending == [CR, LF]
    ensures Strcspn(f + ending) == |f|
  {
    assert forall j :: 0 <= j < |f| ==> (f + ending)[j] == f[j];
    assert |f| < |f + ending| ==> (f + ending)[|f|] == ending[0];
  }

  /** Tokenizing a join of fields free of the separator and of NUL, the last one also free of
      CR and LF, followed by an optional line ending, gives one field per part and the parts
      themselves. */
  lemma {:induction false} TokenizeJoin(fs: seq<seq<byte>>, ending: seq<byte>, d: byte)
    requires |fs| >= 1 && d != NUL && d != CR && d != LF
    requires forall k :: 0 <= k < |fs| ==> d !in fs[k] && NUL !in fs[k]
    requires CR !in fs[|fs| - 1] && LF !in fs[|fs| - 1]
    requires ending == [] || ending == [LF] || ending == [CR, LF]
    ensures var s := Join(fs, d) + ending;
            Count(s, d) + 1 == |fs| && Views(TokenCopy(s, d), Starts(s, d)) == fs
  {
    var j := Join(fs, d);
    var s := j + ending;
    JoinFree(fs, d, NUL);
    SplitJoin(fs, d);
    SplitAppendFree(j, ending, d);
    TokenizeFields(s, d);
    StripEnding(fs, ending);
  }

  /** Cutting the last field at its line ending removes exactly that ending. */
  lemma {:induction false} StripEnding(fs: seq<seq<byte>>, ending: seq<byte>)
    requires |fs| >= 1
    requires NUL !in fs[|fs| - 1] && CR !in fs[|fs| - 1] && LF !in fs[|fs| - 1]
    requires ending == [] || ending == [LF] || ending == [CR, LF]
    ensures StripLast(fs[..|fs| - 1] + [fs[|fs| - 1] + ending]) == fs
  {
    var f := fs[|fs| - 1];
    StrcspnBeforeEnding(f, ending);
    assert (f + ending)[..|f|] == f;
  }

  /** Joining the views of a tokenized line gives the line back up to the cut of the last
      field; what was dropped starts with CR or LF. */
  lemma {:induction false} RowRoundTrip(s: seq<byte>, d: byte)
    requires NUL !in s
    ensures Join(Views(TokenCopy(s, d), Starts(s, d)), d) + s[Cut(s, d)..] == s
    ensures Cut(s, d) < |s| ==> s[Cut(s, d)] == CR || s[Cut(s, d)] == LF
  {
    TokenizeFields(s, d);
    var fs := Split(s, d);
    var n := |fs|;
    var last := Starts(s, d)[n - 1];
    SplitField(s, d, n - 1);
    JoinSplit(s, d);
    JoinStripLast(fs, d);
    assert fs[n - 1] == s[last..];
    assert fs[n - 1][Strcspn(fs[n - 1])..] == s[Cut(s, d)..];
    if Cut(s, d) < |s| {
      assert s[Cut(s, d)] == s[last..][Strcspn(s[last..])];
    }
  }

  /** A row's last field starts inside its text, not inside its line ending. */
  lemma {:induction false} LastStartInText(t: seq<byte>, ending: seq<byte>, d: byte)
    requires ending == [] || ending == [LF] || ending == [CR, LF]
    requires d != CR && d != LF
    ensures Starts(t + ending, d)[Count(t + ending, d)] <= |t|
  {
    var s := t + ending;
    var st := Starts(s, d);
    StartsFollowSeparators(s, d, st);
    assert forall i :: |t| <= i < |s| ==> s[i] != d;
  }

  /** The last field of a row is cut exactly where its line ending begins. */
  lemma {:induction false} CutAtEnding(t: seq<byte>, ending: seq<byte>, d: byte)
    requires NUL !in t && CR !in t && LF !in t
    requires ending == [] || ending == [LF] || ending == [CR, LF]
    requires d != CR && d != LF
    ensures Cut(t + ending, d) == |t|
  {
    var s := t + ending;
    var last := Starts(s, d)[Count(s, d)];
    LastStartInText(t, ending, d);
    var u := s[last..];
    assert forall i :: 0 <= i < |t| - last ==> u[i] == t[last + i];
    assert |t| - last < |u| ==> u[|t| - last] == ending[0];
  }

  /** A line ending in LF, in CR LF or in nothing comes back without its ending when the
      fields of its row are joined. */
  lemma {:induction false} LineEndingRoundTrip(t: seq<byte>, ending: seq<byte>, d: byte)
    requires NUL !in t && CR !in t && LF !in t
    requires ending == [] || ending == [LF] || ending == [CR, LF]
    requires d != CR && d != LF && d != NUL
    ensures Join(Views(TokenCopy(t + ending, d), Starts(t + ending, d)), d) == t
  {
    var s := t + ending;
    assert NUL !in s;
    RowRoundTrip(s, d);
    CutAtEnding(t, ending, d);
    assert s[..|t|] == t;
  }
}
