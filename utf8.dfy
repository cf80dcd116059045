/** Bytes, the lead-byte width table shared by the lexer and the decoder, and
    well-formed UTF-8 as section 4 of RFC 3629 defines it. */
module Utf8 {

  /** An unsigned 8-bit integer (Rust `u8`). */
  newtype u8 = x: int | 0 <= x < 256

  const LF: u8 := 0x0A
  const TAB: u8 := 0x09
  const CR: u8 := 0x0D
  const SPACE: u8 := 0x20

  /** The 256-entry lead-byte width table (`UTF8_CHAR_WIDTH`), row by row
      (row `X` holds the bytes 0xX0-0xXF): the number of bytes of the UTF-8
      sequence a byte starts, 0 for a byte that cannot start one. */
  const ROW_0: seq<nat> := [1, 1, 1, 1, 1, 1, 1, 1, 1, 1, 1, 1, 1, 1, 1, 1]
  const ROW_1: seq<nat> := [1, 1, 1, 1, 1, 1, 1, 1, 1, 1, 1, 1, 1, 1, 1, 1]
  const ROW_2: seq<nat> := [1, 1, 1, 1, 1, 1, 1, 1, 1, 1, 1, 1, 1, 1, 1, 1]
  const ROW_3: seq<nat> := [1, 1, 1, 1, 1, 1, 1, 1, 1, 1, 1, 1, 1, 1, 1, 1]
  const ROW_4: seq<nat> := [1, 1, 1, 1, 1, 1, 1, 1, 1, 1, 1, 1, 1, 1, 1, 1]
  const ROW_5: seq<nat> := [1, 1, 1, 1, 1, 1, 1, 1, 1, 1, 1, 1, 1, 1, 1, 1]
  const ROW_6: seq<nat> := [1, 1, 1, 1, 1, 1, 1, 1, 1, 1, 1, 1, 1, 1, 1, 1]
  const ROW_7: seq<nat> := [1, 1, 1, 1, 1, 1, 1, 1, 1, 1, 1, 1, 1, 1, 1, 1]
  const ROW_8: seq<nat> := [0, 0, 0, 0, 0, 0, 0, 0, 0, 0, 0, 0, 0, 0, 0, 0]
  const ROW_9: seq<nat> := [0, 0, 0, 0, 0, 0, 0, 0, 0, 0, 0, 0, 0, 0, 0, 0]
  const ROW_A: seq<nat> := [0, 0, 0, 0, 0, 0, 0, 0, 0, 0, 0, 0, 0, 0, 0, 0]
  const ROW_B: seq<nat> := [0, 0, 0, 0, 0, 0, 0, 0, 0, 0, 0, 0, 0, 0, 0, 0]
  const ROW_C: seq<nat> := [0, 0, 2, 2, 2, 2, 2, 2, 2, 2, 2, 2, 2, 2, 2, 2]
  const ROW_D: seq<nat> := [2, 2, 2, 2, 2, 2, 2, 2, 2, 2, 2, 2, 2, 2, 2, 2]
  const ROW_E: seq<nat> := [3, 3, 3, 3, 3, 3, 3, 3, 3, 3, 3, 3, 3, 3, 3, 3]
  const ROW_F: seq<nat> := [4, 4, 4, 4, 4, 0, 0, 0, 0, 0, 0, 0, 0, 0, 0, 0]

  const ROWS: seq<seq<nat>> := [
    ROW_0, ROW_1, ROW_2, ROW_3, ROW_4, ROW_5, ROW_6, ROW_7,
    ROW_8, ROW_9, ROW_A, ROW_B, ROW_C, ROW_D, ROW_E, ROW_F
  ]

  const UTF8_CHAR_WIDTH: seq<nat> := Flatten(ROWS)

  function Flatten(rows: seq<seq<nat>>): seq<nat> {
    if rows == [] then [] else rows[0] + Flatten(rows[1..])
  }

  lemma RowsAreSixteenWide()
    ensures forall i | 0 <= i < |ROWS| :: |ROWS[i]| == 16
  {
  }

  /** The value of each table entry, row by row. */
  lemma RowValue(r: nat, c: nat)
    requires r < 16 && c < 16
    ensures r < 8 ==> ROWS[r][c] == 1
    ensures 8 <= r < 12 ==> ROWS[r][c] == 0
    ensures r == 12 ==> ROWS[r][c] == (if c < 2 then 0 else 2)
    ensures r == 13 ==> ROWS[r][c] == 2
    ensures r == 14 ==> ROWS[r][c] == 3
    ensures r == 15 ==> ROWS[r][c] == (if c < 5 then 4 else 0)
  {
    if r == 0 { assert ROWS[r] == ROW_0; }
    else if r == 1 { assert ROWS[r] == ROW_1; }
    else if r == 2 { assert ROWS[r] == ROW_2; }
    else if r == 3 { assert ROWS[r] == ROW_3; }
    else if r == 4 { assert ROWS[r] == ROW_4; }
    else if r == 5 { assert ROWS[r] == ROW_5; }
    else if r == 6 { assert ROWS[r] == ROW_6; }
    else if r == 7 { assert ROWS[r] == ROW_7; }
    else if r == 8 { assert ROWS[r] == ROW_8; }
    else if r == 9 { assert ROWS[r] == ROW_9; }
    else if r == 10 { assert ROWS[r] == ROW_A; }
    else if r == 11 { assert ROWS[r] == ROW_B; }
    else if r == 12 { assert ROWS[r] == ROW_C; }
    else if r == 13 { assert ROWS[r] == ROW_D; }
    else if r == 14 { assert ROWS[r] == ROW_E; }
    else { assert ROWS[r] == ROW_F; }
  }

  /** Entry `c` of row `r` is entry `16 * r + c` of the flattened table. */
  lemma {:induction false} FlattenIndex(rows: seq<seq<nat>>, r: nat, c: nat)
    requires forall i | 0 <= i < |rows| :: |rows[i]| == 16
    requires r < |rows| && c < 16
    ensures |Flatten(rows)| == 16 * |rows|
    ensures Flatten(rows)[16 * r + c] == rows[r][c]
  {
    if r == 0 {
      FlattenLength(rows[1..]);
    } else {
      FlattenIndex(rows[1..], r - 1, c);
    }
  }

  lemma {:induction false} FlattenLength(rows: seq<seq<nat>>)
    requires forall i | 0 <= i < |rows| :: |rows[i]| == 16
    ensures |Flatten(rows)| == 16 * |rows|
  {
    if rows != [] {
      FlattenLength(rows[1..]);
    }
  }

  /** The width `UTF8_CHAR_WIDTH` gives a lead byte, by range: the lead-byte
      ranges of section 4 of RFC 3629 (UTF8-1 = 00-7F, UTF8-2 = C2-DF,
      UTF8-3 = E0-EF, UTF8-4 = F0-F4), and 0 for every other byte. */
  function Width(b: u8): nat {
    if b <= 0x7F then 1
    else if 0xC2 <= b <= 0xDF then 2
    else if 0xE0 <= b <= 0xEF then 3
    else if 0xF0 <= b <= 0xF4 then 4
    else 0
  }

  lemma TableLength()
    ensures |UTF8_CHAR_WIDTH| == 256
  {
    RowsAreSixteenWide();
    FlattenLength(ROWS);
  }

  /** Every entry of the 256-entry table is the width of its lead byte's
      range. */
  lemma TableIsWidth(b: u8)
    ensures |UTF8_CHAR_WIDTH| == 256
    ensures UTF8_CHAR_WIDTH[b as int] == Width(b)
  {
    TableLength();
    var r, c := b as int / 16, b as int % 16;
    RowsAreSixteenWide();
    FlattenIndex(ROWS, r, c);
    assert b as int == 16 * r + c;
    assert UTF8_CHAR_WIDTH[b as int] == ROWS[r][c];
    if r < 8 {
      assert ROWS[r][c] == 1 by { RowValue(r, c); }
    } else {
      RowValue(r, c);
    }
  }

  // ---------------------------------------------------------------------
  // Walking a byte string one character at a time by lead-byte width.

  /** Walking `src` from `i` by table widths lands exactly on `j`: the bytes
      `src[i..j]` are a whole number of characters as the table measures
      them. */
  predicate Aligned(src: seq<u8>, i: nat, j: nat)
    requires i <= j <= |src|
    decreases j - i
  {
    i == j || (1 <= Width(src[i]) && i + Width(src[i]) <= j && Aligned(src, i + Width(src[i]), j))
  }

  /** The number of one-byte newline characters met on that walk. */
  function NewlineChars(src: seq<u8>, i: nat, j: nat): nat
    requires i <= j <= |src| && Aligned(src, i, j)
    decreases j - i
  {
    if i == j then 0
    else (if src[i] == LF then 1 else 0) + NewlineChars(src, i + Width(src[i]), j)
  }

  /** The number of characters on that walk. */
  function CharCount(src: seq<u8>, i: nat, j: nat): nat
    requires i <= j <= |src| && Aligned(src, i, j)
    decreases j - i
  {
    if i == j then 0 else 1 + CharCount(src, i + Width(src[i]), j)
  }

  /** Walking `src` from `p` never meets a byte of width 0 before it reaches
      the end of `src` or a character that runs past it. */
  predicate Walkable(src: seq<u8>, p: nat)
    decreases |src| - p
  {
    p >= |src|
    || (Width(src[p]) != 0
        && (p + Width(src[p]) > |src| || Walkable(src, p + Width(src[p]))))
  }

  /** Extending an aligned range by one whole character keeps it aligned and
      adds that character to both counts. */
  lemma {:induction false} AlignedAppend(src: seq<u8>, i: nat, j: nat)
    requires i <= j < |src|
    requires Aligned(src, i, j)
    requires 1 <= Width(src[j]) && j + Width(src[j]) <= |src|
    ensures Aligned(src, i, j + Width(src[j]))
    ensures NewlineChars(src, i, j + Width(src[j])) == NewlineChars(src, i, j) + (if src[j] == LF then 1 else 0)
    ensures CharCount(src, i, j + Width(src[j])) == CharCount(src, i, j) + 1
    decreases j - i
  {
    if i < j {
      AlignedAppend(src, i + Width(src[i]), j);
    }
  }

  /** Walkability survives walking over a whole number of characters. */
  lemma {:induction false} WalkableAfter(src: seq<u8>, p: nat, q: nat)
    requires p <= q <= |src|
    requires Walkable(src, p) && Aligned(src, p, q)
    ensures Walkable(src, q)
    decreases q - p
  {
    if p < q {
      WalkableAfter(src, p + Width(src[p]), q);
    }
  }

  // ---------------------------------------------------------------------
  // Well-formed UTF-8 (RFC 3629, section 4).

  /** UTF8-tail = %x80-BF */
  predicate IsTail(b: u8) {
    0x80 <= b <= 0xBF
  }

  /** `s` is exactly one UTF8-char: a lead byte of the width `|s|` followed
      by tails, with the narrower second-byte ranges of E0, ED, F0 and F4. */
  predicate ValidChar(s: seq<u8>) {
    && |s| >= 1
    && Width(s[0]) == |s|
    && (|s| >= 2 ==> (
          if s[0] == 0xE0 then 0xA0 <= s[1] <= 0xBF
          else if s[0] == 0xED then 0x80 <= s[1] <= 0x9F
          else if s[0] == 0xF0 then 0x90 <= s[1] <= 0xBF
          else if s[0] == 0xF4 then 0x80 <= s[1] <= 0x8F
          else IsTail(s[1])))
    && (|s| >= 3 ==> IsTail(s[2]))
    && (|s| >= 4 ==> IsTail(s[3]))
  }

  /** `s` is a sequence of UTF8-chars (what Rust's `str::from_utf8` accepts). */
  predicate ValidUtf8(s: seq<u8>)
    decreases |s|
  {
    |s| == 0
    || (1 <= Width(s[0]) <= |s| && ValidChar(s[..Width(s[0])]) && ValidUtf8(s[Width(s[0])..]))
  }

  /** Well-formedness of `src[p..]`, walked on positions of `src`. */
  predicate ValidFrom(src: seq<u8>, p: nat)
    requires p <= |src|
    decreases |src| - p
  {
    p == |src|
    || (&& 1 <= Width(src[p])
        && p + Width(src[p]) <= |src|
        && ValidChar(src[p..p + Width(src[p])])
        && ValidFrom(src, p + Width(src[p])))
  }

  /** `ValidFrom` is `ValidUtf8` of the suffix. */
  lemma {:induction false} ValidFromIsValidUtf8(src: seq<u8>, p: nat)
    requires p <= |src|
    ensures ValidFrom(src, p) <==> ValidUtf8(src[p..])
    decreases |src| - p
  {
    if p < |src| {
      var w := Width(src[p]);
      assert src[p..][0] == src[p];
      if 1 <= w && p + w <= |src| {
        assert src[p..][w..] == src[p + w..];
        assert src[p..][..w] == src[p..p + w];
        ValidFromIsValidUtf8(src, p + w);
      }
    }
  }

  /** The first character of well-formed text is a whole UTF8-char, its
      bytes after the lead byte are tails, and the text after it is well-formed
      again. */
  lemma ValidStep(src: seq<u8>, p: nat)
    requires p < |src| && ValidFrom(src, p)
    ensures 1 <= Width(src[p]) && p + Width(src[p]) <= |src|
    ensures ValidChar(src[p..p + Width(src[p])])
    ensures forall k :: p < k < p + Width(src[p]) ==> IsTail(src[k])
    ensures ValidFrom(src, p + Width(src[p]))
  {
    var w := Width(src[p]);
    forall k | p < k < p + w
      ensures IsTail(src[k])
    {
      assert src[p..p + w][k - p] == src[k];
    }
  }

  /** A UTF8-char holds a newline byte only if it is the one-byte newline. */
  lemma CharNewlines(s: seq<u8>)
    requires ValidChar(s)
    ensures multiset(s)[LF] == if s[0] == LF then 1 else 0
  {
    if |s| == 1 {
      assert s == [s[0]];
    } else {
      assert s == [s[0]] + s[1..];
      assert LF !in s[1..] by {
        forall k | 1 <= k < |s| ensures s[k] != LF {
          assert IsTail(s[k]);
        }
      }
    }
  }

  /** In well-formed UTF-8 every newline byte is a one-byte character of its
      own, so the character walk counts them all. */
  lemma {:induction false} ValidNewlines(src: seq<u8>, i: nat, j: nat)
    requires i <= j <= |src|
    requires ValidFrom(src, i) && Aligned(src, i, j)
    ensures NewlineChars(src, i, j) == multiset(src[i..j])[LF]
    decreases j - i
  {
    if i < j {
      var w := Width(src[i]);
      ValidNewlines(src, i + w, j);
      assert src[i..j] == src[i..i + w] + src[i + w..j];
      CharNewlines(src[i..i + w]);
    }
  }

  /** A whole number of characters of well-formed text is well-formed on
      its own. */
  lemma {:induction false} ValidPrefix(src: seq<u8>, i: nat, j: nat)
    requires i <= j <= |src|
    requires ValidFrom(src, i) && Aligned(src, i, j)
    ensures ValidUtf8(src[i..j])
    decreases j - i
  {
    if i < j {
      var w := Width(src[i]);
      ValidPrefix(src, i + w, j);
      assert src[i..j][0] == src[i];
      assert src[i..j][..w] == src[i..i + w];
      assert src[i..j][w..] == src[i + w..j];
    }
  }

  /** A well-formed string can be walked from its start. */
  lemma {:induction false} ValidWalkable(src: seq<u8>, p: nat)
    requires p <= |src| && ValidFrom(src, p)
    ensures Walkable(src, p)
    decreases |src| - p
  {
    if p < |src| {
      ValidWalkable(src, p + Width(src[p]));
    }
  }

  /** Well-formedness survives walking over a whole number of characters. */
  lemma {:induction false} ValidAfter(src: seq<u8>, p: nat, q: nat)
    requires p <= q <= |src|
    requires ValidFrom(src, p) && Aligned(src, p, q)
    ensures ValidFrom(src, q)
    decreases q - p
  {
    if p < q {
      ValidAfter(src, p + Width(src[p]), q);
    }
  }

  /** Text made of ASCII bytes is well-formed from any position. */
  lemma {:induction false} AsciiValid(src: seq<u8>, p: nat)
    requires p <= |src|
    requires forall k :: p <= k < |src| ==> src[k] < 0x80
    ensures ValidFrom(src, p)
    decreases |src| - p
  {
    if p < |src| {
      AsciiValid(src, p + 1);
      assert ValidChar(src[p..p + 1]);
    }
  }
}
