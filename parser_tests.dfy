/** The lexer tests of the GunnyScript parser restated as lemmas about
    `NextSpec`, from general facts about ASCII text: whitespace, a `//`
    line comment and a block comment yield nothing, a `///` docstring yields
    its line, and a stray character is `UnexpectedChar`. */
module ParserTests {
  import opened Utf8
  import opened Wrappers
  import opened Parser

  /** The emoji case of the `unexpected_char` test: the first call of
      `next` fails with `UnexpectedChar` on line 1. */
  lemma UnexpectedEmojiTest()
    ensures var e: seq<u8> := [0xF0, 0x9F, 0x98, 0x82];
      ValidFrom(e, 0) && NextSpec(e, 0, START_LINE).item == Some(Failure(Located(1, UnexpectedChar)))
  {
    var e: seq<u8> := [0xF0, 0x9F, 0x98, 0x82];
    assert ValidFrom(e, 4);
    assert ValidChar(e[0..4]);
    assert ValidFrom(e, 0);
    PeekOne(e, 0, 1);
  }

  /** The `$` case of the `unexpected_char` test. */
  lemma UnexpectedDollarTest()
    ensures ValidFrom([0x24], 0) && NextSpec([0x24], 0, START_LINE).item == Some(Failure(Located(1, UnexpectedChar)))
  {
    var d: seq<u8> := [0x24];
    AsciiValid(d, 0);
    PeekOne(d, 0, 1);
  }

  /** The `   $` case of the `unexpected_char` test: the blanks are
      skipped and the `$` fails on line 1. */
  lemma UnexpectedAfterBlanksTest()
    ensures var s: seq<u8> := [SPACE, SPACE, SPACE, 0x24];
      ValidFrom(s, 0) && NextSpec(s, 0, START_LINE).item == Some(Failure(Located(1, UnexpectedChar)))
  {
    var s: seq<u8> := [SPACE, SPACE, SPACE, 0x24];
    AsciiValid(s, 0);
    BlankRound(s, 0, 1);
    BlankRound(s, 1, 1);
    BlankRound(s, 2, 1);
    PeekOne(s, 3, 1);
    assert NextSpec(s, 2, 1) == NextSpec(s, 3, 1);
    assert NextSpec(s, 1, 1) == NextSpec(s, 2, 1);
    assert NextSpec(s, 0, 1) == NextSpec(s, 1, 1);
  }

  /** The `comment_and_whitespace_lexing` cases made only of whitespace:
      `next` ends the iteration at once. */
  lemma WhitespaceTest()
    ensures ValidFrom([SPACE], 0) && NextSpec([SPACE], 0, START_LINE).item == None
    ensures ValidFrom([CR], 0) && NextSpec([CR], 0, START_LINE).item == None
    ensures var s: seq<u8> := [SPACE, TAB, CR];
      ValidFrom(s, 0) && NextSpec(s, 0, START_LINE).item == None
  {
    var a: seq<u8> := [SPACE];
    assert ValidFrom(a, 1);
    assert ValidChar(a[0..1]);
    assert ValidFrom(a, 0);
    PeekOne(a, 0, 1);
    var b: seq<u8> := [CR];
    assert ValidFrom(b, 1);
    assert ValidChar(b[0..1]);
    assert ValidFrom(b, 0);
    PeekOne(b, 0, 1);
    var s: seq<u8> := [SPACE, TAB, CR];
    assert ValidFrom(s, 3);
    assert ValidChar(s[2..3]);
    assert ValidFrom(s, 2);
    assert ValidChar(s[1..2]);
    assert ValidFrom(s, 1);
    assert ValidChar(s[0..1]);
    assert ValidFrom(s, 0);
    PeekOne(s, 0, 1);
    PeekOne(s, 1, 1);
    PeekOne(s, 2, 1);
    assert NextSpec(s, 2, 1) == NextSpec(s, 3, 1);
    assert NextSpec(s, 1, 1) == NextSpec(s, 2, 1);
    assert NextSpec(s, 0, 1) == NextSpec(s, 1, 1);
  }

  /** An unbounded peek up to a newline over ASCII text without a newline
      takes all the rest of the input. */
  lemma {:induction false} PeekToEndOfLine(src: seq<u8>, startLine: nat, pos: nat, lines: nat, chars: nat, buf: seq<u8>)
    requires pos <= |src|
    requires forall k :: pos <= k < |src| ==> src[k] < 0x80 && src[k] != LF
    requires |buf| == 1
    ensures Walkable(src, pos)
    ensures PeekLoop(src, -1, startLine, [LF], pos, lines, chars, buf) == Ok(Scan(|src|, lines))
    decreases |src| - pos
  {
    if pos < |src| {
      assert src[pos..pos + 1] == [src[pos]];
      assert PushedAsWritten(buf, [src[pos]]) == [src[pos]];
      PeekToEndOfLine(src, startLine, pos + 1, lines, chars + 1, [src[pos]]);
      PeekLoopStep(src, -1, startLine, [LF], pos, lines, chars, buf);
    } else {
      PeekLoopDone(src, -1, startLine, [LF], pos, lines, chars, buf);
    }
  }

  /** The number of newline bytes in `s`. */
  function LfCount(s: seq<u8>): nat {
    if |s| == 0 then 0 else (if s[0] == LF then 1 else 0) + LfCount(s[1..])
  }

  /** No newline byte in `src[i..j]` means a count of zero. */
  lemma {:induction false} NoNewlines(src: seq<u8>, i: nat, j: nat)
    requires i <= j <= |src|
    requires forall k :: i <= k < j ==> src[k] != LF
    ensures LfCount(src[i..j]) == 0
    decreases j - i
  {
    if i < j {
      assert src[i..j][1..] == src[i + 1..j];
      NoNewlines(src, i + 1, j);
    }
  }

  /** A peek of at most `len` characters with no `until` over ASCII text
      takes `len` bytes, or all that is left, counting their newlines. */
  lemma {:induction false} PeekAscii(src: seq<u8>, len: nat, startLine: nat, pos: nat, lines: nat, chars: nat)
    requires pos <= |src| && chars <= len
    requires forall k :: pos <= k < |src| ==> src[k] < 0x80
    ensures var e := if pos + (len - chars) <= |src| then pos + (len - chars) else |src|;
      PeekLoop(src, len, startLine, [], pos, lines, chars, []) == Ok(Scan(e, lines + LfCount(src[pos..e])))
    decreases len - chars
  {
    if pos < |src| && chars < len {
      var e := if pos + (len - chars) <= |src| then pos + (len - chars) else |src|;
      assert src[pos..e][1..] == src[pos + 1..e];
      PeekAscii(src, len, startLine, pos + 1, if src[pos] == LF then lines + 1 else lines, chars + 1);
      PeekLoopStep(src, len, startLine, [], pos, lines, chars, []);
    } else {
      PeekLoopDone(src, len, startLine, [], pos, lines, chars, []);
    }
  }

  /** The three-character look-ahead of `try_parse_comment_or_docstring`
      over ASCII text without newlines. */
  lemma PeekThree(c: seq<u8>, line: nat)
    requires forall k :: 0 <= k < |c| ==> c[k] < 0x80 && c[k] != LF
    ensures var e := if |c| < 3 then |c| else 3;
      PeekSpec(c, 0, 3, line, []) == Ok(Peek(c[0..e], 0, 0))
  {
    var e := if |c| < 3 then |c| else 3;
    PeekAscii(c, 3, line, 0, 0, 0);
    NoNewlines(c, 0, e);
  }

  /** A round of `next` on a `/` hands over to
      `try_parse_comment_or_docstring`: a skipped comment carries on, a
      docstring line stops with that token. */
  lemma SlashRound(src: seq<u8>, pos: nat, line: nat)
    requires pos < |src| && ValidFrom(src, pos) && src[pos] == SLASH
    ensures var c := CommentSpec(src, pos, line);
      && (c.result == Ok(None) ==> NextRound(src, pos, line) == Carry(c.pos, c.line))
      && (c.result.Ok? && c.result.value.Some? ==>
            NextRound(src, pos, line) == Stop(LexStep(Some(Tok(c.result.value.value)), c.pos, c.line)))
  {
    ValidStep(src, pos);
    PeekOne(src, pos, line);
    assert src[pos..pos + 1] == [SLASH];
  }

  /** A `//` line comment running to the end of ASCII input without a
      newline is skipped, and the iteration ends. */
  lemma LineCommentSkipped(c: seq<u8>)
    requires |c| >= 2 && c[0] == SLASH && c[1] == SLASH && (|c| >= 3 ==> c[2] != SLASH)
    requires forall k :: 0 <= k < |c| ==> c[k] < 0x80 && c[k] != LF
    ensures ValidFrom(c, 0) && NextSpec(c, 0, START_LINE).item == None
  {
    AsciiValid(c, 0);
    LineCommentOutcome(c);
    SlashRound(c, 0, 1);
  }

  lemma LineCommentOutcome(c: seq<u8>)
    requires |c| >= 2 && c[0] == SLASH && c[1] == SLASH && (|c| >= 3 ==> c[2] != SLASH)
    requires forall k :: 0 <= k < |c| ==> c[k] < 0x80 && c[k] != LF
    ensures ValidFrom(c, 0) && CommentSpec(c, 0, 1) == CommentOutcome(Ok(None), |c|, 1)
  {
    AsciiValid(c, 0);
    PeekThree(c, 1);
    LineCommentBranch(c);
    SkipToEnd(c);
  }

  /** Input starting with `//` but not `///` takes the line-comment branch. */
  lemma LineCommentBranch(c: seq<u8>)
    requires |c| >= 2 && c[0] == SLASH && c[1] == SLASH && (|c| >= 3 ==> c[2] != SLASH)
    requires ValidFrom(c, 0)
    requires PeekSpec(c, 0, 3, 1, []) == Ok(Peek(c[0..if |c| < 3 then |c| else 3], 0, 0))
    ensures CommentSpec(c, 0, 1) == SkipSpec(c, 0, 1, [LF])
  {
    var e := if |c| < 3 then |c| else 3;
    var p := Peek(c[0..e], 0, 0);
    assert !HasPrefix(p.slice, [SLASH, SLASH, SLASH]) && !HasPrefix(p.slice, [SLASH, STAR]) && HasPrefix(p.slice, [SLASH, SLASH]) by {
      assert p.slice[1] == SLASH;
      assert e == 3 ==> p.slice[2] == c[2];
    }
    CommentCases(c, 0, 1, p);
  }

  /** Skipping up to a newline over ASCII text without one commits all of
      it. */
  lemma SkipToEnd(c: seq<u8>)
    requires |c| >= 1
    requires forall k :: 0 <= k < |c| ==> c[k] < 0x80 && c[k] != LF
    ensures ValidFrom(c, 0) && SkipSpec(c, 0, 1, [LF]) == CommentOutcome(Ok(None), |c|, 1)
  {
    AsciiValid(c, 0);
    PeekToEndOfLine(c, 1, 0, 0, 0, Zeros(1));
    assert c[0..|c|] == c;
  }

  /** A `///` docstring running to the end of ASCII input without a
      newline is one docstring line holding the text after `///`; the next
      call ends the iteration. */
  lemma DocstringLexed(d: seq<u8>)
    requires |d| >= 3 && d[0] == SLASH && d[1] == SLASH && d[2] == SLASH
    requires forall k :: 0 <= k < |d| ==> d[k] < 0x80 && d[k] != LF
    ensures && ValidFrom(d, 0)
            && NextSpec(d, 0, START_LINE) == LexStep(Some(Tok(DocstringLine(d[3..]))), |d|, START_LINE)
            && NextSpec(d, |d|, START_LINE).item == None
  {
    AsciiValid(d, 0);
    PeekThree(d, 1);
    DocstringBranch(d);
    DocstringToEnd(d);
    SlashRound(d, 0, 1);
  }

  /** Input starting with `///` takes the docstring branch after the
      `///`. */
  lemma DocstringBranch(d: seq<u8>)
    requires |d| >= 3 && d[0] == SLASH && d[1] == SLASH && d[2] == SLASH
    requires ValidFrom(d, 0)
    requires PeekSpec(d, 0, 3, 1, []) == Ok(Peek(d[0..3], 0, 0))
    ensures ValidFrom(d, 3) && CommentSpec(d, 0, 1) == DocstringSpec(d, 3, 1)
  {
    var p := Peek(d[0..3], 0, 0);
    assert HasPrefix(p.slice, [SLASH, SLASH, SLASH]);
    CommentCases(d, 0, 1, p);
  }

  /** The rest of a docstring line that runs to the end of ASCII input. */
  lemma DocstringToEnd(d: seq<u8>)
    requires |d| >= 3
    requires forall k :: 0 <= k < |d| ==> d[k] < 0x80 && d[k] != LF
    ensures ValidFrom(d, 3) && DocstringSpec(d, 3, 1) == CommentOutcome(Ok(Some(DocstringLine(d[3..]))), |d|, 1)
  {
    PeekToEndOfLine(d, 1, 3, 0, 0, Zeros(1));
    assert d[3..|d|] == d[3..];
    AsciiValid(d, 3);
    ValidFromIsValidUtf8(d, 3);
  }

  /** The line-comment case of `comment_and_whitespace_lexing`:
      `// A comment` yields nothing. */
  lemma LineCommentTest()
    ensures var s: seq<u8> := [SLASH, SLASH, SPACE, 0x41, SPACE, 0x63, 0x6F, 0x6D, 0x6D, 0x65, 0x6E, 0x74];
      ValidFrom(s, 0) && NextSpec(s, 0, START_LINE).item == None
  {
    LineCommentSkipped([SLASH, SLASH, SPACE, 0x41, SPACE, 0x63, 0x6F, 0x6D, 0x6D, 0x65, 0x6E, 0x74]);
  }

  /** The docstring case of `comment_and_whitespace_lexing`:
      `/// Docstring` yields the one docstring line ` Docstring`. */
  lemma DocstringTest()
    ensures var s: seq<u8> := [SLASH, SLASH, SLASH, SPACE, 0x44, 0x6F, 0x63, 0x73, 0x74, 0x72, 0x69, 0x6E, 0x67];
      && ValidFrom(s, 0)
      && NextSpec(s, 0, START_LINE) == LexStep(Some(Tok(DocstringLine([SPACE] + s[4..]))), |s|, START_LINE)
      && NextSpec(s, |s|, START_LINE).item == None
  {
    var s: seq<u8> := [SLASH, SLASH, SLASH, SPACE, 0x44, 0x6F, 0x63, 0x73, 0x74, 0x72, 0x69, 0x6E, 0x67];
    DocstringLexed(s);
    assert s[3..] == [SPACE] + s[4..];
  }

  /** One step of an unbounded peek up to the block-comment terminator
      `[STAR, SLASH]` over an ASCII byte. */
  lemma CommentEndStep(src: seq<u8>, startLine: nat, pos: nat, lines: nat, chars: nat, buf: seq<u8>)
    returns (lines': nat, buf': seq<u8>)
    requires pos < |src| && |buf| == 2
    requires forall k :: pos <= k < |src| ==> src[k] < 0x80
    ensures Walkable(src, pos)
    ensures buf' == [buf[1], src[pos]]
    ensures lines' + LfCount(src[pos + 1..]) == lines + LfCount(src[pos..])
    ensures buf' == [STAR, SLASH] ==>
      PeekLoop(src, -1, startLine, [STAR, SLASH], pos, lines, chars, buf) == Ok(Scan(pos + 1, lines'))
    ensures buf' != [STAR, SLASH] ==>
      PeekLoop(src, -1, startLine, [STAR, SLASH], pos, lines, chars, buf)
      == PeekLoop(src, -1, startLine, [STAR, SLASH], pos + 1, lines', chars + 1, buf')
  {
    var b := src[pos];
    AsciiValid(src, pos);
    ValidWalkable(src, pos);
    assert Width(b) == 1 && src[pos..pos + 1] == [b];
    assert src[pos..][1..] == src[pos + 1..];
    lines' := if b == LF then lines + 1 else lines;
    buf' := PushedAsWritten(buf, [b]);
    assert buf' == [buf[1], b];
    PeekLoopStep(src, -1, startLine, [STAR, SLASH], pos, lines, chars, buf);
  }

  /** An unbounded peek up to the block-comment terminator `[STAR, SLASH]`
      over ASCII text whose first terminator (counting the byte `buf[1]`
      before `pos`) ends the input takes all of it. */
  lemma {:induction false} PeekToCommentEnd(src: seq<u8>, startLine: nat, pos: nat, lines: nat, chars: nat, buf: seq<u8>)
    requires pos < |src| && |buf| == 2
    requires forall k :: pos <= k < |src| ==> src[k] < 0x80
    requires src[|src| - 1] == SLASH && (if |src| - 1 == pos then buf[1] else src[|src| - 2]) == STAR
    requires pos < |src| - 1 ==> !(buf[1] == STAR && src[pos] == SLASH)
    requires forall k :: pos <= k && k + 1 < |src| - 1 ==> !(src[k] == STAR && src[k + 1] == SLASH)
    ensures Walkable(src, pos)
    ensures PeekLoop(src, -1, startLine, [STAR, SLASH], pos, lines, chars, buf)
         == Ok(Scan(|src|, lines + LfCount(src[pos..])))
    decreases |src| - pos
  {
    var lines', buf' := CommentEndStep(src, startLine, pos, lines, chars, buf);
    if pos + 1 < |src| {
      PeekToCommentEnd(src, startLine, pos + 1, lines', chars + 1, buf');
    } else {
      assert src[pos + 1..] == [];
    }
  }

  /** Skipping up to the block-comment terminator over ASCII text `/*...*/`
      in which it first occurs at the very end commits all of it. */
  lemma SkipToCommentEnd(c: seq<u8>)
    requires |c| >= 4 && c[0] == SLASH && c[1] == STAR && c[|c| - 2] == STAR && c[|c| - 1] == SLASH
    requires forall k :: 0 <= k < |c| ==> c[k] < 0x80
    requires forall k :: 0 <= k && k + 1 < |c| - 1 ==> !(c[k] == STAR && c[k + 1] == SLASH)
    ensures ValidFrom(c, 0) && SkipSpec(c, 0, 1, [STAR, SLASH]) == CommentOutcome(Ok(None), |c|, 1 + LfCount(c))
  {
    AsciiValid(c, 0);
    assert Zeros(2) == [0, 0];
    PeekToCommentEnd(c, 1, 0, 0, 0, Zeros(2));
    assert c[0..|c|] == c;
  }

  /** A `/* */` block comment making up ASCII input is skipped, moving the
      line on by its newlines, and the iteration ends. */
  lemma BlockCommentSkipped(c: seq<u8>)
    requires |c| >= 4 && c[0] == SLASH && c[1] == STAR && c[|c| - 2] == STAR && c[|c| - 1] == SLASH
    requires forall k :: 0 <= k < |c| ==> c[k] < 0x80
    requires forall k :: 0 <= k && k + 1 < |c| - 1 ==> !(c[k] == STAR && c[k + 1] == SLASH)
    ensures ValidFrom(c, 0) && NextSpec(c, 0, START_LINE) == LexStep(None, |c|, 1 + LfCount(c))
  {
    AsciiValid(c, 0);
    PeekAscii(c, 3, 1, 0, 0, 0);
    BlockCommentBranch(c);
    SkipToCommentEnd(c);
    SlashRound(c, 0, 1);
  }

  /** Input starting with a block-comment opener takes the block-comment
      branch. */
  lemma BlockCommentBranch(c: seq<u8>)
    requires |c| >= 3 && c[0] == SLASH && c[1] == STAR
    requires ValidFrom(c, 0)
    requires PeekSpec(c, 0, 3, 1, []) == Ok(Peek(c[0..3], 0, LfCount(c[0..3])))
    ensures CommentSpec(c, 0, 1) == SkipSpec(c, 0, 1, [STAR, SLASH])
  {
    var p := Peek(c[0..3], 0, LfCount(c[0..3]));
    assert !HasPrefix(p.slice, [SLASH, SLASH, SLASH]) && HasPrefix(p.slice, [SLASH, STAR]) by {
      assert p.slice[0] == SLASH && p.slice[1] == STAR;
    }
    CommentCases(c, 0, 1, p);
  }

  /** The block-comment case of `comment_and_whitespace_lexing`: a comment
      spread over three lines yields nothing. */
  lemma BlockCommentTest()
    ensures var s: seq<u8> := [SLASH, STAR, LF, 0x41, SPACE, 0x6D, 0x75, 0x6C, 0x74, 0x69, 0x2D, 0x6C, 0x69, 0x6E,
                               0x65, SPACE, 0x63, 0x6F, 0x6D, 0x6D, 0x65, 0x6E, 0x74, LF, STAR, SLASH];
      ValidFrom(s, 0) && NextSpec(s, 0, START_LINE).item == None
  {
    var s: seq<u8> := [SLASH, STAR, LF, 0x41, SPACE, 0x6D, 0x75, 0x6C, 0x74, 0x69, 0x2D, 0x6C, 0x69, 0x6E,
                       0x65, SPACE, 0x63, 0x6F, 0x6D, 0x6D, 0x65, 0x6E, 0x74, LF, STAR, SLASH];
    BlockCommentSkipped(s);
  }

  /** The three-character look-ahead of `try_parse_comment_or_docstring`
      at `pos` over ASCII text with at least three bytes left. */
  lemma PeekThreeAt(src: seq<u8>, pos: nat, line: nat)
    requires pos + 3 <= |src|
    requires forall k :: pos <= k < |src| ==> src[k] < 0x80
    ensures PeekSpec(src, pos, 3, line, []) == Ok(Peek(src[pos..pos + 3], pos, LfCount(src[pos..pos + 3])))
  {
    PeekAscii(src, 3, line, pos, 0, 0);
  }

  /** The branch `try_parse_comment_or_docstring` takes at a `/` in ASCII
      text with at least three bytes left, by the two bytes after it. */
  lemma CommentBranchAt(src: seq<u8>, pos: nat, line: nat)
    requires pos + 3 <= |src| && src[pos] == SLASH
    requires forall k :: pos <= k < |src| ==> src[k] < 0x80
    ensures ValidFrom(src, pos) && ValidFrom(src, pos + 3)
    ensures src[pos + 1] == STAR ==> CommentSpec(src, pos, line) == SkipSpec(src, pos, line, [STAR, SLASH])
    ensures src[pos + 1] == SLASH && src[pos + 2] == SLASH ==>
      CommentSpec(src, pos, line) == DocstringSpec(src, pos + 3, line)
    ensures src[pos + 1] == SLASH && src[pos + 2] != SLASH ==>
      CommentSpec(src, pos, line) == SkipSpec(src, pos, line, [LF])
  {
    AsciiValid(src, pos);
    AsciiValid(src, pos + 3);
    PeekThreeAt(src, pos, line);
    var p := Peek(src[pos..pos + 3], pos, LfCount(src[pos..pos + 3]));
    if src[pos + 1] == STAR {
      BlockBranchAt(src, pos, line, p);
    } else if src[pos + 1] == SLASH && src[pos + 2] == SLASH {
      NoNewlines(src, pos, pos + 3);
      DocstringBranchAt(src, pos, line, p);
    } else if src[pos + 1] == SLASH {
      LineBranchAt(src, pos, line, p);
    }
  }

  /** The block-comment case of `CommentBranchAt`. */
  lemma BlockBranchAt(src: seq<u8>, pos: nat, line: nat, p: Peek)
    requires pos + 3 <= |src| && ValidFrom(src, pos) && src[pos] == SLASH && src[pos + 1] == STAR
    requires p.slice == src[pos..pos + 3] && PeekSpec(src, pos, 3, line, []) == Ok(p)
    ensures CommentSpec(src, pos, line) == SkipSpec(src, pos, line, [STAR, SLASH])
  {
    assert !HasPrefix(p.slice, [SLASH, SLASH, SLASH]) && HasPrefix(p.slice, [SLASH, STAR]) by {
      assert p.slice[0] == SLASH && p.slice[1] == STAR;
    }
    CommentCases(src, pos, line, p);
  }

  /** The docstring case of `CommentBranchAt`. */
  lemma DocstringBranchAt(src: seq<u8>, pos: nat, line: nat, p: Peek)
    requires pos + 3 <= |src| && ValidFrom(src, pos) && ValidFrom(src, pos + 3)
    requires src[pos] == SLASH && src[pos + 1] == SLASH && src[pos + 2] == SLASH
    requires p.slice == src[pos..pos + 3] && p.lines == 0 && PeekSpec(src, pos, 3, line, []) == Ok(p)
    ensures CommentSpec(src, pos, line) == DocstringSpec(src, pos + 3, line)
  {
    assert HasPrefix(p.slice, [SLASH, SLASH, SLASH]);
    CommentCases(src, pos, line, p);
  }

  /** The line-comment case of `CommentBranchAt`. */
  lemma LineBranchAt(src: seq<u8>, pos: nat, line: nat, p: Peek)
    requires pos + 3 <= |src| && ValidFrom(src, pos)
    requires src[pos] == SLASH && src[pos + 1] == SLASH && src[pos + 2] != SLASH
    requires p.slice == src[pos..pos + 3] && PeekSpec(src, pos, 3, line, []) == Ok(p)
    ensures CommentSpec(src, pos, line) == SkipSpec(src, pos, line, [LF])
  {
    assert !HasPrefix(p.slice, [SLASH, SLASH, SLASH]) && !HasPrefix(p.slice, [SLASH, STAR])
        && HasPrefix(p.slice, [SLASH, SLASH]) by {
      assert p.slice[0] == SLASH && p.slice[1] == SLASH && p.slice[2] != SLASH;
    }
    CommentCases(src, pos, line, p);
  }

  /** A round of `next` on a block comment at `pos` in ASCII text carries
      on from the end `e` of the comment. */
  lemma BlockCommentRound(src: seq<u8>, pos: nat, line: nat, e: nat)
    requires pos + 3 <= e <= |src| && src[pos] == SLASH && src[pos + 1] == STAR
    requires forall k :: pos <= k < |src| ==> src[k] < 0x80
    requires CommentEnd(src, pos, e)
    ensures ValidFrom(src, pos) && NextRound(src, pos, line).Carry? && NextRound(src, pos, line).pos == e
  {
    CommentBranchAt(src, pos, line);
    BlockCommentRest(src, pos, line);
    CommentEndUnique(src, pos, SkipSpec(src, pos, line, [STAR, SLASH]).pos, e);
    SlashRound(src, pos, line);
  }

  /** A round of `next` on a `//` line comment (not `///`) at `pos` in
      ASCII text carries on from the end `e` of its line. */
  lemma LineCommentRound(src: seq<u8>, pos: nat, line: nat, e: nat)
    requires pos + 3 <= |src| && src[pos] == SLASH && src[pos + 1] == SLASH && src[pos + 2] != SLASH
    requires forall k :: pos <= k < |src| ==> src[k] < 0x80
    requires pos <= e <= |src| && LineEnd(src, pos, e)
    ensures ValidFrom(src, pos) && NextRound(src, pos, line).Carry? && NextRound(src, pos, line).pos == e
  {
    CommentBranchAt(src, pos, line);
    LineCommentRestOfLine(src, pos, line);
    LineEndUnique(src, pos, SkipSpec(src, pos, line, [LF]).pos, e);
    SlashRound(src, pos, line);
  }

  /** A round of `next` on a `///` docstring at `pos` in ASCII text stops
      with the docstring line from after the `///` to the end `e` of its
      line. */
  lemma DocstringRound(src: seq<u8>, pos: nat, line: nat, e: nat)
    requires pos + 3 <= e <= |src| && src[pos] == SLASH && src[pos + 1] == SLASH && src[pos + 2] == SLASH
    requires forall k :: pos <= k < |src| ==> src[k] < 0x80
    requires LineEnd(src, pos + 3, e)
    ensures ValidFrom(src, pos) && NextRound(src, pos, line).Stop?
    ensures NextRound(src, pos, line).step.item == Some(Tok(DocstringLine(src[pos + 3..e])))
    ensures NextRound(src, pos, line).step.pos == e
  {
    CommentBranchAt(src, pos, line);
    DocstringRestOfLine(src, pos + 3, line);
    LineEndUnique(src, pos + 3, DocstringSpec(src, pos + 3, line).pos, e);
    SlashRound(src, pos, line);
  }

  /** The block comment of the last `comment_and_whitespace_lexing` case. */
  const MIXED_BLOCK: seq<u8> :=
    [SLASH, STAR, LF, SPACE, STAR, SPACE, 0x41, SPACE, 0x6D, 0x75, 0x6C, 0x74, 0x69, 0x2D,
     0x6C, 0x69, 0x6E, 0x65, SPACE, 0x63, 0x6F, 0x6D, 0x6D, 0x65, 0x6E, 0x74, LF, SPACE,
     STAR, SLASH]

  /** The text of its first docstring line, after the `///`. */
  const A_MULTI_LINE: seq<u8> := [SPACE, 0x41, SPACE, 0x6D, 0x75, 0x6C, 0x74, 0x69, 0x2D, 0x6C, 0x69, 0x6E, 0x65, LF]

  /** The text of its second docstring line, after the `///`. */
  const DOCSTRING: seq<u8> := [SPACE, 0x64, 0x6F, 0x63, 0x73, 0x74, 0x72, 0x69, 0x6E, 0x67, LF]

  /** Its line comment. */
  const MIXED_LINE: seq<u8> :=
    [SLASH, SLASH, SPACE, 0x41, SPACE, 0x73, 0x69, 0x6E, 0x67, 0x6C, 0x65, 0x2D, 0x6C, 0x69,
     0x6E, 0x65, SPACE, 0x63, 0x6F, 0x6D, 0x6D, 0x65, 0x6E, 0x74, LF]

  /** The indentation before the closing quote of its raw string. */
  const MIXED_TAIL: seq<u8> :=
    [SPACE, SPACE, SPACE, SPACE, SPACE, SPACE, SPACE, SPACE, SPACE, SPACE, SPACE, SPACE, SPACE, SPACE, SPACE, SPACE]

  /** The input of the last `comment_and_whitespace_lexing` case: a newline,
      a block comment over three lines, two docstring lines, a blank line,
      a line comment and sixteen spaces. */
  const MIXED: seq<u8> :=
    [LF] + MIXED_BLOCK + [LF] + [SLASH, SLASH, SLASH] + A_MULTI_LINE + [SLASH, SLASH, SLASH] + DOCSTRING
    + [LF] + MIXED_LINE + MIXED_TAIL

  /** Every byte of `MIXED` is ASCII. */
  lemma MixedAscii()
    ensures forall k :: 0 <= k < |MIXED| ==> MIXED[k] < 0x80
  {
    MixedPiecesAscii();
    var s: seq<u8> := [LF];
    AsciiJoin(s, MIXED_BLOCK);
    s := s + MIXED_BLOCK;
    AsciiJoin(s, [LF]);
    s := s + [LF];
    AsciiJoin(s, [SLASH, SLASH, SLASH]);
    s := s + [SLASH, SLASH, SLASH];
    AsciiJoin(s, A_MULTI_LINE);
    s := s + A_MULTI_LINE;
    AsciiJoin(s, [SLASH, SLASH, SLASH]);
    s := s + [SLASH, SLASH, SLASH];
    AsciiJoin(s, DOCSTRING);
    s := s + DOCSTRING;
    AsciiJoin(s, [LF]);
    s := s + [LF];
    AsciiJoin(s, MIXED_LINE);
    s := s + MIXED_LINE;
    AsciiJoin(s, MIXED_TAIL);
    s := s + MIXED_TAIL;
    assert s == MIXED;
  }

  /** Text made of two ASCII parts is ASCII. */
  lemma AsciiJoin(a: seq<u8>, b: seq<u8>)
    requires (forall k :: 0 <= k < |a| ==> a[k] < 0x80) && (forall k :: 0 <= k < |b| ==> b[k] < 0x80)
    ensures forall k :: 0 <= k < |a + b| ==> (a + b)[k] < 0x80
  {
  }

  /** Every byte of the pieces of `MIXED` is ASCII. */
  lemma MixedPiecesAscii()
    ensures forall k :: 0 <= k < |MIXED_BLOCK| ==> MIXED_BLOCK[k] < 0x80
    ensures forall k :: 0 <= k < |A_MULTI_LINE| ==> A_MULTI_LINE[k] < 0x80
    ensures forall k :: 0 <= k < |DOCSTRING| ==> DOCSTRING[k] < 0x80
    ensures forall k :: 0 <= k < |MIXED_LINE| ==> MIXED_LINE[k] < 0x80
  {
  }

  /** A block comment `c` found at `pos` of `src`, ending with its first
      terminator, ends there in `src` too. */
  lemma CommentEndWithin(src: seq<u8>, pos: nat, c: seq<u8>)
    requires pos + |c| <= |src| && src[pos..pos + |c|] == c && |c| >= 3
    requires c[|c| - 2] == STAR && c[|c| - 1] == SLASH
    requires CommentEnd(c, 0, |c|)
    ensures CommentEnd(src, pos, pos + |c|)
  {
    forall k | pos + 2 <= k < pos + |c| - 1
      ensures !(src[k - 1] == STAR && src[k] == SLASH)
    {
      assert src[k - 1] == c[k - 1 - pos] && src[k] == c[k - pos];
    }
    assert src[pos + |c| - 2] == c[|c| - 2] && src[pos + |c| - 1] == c[|c| - 1];
  }

  /** A line `c` found at `pos` of `src`, ending with its only newline, ends
      there in `src` too. */
  lemma LineEndWithin(src: seq<u8>, pos: nat, c: seq<u8>)
    requires pos + |c| <= |src| && src[pos..pos + |c|] == c && |c| >= 1
    requires c[|c| - 1] == LF && forall k :: 0 <= k < |c| - 1 ==> c[k] != LF
    ensures LineEnd(src, pos, pos + |c|)
  {
    forall k | pos <= k < pos + |c| - 1
      ensures src[k] != LF
    {
      assert src[k] == c[k - pos];
    }
    assert src[pos + |c| - 1] == c[|c| - 1];
  }

  /** `next` carries on past a blank byte and a block comment ending at
      `e` in ASCII text. */
  lemma BlankThenComment(src: seq<u8>, pos: nat, e: nat, line: nat) returns (line': nat)
    requires pos + 4 <= e <= |src|
    requires forall k :: pos <= k < |src| ==> src[k] < 0x80
    requires IsSpace(src[pos]) && src[pos + 1] == SLASH && src[pos + 2] == STAR && CommentEnd(src, pos + 1, e)
    ensures ValidFrom(src, pos) && ValidFrom(src, e)
    ensures NextSpec(src, pos, line) == NextSpec(src, e, line')
  {
    AsciiValid(src, pos);
    BlankRound(src, pos, line);
    var l := line + if src[pos] == LF then 1 else 0;
    BlockCommentRound(src, pos + 1, l, e);
    line' := NextRound(src, pos + 1, l).line;
    assert NextSpec(src, pos + 1, l) == NextSpec(src, e, line');
  }

  /** `next` at a blank byte followed by a `///` docstring whose line ends
      at `e` in ASCII text yields that docstring line. */
  lemma BlankThenDocstring(src: seq<u8>, pos: nat, e: nat, line: nat) returns (line': nat)
    requires pos + 4 <= e <= |src|
    requires forall k :: pos <= k < |src| ==> src[k] < 0x80
    requires IsSpace(src[pos]) && src[pos + 1] == SLASH && src[pos + 2] == SLASH && src[pos + 3] == SLASH
    requires LineEnd(src, pos + 4, e)
    ensures ValidFrom(src, pos)
    ensures NextSpec(src, pos, line) == LexStep(Some(Tok(DocstringLine(src[pos + 4..e]))), e, line')
  {
    AsciiValid(src, pos);
    BlankRound(src, pos, line);
    var l := line + if src[pos] == LF then 1 else 0;
    line' := DocstringCall(src, pos + 1, e, l);
  }

  /** A call of `next` at a `///` docstring whose line ends at `e`, over
      ASCII text: it yields that docstring line. */
  lemma DocstringCall(src: seq<u8>, pos: nat, e: nat, line: nat) returns (line': nat)
    requires pos + 3 <= e <= |src|
    requires forall k :: pos <= k < |src| ==> src[k] < 0x80
    requires src[pos] == SLASH && src[pos + 1] == SLASH && src[pos + 2] == SLASH && LineEnd(src, pos + 3, e)
    ensures ValidFrom(src, pos)
    ensures NextSpec(src, pos, line) == LexStep(Some(Tok(DocstringLine(src[pos + 3..e]))), e, line')
  {
    DocstringRound(src, pos, line, e);
    line' := NextRound(src, pos, line).step.line;
  }

  /** A call of `next` at a blank byte followed by a `//` line comment
      ending at `e` and only whitespace after it, over ASCII text: the
      iteration ends. */
  lemma LineCommentThenBlanks(src: seq<u8>, pos: nat, e: nat, line: nat)
    requires pos + 4 <= |src| && pos + 1 <= e <= |src|
    requires forall k :: pos <= k < |src| ==> src[k] < 0x80
    requires IsSpace(src[pos]) && src[pos + 1] == SLASH && src[pos + 2] == SLASH && src[pos + 3] != SLASH
    requires LineEnd(src, pos + 1, e) && forall k :: e <= k < |src| ==> IsSpace(src[k])
    ensures ValidFrom(src, pos) && NextSpec(src, pos, line).item == None
  {
    AsciiValid(src, pos);
    BlankRound(src, pos, line);
    var l := line + if src[pos] == LF then 1 else 0;
    LineCommentRound(src, pos + 1, l, e);
    BlankInputEnds(src, e, NextRound(src, pos + 1, l).line);
  }

  /** Where the block comment of `MIXED` ends. */
  lemma MixedCommentEnd()
    ensures CommentEnd(MIXED, 1, 31)
  {
    assert MIXED[1..31] == MIXED_BLOCK;
    CommentEndWithin(MIXED, 1, MIXED_BLOCK);
  }

  /** The bytes of `MIXED` that decide each round of `next`. */
  lemma MixedBytes()
    ensures |MIXED| == 105
    ensures MIXED[0] == LF && MIXED[1] == SLASH && MIXED[2] == STAR && MIXED[31] == LF
    ensures MIXED[32] == SLASH && MIXED[33] == SLASH && MIXED[34] == SLASH
    ensures MIXED[49] == SLASH && MIXED[50] == SLASH && MIXED[51] == SLASH
    ensures MIXED[63] == LF && MIXED[64] == SLASH && MIXED[65] == SLASH && MIXED[66] == SPACE
  {
  }

  /** The texts of the docstring lines of `MIXED`. */
  lemma MixedDocstrings()
    ensures MIXED[35..49] == A_MULTI_LINE && MIXED[52..63] == DOCSTRING
  {
  }

  /** Where the docstring lines of `MIXED` end. */
  lemma MixedDocstringEnds()
    ensures LineEnd(MIXED, 35, 49) && LineEnd(MIXED, 52, 63)
  {
    MixedDocstrings();
    LineEndWithin(MIXED, 35, A_MULTI_LINE);
    LineEndWithin(MIXED, 52, DOCSTRING);
  }

  /** Where the line comment of `MIXED` ends, and its trailing blanks. */
  lemma MixedLineCommentEnd()
    ensures LineEnd(MIXED, 64, 89)
    ensures forall k :: 89 <= k < |MIXED| ==> IsSpace(MIXED[k])
  {
    assert MIXED[64..89] == MIXED_LINE;
    LineEndWithin(MIXED, 64, MIXED_LINE);
  }

  /** The rounds of `next` over ASCII text laid out as `MIXED` is: a blank,
      a block comment, two docstring lines, a line comment and blanks. */
  lemma CommentsTrace(src: seq<u8>, line: nat)
    requires |src| == 105 && forall k :: 0 <= k < |src| ==> src[k] < 0x80
    requires IsSpace(src[0]) && src[1] == SLASH && src[2] == STAR && CommentEnd(src, 1, 31)
    requires IsSpace(src[31]) && src[32] == SLASH && src[33] == SLASH && src[34] == SLASH
    requires src[49] == SLASH && src[50] == SLASH && src[51] == SLASH
    requires LineEnd(src, 35, 49) && LineEnd(src, 52, 63)
    requires IsSpace(src[63]) && src[64] == SLASH && src[65] == SLASH && src[66] != SLASH
    requires LineEnd(src, 64, 89) && forall k :: 89 <= k < |src| ==> IsSpace(src[k])
    ensures ValidFrom(src, 0)
    ensures var r1 := NextSpec(src, 0, line);
      && r1.item == Some(Tok(DocstringLine(src[35..49])))
      && var r2 := NextSpec(src, r1.pos, r1.line);
      && r2.item == Some(Tok(DocstringLine(src[52..63])))
      && NextSpec(src, r2.pos, r2.line).item == None
  {
    var l0 := BlankThenComment(src, 0, 31, line);
    var l1 := BlankThenDocstring(src, 31, 49, l0);
    var l2 := DocstringCall(src, 49, 63, l1);
    LineCommentThenBlanks(src, 63, 89, l2);
  }

  /** The last case of `comment_and_whitespace_lexing`: the iteration yields
      the docstring lines ` A multi-line` and ` docstring`, each with its
      newline, and then ends. */
  lemma MixedCommentsTest()
    ensures ValidFrom(MIXED, 0)
    ensures var r1 := NextSpec(MIXED, 0, START_LINE);
      && r1.item == Some(Tok(DocstringLine(A_MULTI_LINE)))
      && var r2 := NextSpec(MIXED, r1.pos, r1.line);
      && r2.item == Some(Tok(DocstringLine(DOCSTRING)))
      && NextSpec(MIXED, r2.pos, r2.line).item == None
  {
    MixedAscii();
    MixedCommentEnd();
    MixedDocstringEnds();
    MixedLineCommentEnd();
    MixedDocstrings();
    MixedBytes();
    CommentsTrace(MIXED, START_LINE);
  }

  /** With brackets consuming their byte, `{}` lexes to an object start
      and an object end, after which the iteration ends. */
  lemma IntendedBracketsTest()
    ensures var s: seq<u8> := [0x7B, 0x7D];
      && ValidFrom(s, 0)
      && NextIntended(s, 0, START_LINE) == LexStep(Some(Tok(ObjectStart)), 1, START_LINE)
      && NextIntended(s, 1, START_LINE) == LexStep(Some(Tok(ObjectEnd)), 2, START_LINE)
      && NextIntended(s, 2, START_LINE).item == None
  {
    var s: seq<u8> := [0x7B, 0x7D];
    AsciiValid(s, 0);
    BracketConsumed(s, 0, START_LINE);
    BracketConsumed(s, 1, START_LINE);
  }
}
