/** The GunnyScript lexer scaffolding: the bounded look-ahead `Peek` over the
    input bytes with its rolling match buffer, and the `Lexer` whose `Next`
    skips whitespace and comments and dispatches on the first byte. The value
    and identifier sub-parsers are unimplemented in the program; `Next`
    reports which one it would hand over to. */
module Parser {
  import opened Utf8
  import opened Wrappers

  const START_LINE: nat := 1

  const SLASH: u8 := 0x2F
  const STAR: u8 := 0x2A

  datatype Error = UnexpectedChar | IncompleteUtf8Char | Utf8Error

  /** An error with the 1-based line it was found on. */
  datatype Located = Located(line: nat, err: Error)

  datatype SimpleValue =
    | Null
    | Number(text: seq<u8>)
    | Date(text: seq<u8>)
    | DateTime(text: seq<u8>)
    | String(text: seq<u8>)
    | DedentString(text: seq<u8>)
    | LiteralString(text: seq<u8>)
    | DedentLiteralString(text: seq<u8>)

  datatype Token =
    | DocstringLine(text: seq<u8>)
    | ObjectStart
    | ObjectEnd
    | ArrayStart
    | ArrayEnd
    | PropertyId(id: seq<u8>)
    | Value(value: SimpleValue)

  /** The sub-parsers `Next` dispatches to, none of which is implemented. */
  datatype Subparser =
    | NullOrPropertyId
    | BoolOrPropertyId
    | QuotedString
    | StringLiteral
    | DedentStringOrPropertyId
    | PropertyIdentifier
    | NumberOrDateTimeOrDate

  /** One item of the lexer's output: a token, an error, or the hand-over to
      an unimplemented sub-parser (which would panic in the program). */
  datatype Lexed = Tok(token: Token) | Failure(err: Located) | Unimplemented(parser: Subparser)

  /** A look-ahead: the bytes `slice` starting at `from`, containing `lines`
      newline characters. */
  datatype Peek = Peek(slice: seq<u8>, from: nat, lines: nat)

  // ---------------------------------------------------------------------
  // The rolling match buffer.

  /** `slice_rotl` as it is meant to work: every byte moves `n` places to the
      left; the last `n` places keep their old bytes (they are overwritten by
      the push that follows). A buffer no longer than `n` is left alone. */
  function ShiftedLeft(s: seq<u8>, n: nat): (r: seq<u8>)
    ensures |r| == |s|
  {
    if n >= |s| then s else s[n..] + s[|s| - n..]
  }

  /** `slice_rotl` as written: for `i` in `len-n-1 .. len-1` it sets
      `s[i] := s[i+1]`, which moves only the last `n` bytes one place left. */
  function ShiftedAsWritten(s: seq<u8>, n: nat): (r: seq<u8>)
    ensures |r| == |s|
  {
    if n >= |s| then s else s[..|s| - n - 1] + s[|s| - n..] + [s[|s| - 1]]
  }

  /** What `slice_push` writes after the shift: `ch` over the last `|ch|`
      places, or the first `|mid|` bytes of `ch` when it is not shorter. */
  function WriteTail(mid: seq<u8>, ch: seq<u8>): (r: seq<u8>)
    ensures |r| == |mid|
  {
    if |ch| < |mid| then mid[..|mid| - |ch|] + ch else ch[..|mid|]
  }

  /** The buffer after pushing the bytes `ch` of one character: the last
      `|buf|` bytes of `buf + ch` when `ch` is shorter than the buffer, and
      otherwise the first bytes of `ch`. An empty buffer stays empty. */
  function Pushed(buf: seq<u8>, ch: seq<u8>): (r: seq<u8>)
    ensures |r| == |buf|
  {
    if |ch| < |buf| then buf[|ch|..] + ch else ch[..|buf|]
  }

  /** `Pushed` is the shift followed by the tail write that `slice_push`
      performs. */
  lemma PushedIsShiftThenWrite(buf: seq<u8>, ch: seq<u8>)
    ensures Pushed(buf, ch) == if |buf| == 0 then buf else WriteTail(ShiftedLeft(buf, |ch|), ch)
  {
    if 0 < |buf| && |ch| < |buf| {
      assert ShiftedLeft(buf, |ch|)[..|buf| - |ch|] == buf[|ch|..];
    }
  }

  /** The buffer after `slice_push` as written. */
  function PushedAsWritten(buf: seq<u8>, ch: seq<u8>): (r: seq<u8>)
    ensures |r| == |buf|
  {
    if |buf| == 0 then buf else WriteTail(ShiftedAsWritten(buf, |ch|), ch)
  }

  /** `slice_rotl` (as it is meant to work), in place. */
  method SliceRotl(s: array<u8>, n: nat)
    modifies s
    ensures s[..] == ShiftedLeft(old(s[..]), n)
  {
    if n >= s.Length {
      return;
    }
    ghost var o := s[..];
    for i := 0 to s.Length - n
      invariant forall k :: 0 <= k < i ==> s[k] == o[k + n]
      invariant forall k :: i <= k < s.Length ==> s[k] == o[k]
    {
      s[i] := s[i + n];
    }
    assert forall k :: 0 <= k < s.Length ==> s[..][k] == ShiftedLeft(o, n)[k];
  }

  /** `slice_rotl` as written, in place. */
  method SliceRotlAsWritten(s: array<u8>, n: nat)
    modifies s
    ensures s[..] == ShiftedAsWritten(old(s[..]), n)
  {
    if n >= s.Length {
      return;
    }
    ghost var o := s[..];
    var lo := s.Length - n - 1;
    for i := lo to s.Length - 1
      invariant forall k :: 0 <= k < lo ==> s[k] == o[k]
      invariant forall k :: lo <= k < i ==> s[k] == o[k + 1]
      invariant forall k :: i <= k < s.Length ==> s[k] == o[k]
    {
      s[i] := s[i + 1];
    }
    assert forall k :: 0 <= k < s.Length ==> s[..][k] == ShiftedAsWritten(o, n)[k];
  }

  /** The tail write of `slice_push`: copy `ch` into the buffer from
      `len - |ch|` on (from 0 when `ch` is not shorter), stopping at the
      end of the buffer. */
  method WriteTailInPlace(s: array<u8>, ch: seq<u8>)
    modifies s
    ensures s[..] == WriteTail(old(s[..]), ch)
  {
    ghost var mid := s[..];
    var start := if |ch| < s.Length then s.Length - |ch| else 0;
    for i := 0 to |ch|
      invariant forall k :: 0 <= k < start ==> s[k] == mid[k]
      invariant forall k :: start <= k < start + i && k < s.Length ==> s[k] == ch[k - start]
      invariant forall k :: start + i <= k < s.Length ==> s[k] == mid[k]
    {
      if start + i >= s.Length {
        break;
      }
      s[start + i] := ch[i];
    }
    assert forall k :: 0 <= k < s.Length ==> s[..][k] == WriteTail(mid, ch)[k];
  }

  /** `slice_push` with the intended shift: shift the buffer, then copy
      `ch` into its tail. */
  method SlicePush(s: array<u8>, ch: seq<u8>)
    modifies s
    ensures s[..] == Pushed(old(s[..]), ch)
  {
    if s.Length == 0 {
      return;
    }
    SliceRotl(s, |ch|);
    WriteTailInPlace(s, ch);
    PushedIsShiftThenWrite(old(s[..]), ch);
  }

  /** `slice_push` as written, on top of `slice_rotl` as written; this is
      the push the scan of `Peek::from_slice` performs. */
  method SlicePushAsWritten(s: array<u8>, ch: seq<u8>)
    modifies s
    ensures s[..] == PushedAsWritten(old(s[..]), ch)
  {
    if s.Length == 0 {
      return;
    }
    SliceRotlAsWritten(s, |ch|);
    WriteTailInPlace(s, ch);
  }

  /** `slice_rotl` and `slice_push` as written agree with the intended
      shift for every buffer of at most two bytes, the only sizes the lexer
      uses (its `until` patterns are `[]`, `[\n]` and `[*, /]`). */
  lemma PushAsWrittenAgreesOnShortBuffers(buf: seq<u8>, ch: seq<u8>)
    requires |buf| <= 2
    ensures ShiftedAsWritten(buf, |ch|) == ShiftedLeft(buf, |ch|)
    ensures PushedAsWritten(buf, ch) == Pushed(buf, ch)
  {
  }

  /** Pushing onto a two-byte buffer, as written: a one-byte character
      follows the newer byte, and a wider one fills the buffer with its
      first two bytes. */
  lemma PushTwo(buf: seq<u8>, ch: seq<u8>)
    requires |buf| == 2 && |ch| >= 1
    ensures |ch| == 1 ==> PushedAsWritten(buf, ch) == [buf[1], ch[0]]
    ensures |ch| >= 2 ==> PushedAsWritten(buf, ch) == [ch[0], ch[1]]
  {
  }

  /** With three bytes or more, `slice_push` as written does not drop the
      oldest byte: pushing `4` onto `[1, 2, 3]` gives `[1, 3, 4]`, not the
      window `[2, 3, 4]`. */
  lemma PushAsWrittenKeepsOldestByte()
    ensures Pushed([1, 2, 3], [4]) == [2, 3, 4]
    ensures PushedAsWritten([1, 2, 3], [4]) == [1, 3, 4]
  {
  }

  // ---------------------------------------------------------------------
  // Peek::from_slice

  /** The initial match buffer `[0_u8; C]`. */
  function Zeros(n: nat): (r: seq<u8>)
    ensures |r| == n
  {
    if n == 0 then [] else [0] + Zeros(n - 1)
  }

  /** A fresh match buffer of `n` zero bytes. */
  method NewMatchBuffer(n: nat) returns (a: array<u8>)
    ensures fresh(a) && a[..] == Zeros(n)
  {
    a := new u8[n](_ => 0);
    ZerosAreZero(n);
  }

  lemma {:induction false} ZerosAreZero(n: nat)
    ensures forall i :: 0 <= i < n ==> Zeros(n)[i] == 0
  {
    if n > 0 {
      ZerosAreZero(n - 1);
    }
  }

  /** Where the scanning loop of `Peek::from_slice` stops: the position
      `end` just past the last byte it took, and the newline characters it
      counted. */
  datatype Scan = Scan(end: nat, lines: nat)

  /** The scanning loop of `Peek::from_slice` from the state (`pos`,
      `lines`, `chars`, match buffer `buf`) on: one character per step, of
      the width the table gives its lead byte; with a non-empty `until` the
      character is pushed onto the buffer (by `slice_push` as written) and
      the loop stops as soon as the buffer equals `until`. A negative `len` means "no character limit";
      the loop then needs `Walkable` to terminate. A successful scan ends no
      earlier than `pos`. */
  function PeekLoop(src: seq<u8>, len: int, startLine: nat, until: seq<u8>,
                    pos: nat, lines: nat, chars: nat, buf: seq<u8>): (r: Result<Scan, Located>)
    requires pos <= |src|
    requires len < 0 ==> Walkable(src, pos)
    ensures r.Ok? ==> pos <= r.value.end <= |src|
    decreases if len < 0 then 0 else len - chars, |src| - pos, 1
  {
    if pos < |src| && (len < 0 || chars < len) then
      PeekChar(src, len, startLine, until, pos, lines, chars, buf)
    else
      Ok(Scan(pos, lines))
  }

  /** One round of the loop, on the character whose lead byte is at `pos`. */
  function PeekChar(src: seq<u8>, len: int, startLine: nat, until: seq<u8>,
                    pos: nat, lines: nat, chars: nat, buf: seq<u8>): (r: Result<Scan, Located>)
    requires pos < |src|
    requires len < 0 || chars < len
    requires len < 0 ==> Walkable(src, pos)
    ensures r.Ok? ==> pos <= r.value.end <= |src|
    decreases if len < 0 then 0 else len - chars, |src| - pos, 0
  {
    var w := Width(src[pos]);
    if pos + w > |src| then
      Err(Located(startLine + lines, IncompleteUtf8Char))
    else
      var lines' := if w == 1 && src[pos] == LF then lines + 1 else lines;
      var buf' := if |until| > 0 then PushedAsWritten(buf, src[pos..pos + w]) else buf;
      if |until| > 0 && buf' == until then
        Ok(Scan(pos + w, lines'))
      else
        PeekLoop(src, len, startLine, until, pos + w, lines', chars + 1, buf')
  }

  /** `Peek::from_slice(src, from, len, start_line, until)`: the loop from
      `from`, no line and no character seen, the match buffer all zeros;
      the peek holds the bytes from `from` to where the loop stopped. */
  function PeekSpec(src: seq<u8>, from: nat, len: int, startLine: nat, until: seq<u8>): Result<Peek, Located>
    requires from <= |src|
    requires len < 0 ==> Walkable(src, from)
  {
    match PeekLoop(src, len, startLine, until, from, 0, 0, Zeros(|until|))
    case Ok(s) => Ok(Peek(src[from..s.end], from, s.lines))
    case Err(e) => Err(e)
  }

  /** One unfolding of the loop over a whole character: it stops right after
      it when the pushed buffer matches and otherwise carries on from the
      next position. */
  lemma PeekLoopStep(src: seq<u8>, len: int, startLine: nat, until: seq<u8>,
                     pos: nat, lines: nat, chars: nat, buf: seq<u8>)
    requires pos < |src|
    requires len < 0 || chars < len
    requires pos + Width(src[pos]) <= |src|
    requires len < 0 ==> Walkable(src, pos)
    ensures len < 0 ==> Walkable(src, pos + Width(src[pos]))
    ensures var w := Width(src[pos]);
      var lines' := if w == 1 && src[pos] == LF then lines + 1 else lines;
      var buf' := if |until| > 0 then PushedAsWritten(buf, src[pos..pos + w]) else buf;
      var r := PeekLoop(src, len, startLine, until, pos, lines, chars, buf);
      && (|until| > 0 && buf' == until ==> r == Ok(Scan(pos + w, lines')))
      && (!(|until| > 0 && buf' == until) ==>
            r == PeekLoop(src, len, startLine, until, pos + w, lines', chars + 1, buf'))
  {
  }

  /** The loop fails on a character that runs past the end of `src`. */
  lemma PeekLoopIncomplete(src: seq<u8>, len: int, startLine: nat, until: seq<u8>,
                           pos: nat, lines: nat, chars: nat, buf: seq<u8>)
    requires pos < |src| && (len < 0 || chars < len)
    requires len < 0 ==> Walkable(src, pos)
    requires pos + Width(src[pos]) > |src|
    ensures PeekLoop(src, len, startLine, until, pos, lines, chars, buf)
         == Err(Located(startLine + lines, IncompleteUtf8Char))
  {
  }

  /** The loop stops where it is once its condition fails. */
  lemma PeekLoopDone(src: seq<u8>, len: int, startLine: nat, until: seq<u8>,
                     pos: nat, lines: nat, chars: nat, buf: seq<u8>)
    requires pos <= |src|
    requires len < 0 ==> Walkable(src, pos)
    requires !(pos < |src| && (len < 0 || chars < len))
    ensures PeekLoop(src, len, startLine, until, pos, lines, chars, buf) == Ok(Scan(pos, lines))
  {
  }

  /** `PeekLoopStep` naming the next state. */
  lemma PeekTake(src: seq<u8>, len: int, startLine: nat, until: seq<u8>,
                 pos: nat, lines: nat, chars: nat, buf: seq<u8>)
    returns (w: nat, lines': nat, buf': seq<u8>, stop: bool)
    requires pos < |src|
    requires len < 0 || chars < len
    requires pos + Width(src[pos]) <= |src|
    requires len < 0 ==> Walkable(src, pos)
    ensures w == Width(src[pos]) && pos + w <= |src| && (len < 0 ==> 1 <= w)
    ensures lines' == if w == 1 && src[pos] == LF then lines + 1 else lines
    ensures len < 0 ==> Walkable(src, pos + w)
    ensures stop ==> PeekLoop(src, len, startLine, until, pos, lines, chars, buf) == Ok(Scan(pos + w, lines'))
    ensures !stop ==> (PeekLoop(src, len, startLine, until, pos, lines, chars, buf)
                       == PeekLoop(src, len, startLine, until, pos + w, lines', chars + 1, buf'))
  {
    w := Width(src[pos]);
    lines' := if w == 1 && src[pos] == LF then lines + 1 else lines;
    buf' := if |until| > 0 then PushedAsWritten(buf, src[pos..pos + w]) else buf;
    stop := |until| > 0 && buf' == until;
    PeekLoopStep(src, len, startLine, until, pos, lines, chars, buf);
  }

  /** The body of the loop of `Peek::from_slice` for the whole character at
      `pos`: step past it, count it when it is a newline and, when `until` is
      not empty, push it onto the match buffer and compare the buffer with
      `until`. */
  method PeekOneChar(src: seq<u8>, until: seq<u8>, matchBuf: array<u8>, pos: nat, lines: nat)
    returns (pos': nat, lines': nat, stop: bool)
    requires pos < |src| && pos + Width(src[pos]) <= |src|
    requires matchBuf.Length == |until|
    modifies matchBuf
    ensures pos' == pos + Width(src[pos])
    ensures lines' == if Width(src[pos]) == 1 && src[pos] == LF then lines + 1 else lines
    ensures matchBuf[..] == if |until| > 0 then PushedAsWritten(old(matchBuf[..]), src[pos..pos']) else old(matchBuf[..])
    ensures stop <==> |until| > 0 && matchBuf[..] == until
  {
    var b := src[pos];
    var w := Width(b);
    pos' := pos + w;
    lines' := lines;
    if w == 1 && b == LF {
      lines' := lines + 1;
    }
    stop := false;
    if |until| > 0 {
      SlicePushAsWritten(matchBuf, src[pos' - w..pos']);
      stop := matchBuf[..] == until;
    }
  }

  /** The loop after the character at `pos`, in the terms the method's
      loop body computes it. */
  lemma PeekLoopNext(src: seq<u8>, len: int, startLine: nat, until: seq<u8>,
                     pos: nat, lines: nat, chars: nat, buf: seq<u8>,
                     pos': nat, lines': nat, buf': seq<u8>, stop: bool)
    requires pos < |src|
    requires len < 0 || chars < len
    requires len < 0 ==> Walkable(src, pos)
    requires pos' == pos + Width(src[pos]) && pos' <= |src|
    requires lines' == if Width(src[pos]) == 1 && src[pos] == LF then lines + 1 else lines
    requires buf' == if |until| > 0 then PushedAsWritten(buf, src[pos..pos']) else buf
    requires stop <==> |until| > 0 && buf' == until
    ensures len < 0 ==> Walkable(src, pos')
    ensures stop ==> PeekLoop(src, len, startLine, until, pos, lines, chars, buf) == Ok(Scan(pos', lines'))
    ensures !stop ==> (PeekLoop(src, len, startLine, until, pos, lines, chars, buf)
                       == PeekLoop(src, len, startLine, until, pos', lines', chars + 1, buf'))
  {
    PeekLoopStep(src, len, startLine, until, pos, lines, chars, buf);
  }

  /** `Peek::from_slice` with its match buffer as an array rotated in place. */
  method PeekFromSlice(src: seq<u8>, from: nat, len: int, startLine: nat, until: seq<u8>)
    returns (r: Result<Peek, Located>)
    requires from <= |src|
    requires len < 0 ==> Walkable(src, from)
    ensures r == PeekSpec(src, from, len, startLine, until)
  {
    var pos := from;
    var lines := 0;
    var chars := 0;
    var matchBuf := NewMatchBuffer(|until|);
    ghost var scan := PeekLoop(src, len, startLine, until, from, 0, 0, Zeros(|until|));
    while pos < |src| && (len < 0 || chars < len)
      invariant from <= pos <= |src|
      invariant len < 0 ==> Walkable(src, pos)
      invariant matchBuf.Length == |until|
      invariant PeekLoop(src, len, startLine, until, pos, lines, chars, matchBuf[..]) == scan
      decreases if len < 0 then 0 else len - chars, |src| - pos
    {
      if pos + Width(src[pos]) > |src| {
        PeekLoopIncomplete(src, len, startLine, until, pos, lines, chars, matchBuf[..]);
        return Err(Located(startLine + lines, IncompleteUtf8Char));
      }
      ghost var buf := matchBuf[..];
      var pos', lines', stop := PeekOneChar(src, until, matchBuf, pos, lines);
      PeekLoopNext(src, len, startLine, until, pos, lines, chars, buf, pos', lines', matchBuf[..], stop);
      pos, lines, chars := pos', lines', chars + 1;
      if stop {
        // the program breaks out of the loop and returns this same peek
        return Ok(Peek(src[from..pos], from, lines));
      }
    }
    PeekLoopDone(src, len, startLine, until, pos, lines, chars, matchBuf[..]);
    return Ok(Peek(src[from..pos], from, lines));
  }

  /** What a successful scan from `pos`, with `lines` newline characters
      and `chars` characters already seen, stops at: a character boundary
      `end`, the newline characters up to it added to `lines`, and no more
      than `len` characters in all when `len >= 0`. */
  ghost predicate ScanResult(src: seq<u8>, pos: nat, len: int, lines: nat, chars: nat, s: Scan) {
    && pos <= s.end <= |src|
    && Aligned(src, pos, s.end)
    && s.lines == lines + NewlineChars(src, pos, s.end)
    && (0 <= chars <= len ==> chars + CharCount(src, pos, s.end) <= len)
  }

  /** A successful scan stops at a `ScanResult`. */
  lemma {:induction false} PeekLoopOk(src: seq<u8>, len: int, startLine: nat, until: seq<u8>,
                                      pos: nat, lines: nat, chars: nat, buf: seq<u8>, r: Result<Scan, Located>)
    requires pos <= |src|
    requires len < 0 ==> Walkable(src, pos)
    requires r == PeekLoop(src, len, startLine, until, pos, lines, chars, buf)
    ensures r.Ok? ==> ScanResult(src, pos, len, lines, chars, r.value)
    decreases if len < 0 then 0 else len - chars, |src| - pos, 1
  {
    if pos < |src| && (len < 0 || chars < len) && pos + Width(src[pos]) <= |src| {
      PeekOkStep(src, len, startLine, until, pos, lines, chars, buf, r);
    } else if pos < |src| && (len < 0 || chars < len) {
      PeekLoopIncomplete(src, len, startLine, until, pos, lines, chars, buf);
    } else {
      PeekLoopDone(src, len, startLine, until, pos, lines, chars, buf);
    }
  }

  /** `PeekLoopOk` when the loop reads another whole character: the scan
      from the next position, with that character counted, extends to one
      from `pos`. */
  lemma {:induction false} PeekOkStep(src: seq<u8>, len: int, startLine: nat, until: seq<u8>,
                                      pos: nat, lines: nat, chars: nat, buf: seq<u8>, r: Result<Scan, Located>)
    requires pos < |src| && (len < 0 || chars < len) && pos + Width(src[pos]) <= |src|
    requires len < 0 ==> Walkable(src, pos)
    requires r == PeekLoop(src, len, startLine, until, pos, lines, chars, buf)
    ensures r.Ok? ==> ScanResult(src, pos, len, lines, chars, r.value)
    decreases if len < 0 then 0 else len - chars, |src| - pos, 0
  {
    var w, lines', buf', stop := PeekTake(src, len, startLine, until, pos, lines, chars, buf);
    if !stop {
      PeekLoopOk(src, len, startLine, until, pos + w, lines', chars + 1, buf', r);
    }
  }

  /** `PeekTake` with the facts an error location needs. */
  lemma PeekPass(src: seq<u8>, from: nat, len: int, startLine: nat, until: seq<u8>,
                 pos: nat, lines: nat, chars: nat, buf: seq<u8>)
    returns (w: nat, lines': nat, buf': seq<u8>, stop: bool)
    requires from <= pos < |src|
    requires len < 0 || chars < len
    requires pos + Width(src[pos]) <= |src|
    requires len < 0 ==> Walkable(src, pos)
    requires Aligned(src, from, pos) && lines == NewlineChars(src, from, pos)
    ensures w == Width(src[pos]) && pos + w <= |src| && (len < 0 ==> 1 <= w)
    ensures len < 0 ==> Walkable(src, pos + w)
    ensures Aligned(src, from, pos + w) && lines' == NewlineChars(src, from, pos + w)
    ensures stop ==> PeekLoop(src, len, startLine, until, pos, lines, chars, buf).Ok?
    ensures !stop ==> (PeekLoop(src, len, startLine, until, pos, lines, chars, buf)
                       == PeekLoop(src, len, startLine, until, pos + w, lines', chars + 1, buf'))
  {
    w, lines', buf', stop := PeekTake(src, len, startLine, until, pos, lines, chars, buf);
    if w > 0 {
      AlignedAppend(src, from, pos);
    }
  }

  /** How a peek from `from` fails: with `IncompleteUtf8Char`, on a lead
      byte at a character boundary `q` whose character would run past the end
      of `src`, located at `startLine` plus the newline characters before
      `q`. */
  ghost predicate PeekFailure(src: seq<u8>, from: nat, startLine: nat, e: Located) {
    exists q :: FailsAt(src, from, startLine, e, q)
  }

  /** `PeekFailure` at the lead byte `q`. */
  ghost predicate FailsAt(src: seq<u8>, from: nat, startLine: nat, e: Located, q: nat) {
    && e.err == IncompleteUtf8Char
    && from <= q < |src| && q + Width(src[q]) > |src|
    && Aligned(src, from, q) && e.line == startLine + NewlineChars(src, from, q)
  }

  /** A scan fails only with `IncompleteUtf8Char`, on a lead byte whose
      character would run past the end of `src`; the error is located at
      `startLine` plus the newline characters before that byte. */
  lemma {:induction false} PeekLoopErr(src: seq<u8>, from: nat, len: int, startLine: nat, until: seq<u8>,
                                       pos: nat, lines: nat, chars: nat, buf: seq<u8>, r: Result<Scan, Located>)
    requires from <= pos <= |src|
    requires len < 0 ==> Walkable(src, pos)
    requires Aligned(src, from, pos) && lines == NewlineChars(src, from, pos)
    requires r == PeekLoop(src, len, startLine, until, pos, lines, chars, buf)
    ensures r.Err? ==> PeekFailure(src, from, startLine, r.error)
    decreases if len < 0 then 0 else len - chars, |src| - pos, 1
  {
    if pos < |src| && (len < 0 || chars < len) && pos + Width(src[pos]) <= |src| {
      PeekErrStep(src, from, len, startLine, until, pos, lines, chars, buf, r);
    } else if pos < |src| && (len < 0 || chars < len) {
      PeekLoopIncomplete(src, len, startLine, until, pos, lines, chars, buf);
      assert FailsAt(src, from, startLine, r.error, pos);
    } else {
      PeekLoopDone(src, len, startLine, until, pos, lines, chars, buf);
    }
  }

  /** `PeekLoopErr` when the loop reads another whole character. */
  lemma {:induction false} PeekErrStep(src: seq<u8>, from: nat, len: int, startLine: nat, until: seq<u8>,
                                       pos: nat, lines: nat, chars: nat, buf: seq<u8>, r: Result<Scan, Located>)
    requires from <= pos < |src| && (len < 0 || chars < len) && pos + Width(src[pos]) <= |src|
    requires len < 0 ==> Walkable(src, pos)
    requires Aligned(src, from, pos) && lines == NewlineChars(src, from, pos)
    requires r == PeekLoop(src, len, startLine, until, pos, lines, chars, buf)
    ensures r.Err? ==> PeekFailure(src, from, startLine, r.error)
    decreases if len < 0 then 0 else len - chars, |src| - pos, 0
  {
    var w, lines', buf', stop := PeekPass(src, from, len, startLine, until, pos, lines, chars, buf);
    if !stop {
      PeekLoopErr(src, from, len, startLine, until, pos + w, lines', chars + 1, buf', r);
    }
  }

  /** What a successful peek from `from` returns: the bytes `src[from..e]`
      for a character boundary `e`, a whole number of characters (at most
      `len` of them when `len >= 0`), with `lines` its newline characters. */
  ghost predicate PeekResult(src: seq<u8>, from: nat, len: int, p: Peek) {
    && p.from == from
    && from + |p.slice| <= |src|
    && p.slice == src[from..from + |p.slice|]
    && Aligned(src, from, from + |p.slice|)
    && p.lines == NewlineChars(src, from, from + |p.slice|)
    && (len >= 0 ==> CharCount(src, from, from + |p.slice|) <= len)
  }

  /** A peek over any input (walkable when `len < 0`) either returns the
      bytes of a whole number of characters starting at `from` with their
      newline count, or fails with `IncompleteUtf8Char` at a character that
      runs past the end, located `startLine` plus the newlines before it. */
  lemma PeekOutcome(src: seq<u8>, from: nat, len: int, startLine: nat, until: seq<u8>)
    requires from <= |src|
    requires len < 0 ==> Walkable(src, from)
    ensures var r := PeekSpec(src, from, len, startLine, until);
      && (r.Ok? ==> PeekResult(src, from, len, r.value))
      && (r.Err? ==> PeekFailure(src, from, startLine, r.error))
  {
    var s := PeekLoop(src, len, startLine, until, from, 0, 0, Zeros(|until|));
    PeekLoopOk(src, len, startLine, until, from, 0, 0, Zeros(|until|), s);
    PeekLoopErr(src, from, len, startLine, until, from, 0, 0, Zeros(|until|), s);
    if s.Ok? {
      assert src[from..s.value.end] == src[from..from + (s.value.end - from)];
    }
  }

  /** On well-formed UTF-8 no character runs past the end, so a scan never
      fails. */
  lemma {:induction false} PeekLoopValid(src: seq<u8>, len: int, startLine: nat, until: seq<u8>,
                                         pos: nat, lines: nat, chars: nat, buf: seq<u8>)
    requires pos <= |src|
    requires ValidFrom(src, pos)
    ensures Walkable(src, pos)
    ensures PeekLoop(src, len, startLine, until, pos, lines, chars, buf).Ok?
    decreases if len < 0 then 0 else len - chars, |src| - pos
  {
    ValidWalkable(src, pos);
    if pos < |src| && (len < 0 || chars < len) {
      ValidStep(src, pos);
      var w, lines', buf', stop := PeekTake(src, len, startLine, until, pos, lines, chars, buf);
      if !stop {
        PeekLoopValid(src, len, startLine, until, pos + w, lines', chars + 1, buf');
      }
    } else {
      PeekLoopDone(src, len, startLine, until, pos, lines, chars, buf);
    }
  }

  /** Any peek over well-formed text succeeds and returns the bytes
      `src[from..e]` for a character boundary `e`; it counts every newline
      byte in them and leaves well-formed text behind. */
  lemma PeekValid(src: seq<u8>, from: nat, len: int, startLine: nat, until: seq<u8>)
    requires from <= |src| && ValidFrom(src, from)
    ensures Walkable(src, from)
    ensures var r := PeekSpec(src, from, len, startLine, until);
      && r.Ok?
      && PeekResult(src, from, len, r.value)
      && r.value.lines == multiset(r.value.slice)[LF]
      && ValidFrom(src, from + |r.value.slice|)
  {
    PeekLoopValid(src, len, startLine, until, from, 0, 0, Zeros(|until|));
    PeekOutcome(src, from, len, startLine, until);
    var p := PeekSpec(src, from, len, startLine, until).value;
    var e := from + |p.slice|;
    ValidNewlines(src, from, e);
    ValidAfter(src, from, e);
  }

  /** Unless `len` is 0, a peek over well-formed text that is not at the end
      consumes at least one character. */
  lemma PeekProgress(src: seq<u8>, from: nat, len: int, startLine: nat, until: seq<u8>)
    requires from < |src| && ValidFrom(src, from)
    requires len != 0
    ensures Walkable(src, from)
    ensures var r := PeekSpec(src, from, len, startLine, until);
      r.Ok? ==> |r.value.slice| >= 1
  {
    ValidWalkable(src, from);
    ValidStep(src, from);
    var w, lines', buf', stop := PeekTake(src, len, startLine, until, from, 0, 0, Zeros(|until|));
  }

  /** `e` ends the line that starts at `pos`: it lies just after the first
      newline byte at or after `pos`, or at the end of `src` when there is
      none. */
  ghost predicate LineEnd(src: seq<u8>, pos: nat, e: nat)
    requires pos <= e <= |src|
  {
    && (forall k :: pos <= k < e - 1 ==> src[k] != LF)
    && (e == |src| || (pos < e && src[e - 1] == LF))
  }

  /** An unbounded scan up to a newline over well-formed text stops just
      after the first newline, or at the end of the input. */
  lemma {:induction false} PeekLineLoop(src: seq<u8>, startLine: nat, pos: nat, lines: nat, chars: nat,
                                        buf: seq<u8>, r: Result<Scan, Located>)
    requires pos <= |src| && ValidFrom(src, pos) && Walkable(src, pos) && |buf| == 1
    requires r == PeekLoop(src, -1, startLine, [LF], pos, lines, chars, buf)
    ensures r.Ok? && LineEnd(src, pos, r.value.end)
    decreases |src| - pos, 1
  {
    if pos < |src| {
      PeekLineStep(src, startLine, pos, lines, chars, buf, r);
    } else {
      PeekLoopDone(src, -1, startLine, [LF], pos, lines, chars, buf);
    }
  }

  /** `PeekLineLoop` over the character at `pos`. */
  lemma {:induction false} PeekLineStep(src: seq<u8>, startLine: nat, pos: nat, lines: nat, chars: nat,
                                        buf: seq<u8>, r: Result<Scan, Located>)
    requires pos < |src| && ValidFrom(src, pos) && Walkable(src, pos) && |buf| == 1
    requires r == PeekLoop(src, -1, startLine, [LF], pos, lines, chars, buf)
    ensures r.Ok? && LineEnd(src, pos, r.value.end)
    decreases |src| - pos, 0
  {
    var w, lines' := PeekLineTake(src, startLine, pos, lines, chars, buf);
    if src[pos] != LF {
      PeekLineLoop(src, startLine, pos + w, lines', chars + 1, [src[pos]], r);
      var e := r.value.end;
      forall k | pos <= k < e - 1 ensures src[k] != LF {
      }
    }
  }

  /** One character of the scan up to a newline: the match buffer then
      holds its lead byte, which matches exactly when it is the newline. */
  lemma PeekLineTake(src: seq<u8>, startLine: nat, pos: nat, lines: nat, chars: nat, buf: seq<u8>)
    returns (w: nat, lines': nat)
    requires pos < |src| && ValidFrom(src, pos) && Walkable(src, pos) && |buf| == 1
    ensures 1 <= w && pos + w <= |src| && ValidFrom(src, pos + w) && Walkable(src, pos + w)
    ensures forall k :: pos < k < pos + w ==> src[k] != LF
    ensures src[pos] == LF ==> PeekLoop(src, -1, startLine, [LF], pos, lines, chars, buf)
                               == Ok(Scan(pos + 1, lines + 1))
    ensures src[pos] != LF ==> PeekLoop(src, -1, startLine, [LF], pos, lines, chars, buf)
                               == PeekLoop(src, -1, startLine, [LF], pos + w, lines', chars + 1, [src[pos]])
  {
    ValidStep(src, pos);
    w := Width(src[pos]);
    lines' := if w == 1 && src[pos] == LF then lines + 1 else lines;
    ValidWalkable(src, pos + w);
    forall k | pos < k < pos + w ensures src[k] != LF {
      assert IsTail(src[k]);
    }
    assert PushedAsWritten(buf, src[pos..pos + w]) == [src[pos]];
    PeekLoopStep(src, -1, startLine, [LF], pos, lines, chars, buf);
  }

  /** The unbounded peek up to a newline from `from`, over well-formed
      text. */
  lemma PeekLine(src: seq<u8>, from: nat, startLine: nat)
    requires from <= |src| && ValidFrom(src, from)
    ensures Walkable(src, from)
    ensures var r := PeekSpec(src, from, -1, startLine, [LF]);
      && r.Ok? && from + |r.value.slice| <= |src|
      && r.value.slice == src[from..from + |r.value.slice|]
      && LineEnd(src, from, from + |r.value.slice|)
      && r.value.lines == multiset(r.value.slice)[LF]
      && ValidUtf8(r.value.slice)
  {
    ValidWalkable(src, from);
    PeekValid(src, from, -1, startLine, [LF]);
    var s := PeekLoop(src, -1, startLine, [LF], from, 0, 0, Zeros(1));
    PeekLineLoop(src, startLine, from, 0, 0, Zeros(1), s);
    ValidPrefix(src, from, s.value.end);
  }

  // ---------------------------------------------------------------------
  // Peek::starts_with

  /** The bytes `pat` begin `slice`. */
  predicate HasPrefix(slice: seq<u8>, pat: seq<u8>) {
    |pat| <= |slice| && slice[..|pat|] == pat
  }

  /** `Peek::starts_with`: the look-ahead is at least as long as `pat` and
      agrees with it byte by byte. */
  method StartsWith(p: Peek, pat: seq<u8>) returns (b: bool)
    ensures b <==> HasPrefix(p.slice, pat)
  {
    if |p.slice| < |pat| {
      return false;
    }
    for i := 0 to |pat|
      invariant forall k :: 0 <= k < i ==> p.slice[k] == pat[k]
    {
      if pat[i] != p.slice[i] {
        return false;
      }
    }
    assert p.slice[..|pat|] == pat;
    return true;
  }

  // ---------------------------------------------------------------------
  // The lexer

  predicate IsSpace(c: u8) {
    c == SPACE || c == TAB || c == CR || c == LF
  }

  /** The result of `try_parse_comment_or_docstring` and the lexer position
      and line it leaves (it may have advanced even when it fails). */
  datatype CommentOutcome = CommentOutcome(result: Result<Option<Token>, Located>, pos: nat, line: nat)

  /** The result of one call of `next` and the position and line it leaves;
      `None` ends the iteration. */
  datatype LexStep = LexStep(item: Option<Lexed>, pos: nat, line: nat)

  /** Any peek over well-formed text succeeds and stops on a character
      boundary, leaving well-formed text behind. */
  lemma PeekKeepsValid(src: seq<u8>, from: nat, len: int, startLine: nat, until: seq<u8>)
    requires from <= |src| && ValidFrom(src, from)
    ensures Walkable(src, from)
    ensures var r := PeekSpec(src, from, len, startLine, until);
      && r.Ok? && r.value.from == from
      && from + |r.value.slice| <= |src|
      && ValidFrom(src, from + |r.value.slice|)
  {
    PeekValid(src, from, len, startLine, until);
  }

  /** The rest of a `///` docstring line, from `pos` just after the `///`:
      an unbounded peek up to and including the next newline, checked to be
      UTF-8 and committed. */
  function DocstringSpec(src: seq<u8>, pos: nat, line: nat): (r: CommentOutcome)
    requires pos <= |src| && ValidFrom(src, pos)
    ensures pos <= r.pos <= |src| && ValidFrom(src, r.pos)
    ensures r.result.Ok? ==> r.result.value.Some?
  {
    ValidWalkable(src, pos);
    var peek := PeekSpec(src, pos, -1, line, [LF]);
    if peek.Err? then CommentOutcome(Err(peek.error), pos, line)
    else
      var rest := peek.value;
      PeekKeepsValid(src, pos, -1, line, [LF]);
      if !ValidUtf8(rest.slice) then CommentOutcome(Err(Located(line, Utf8Error)), pos, line)
      else CommentOutcome(Ok(Some(DocstringLine(rest.slice))), pos + |rest.slice|, line + rest.lines)
  }

  /** Skipping a comment that starts at `pos`: an unbounded peek up to and
      including `until`, committed. */
  function SkipSpec(src: seq<u8>, pos: nat, line: nat, until: seq<u8>): (r: CommentOutcome)
    requires pos < |src| && ValidFrom(src, pos)
    ensures r.result.Ok? ==> r.result == Ok(None) && pos < r.pos
    ensures pos <= r.pos <= |src| && ValidFrom(src, r.pos)
  {
    PeekProgress(src, pos, -1, line, until);
    var peek := PeekSpec(src, pos, -1, line, until);
    if peek.Err? then CommentOutcome(Err(peek.error), pos, line)
    else
      PeekKeepsValid(src, pos, -1, line, until);
      CommentOutcome(Ok(None), pos + |peek.value.slice|, line + peek.value.lines)
  }

  /** `try_parse_comment_or_docstring` from position `pos` on line `line`:
      a three-character look-ahead decides between a `///` docstring line
      (the rest of the line, newline included), a `/* */` block comment, a
      `//` line comment, and `UnexpectedChar`. */
  function CommentSpec(src: seq<u8>, pos: nat, line: nat): (r: CommentOutcome)
    requires pos <= |src| && ValidFrom(src, pos)
    ensures pos <= r.pos <= |src| && ValidFrom(src, r.pos)
    ensures r.result.Ok? ==> pos < r.pos
  {
    ValidWalkable(src, pos);
    var peek := PeekSpec(src, pos, 3, line, []);
    if peek.Err? then CommentOutcome(Err(peek.error), pos, line)
    else
      var p := peek.value;
      PeekKeepsValid(src, pos, 3, line, []);
      if HasPrefix(p.slice, [SLASH, SLASH, SLASH]) then
        DocstringSpec(src, pos + |p.slice|, line + p.lines)
      else if HasPrefix(p.slice, [SLASH, STAR]) then
        SkipSpec(src, pos, line, [STAR, SLASH])
      else if HasPrefix(p.slice, [SLASH, SLASH]) then
        SkipSpec(src, pos, line, [LF])
      else
        CommentOutcome(Err(Located(line, UnexpectedChar)), pos, line)
  }

  /** `CommentSpec` once the three-character look-ahead `p` is known: which
      branch it takes. */
  lemma CommentCases(src: seq<u8>, pos: nat, line: nat, p: Peek)
    requires pos <= |src| && ValidFrom(src, pos)
    requires PeekSpec(src, pos, 3, line, []) == Ok(p)
    ensures p.from == pos && pos + |p.slice| <= |src| && ValidFrom(src, pos + |p.slice|)
    ensures HasPrefix(p.slice, [SLASH, SLASH, SLASH]) ==>
      CommentSpec(src, pos, line) == DocstringSpec(src, pos + |p.slice|, line + p.lines)
    ensures !HasPrefix(p.slice, [SLASH, SLASH, SLASH]) && HasPrefix(p.slice, [SLASH, STAR]) ==>
      pos < |src| && CommentSpec(src, pos, line) == SkipSpec(src, pos, line, [STAR, SLASH])
    ensures !HasPrefix(p.slice, [SLASH, SLASH, SLASH]) && !HasPrefix(p.slice, [SLASH, STAR]) &&
            HasPrefix(p.slice, [SLASH, SLASH]) ==>
      pos < |src| && CommentSpec(src, pos, line) == SkipSpec(src, pos, line, [LF])
    ensures !HasPrefix(p.slice, [SLASH, SLASH, SLASH]) && !HasPrefix(p.slice, [SLASH, STAR]) &&
            !HasPrefix(p.slice, [SLASH, SLASH]) ==>
      CommentSpec(src, pos, line) == CommentOutcome(Err(Located(line, UnexpectedChar)), pos, line)
  {
    PeekKeepsValid(src, pos, 3, line, []);
    if HasPrefix(p.slice, [SLASH, SLASH, SLASH]) {
    } else if HasPrefix(p.slice, [SLASH, STAR]) {
    } else if HasPrefix(p.slice, [SLASH, SLASH]) {
    }
  }

  /** A docstring line over well-formed text is the text after the `///`
      up to and including the first newline, or to the end of the input
      when there is none; the lexer moves past it and counts its newline. */
  lemma DocstringRestOfLine(src: seq<u8>, pos: nat, line: nat)
    requires pos <= |src| && ValidFrom(src, pos)
    ensures var r := DocstringSpec(src, pos, line);
      && r.result == Ok(Some(DocstringLine(src[pos..r.pos])))
      && LineEnd(src, pos, r.pos)
      && r.line == line + multiset(src[pos..r.pos])[LF]
  {
    PeekLine(src, pos, line);
  }

  /** A line comment is skipped up to and including the first newline, or
      to the end of the input when there is none, without a token. */
  lemma LineCommentRestOfLine(src: seq<u8>, pos: nat, line: nat)
    requires pos < |src| && ValidFrom(src, pos)
    ensures var r := SkipSpec(src, pos, line, [LF]);
      && r.result == Ok(None)
      && LineEnd(src, pos, r.pos)
      && r.line == line + multiset(src[pos..r.pos])[LF]
  {
    PeekLine(src, pos, line);
  }

  /** `e` ends the block comment whose opener `[SLASH, STAR]` is at
      `pos`: it lies just after the first terminator `[STAR, SLASH]` whose
      slash comes after the opener (so the opener's star can already begin
      it), or at the end of `src` when there is none. */
  ghost predicate CommentEnd(src: seq<u8>, pos: nat, e: nat)
    requires pos + 2 <= e <= |src|
  {
    && (forall k :: pos + 2 <= k < e - 1 ==> !(src[k - 1] == STAR && src[k] == SLASH))
    && (e == |src| || (pos + 3 <= e && src[e - 2] == STAR && src[e - 1] == SLASH))
  }

  /** The unbounded scan up to the terminator `[STAR, SLASH]` over
      well-formed text, from a position `pos` whose byte before it is a star
      exactly when the match buffer ends in one: it stops just after the
      first terminator whose slash is at `pos` or later, or at the end of
      the input. */
  lemma {:induction false} BlockCommentLoop(src: seq<u8>, startLine: nat, pos: nat, lines: nat, chars: nat,
                                            buf: seq<u8>, r: Result<Scan, Located>)
    requires 1 <= pos <= |src| && ValidFrom(src, pos) && Walkable(src, pos) && |buf| == 2
    requires buf[1] == STAR <==> src[pos - 1] == STAR
    requires r == PeekLoop(src, -1, startLine, [STAR, SLASH], pos, lines, chars, buf)
    ensures r.Ok? && pos <= r.value.end
    ensures forall k :: pos <= k < r.value.end - 1 ==> !(src[k - 1] == STAR && src[k] == SLASH)
    ensures r.value.end == |src| || (pos < r.value.end && src[r.value.end - 2] == STAR && src[r.value.end - 1] == SLASH)
    decreases |src| - pos, 1
  {
    if pos < |src| {
      BlockCommentStep(src, startLine, pos, lines, chars, buf, r);
    } else {
      PeekLoopDone(src, -1, startLine, [STAR, SLASH], pos, lines, chars, buf);
    }
  }

  /** `BlockCommentLoop` over the character at `pos`: a one-byte character
      closes the comment when it is a slash after a star; a wider one holds
      neither byte and cannot close it. */
  lemma {:induction false} BlockCommentStep(src: seq<u8>, startLine: nat, pos: nat, lines: nat, chars: nat,
                                            buf: seq<u8>, r: Result<Scan, Located>)
    requires 1 <= pos < |src| && ValidFrom(src, pos) && Walkable(src, pos) && |buf| == 2
    requires buf[1] == STAR <==> src[pos - 1] == STAR
    requires r == PeekLoop(src, -1, startLine, [STAR, SLASH], pos, lines, chars, buf)
    ensures r.Ok? && pos <= r.value.end
    ensures forall k :: pos <= k < r.value.end - 1 ==> !(src[k - 1] == STAR && src[k] == SLASH)
    ensures r.value.end == |src| || (pos < r.value.end && src[r.value.end - 2] == STAR && src[r.value.end - 1] == SLASH)
    decreases |src| - pos, 0
  {
    ValidStep(src, pos);
    var w, lines', buf', stop := BlockCommentTake(src, startLine, pos, lines, chars, buf);
    if w == 1 {
      if !stop {
        BlockCommentLoop(src, startLine, pos + 1, lines', chars + 1, buf', r);
      }
    } else {
      BlockCommentLoop(src, startLine, pos + w, lines', chars + 1, buf', r);
      forall k | pos <= k < r.value.end - 1 && k < pos + w
        ensures !(src[k - 1] == STAR && src[k] == SLASH)
      {
        assert k == pos || IsTail(src[k]);
      }
    }
  }

  /** One character of the scan up to `[STAR, SLASH]` over well-formed
      text: a one-byte character moves into the buffer after the byte
      before it; a wider one fills the buffer with its first two bytes,
      neither of them a star, and never matches. */
  lemma BlockCommentTake(src: seq<u8>, startLine: nat, pos: nat, lines: nat, chars: nat, buf: seq<u8>)
    returns (w: nat, lines': nat, buf': seq<u8>, stop: bool)
    requires pos < |src| && ValidFrom(src, pos) && Walkable(src, pos) && |buf| == 2
    ensures w == Width(src[pos]) && 1 <= w && pos + w <= |src|
    ensures ValidFrom(src, pos + w) && Walkable(src, pos + w) && |buf'| == 2
    ensures w == 1 ==> buf'[1] == src[pos] && (stop <==> buf[1] == STAR && src[pos] == SLASH)
    ensures w > 1 ==> !stop && buf'[1] != STAR && src[pos + w - 1] != STAR && src[pos] != SLASH
    ensures w > 1 ==> forall k :: pos < k < pos + w ==> IsTail(src[k])
    ensures stop ==> PeekLoop(src, -1, startLine, [STAR, SLASH], pos, lines, chars, buf) == Ok(Scan(pos + w, lines'))
    ensures !stop ==> PeekLoop(src, -1, startLine, [STAR, SLASH], pos, lines, chars, buf)
                      == PeekLoop(src, -1, startLine, [STAR, SLASH], pos + w, lines', chars + 1, buf')
  {
    ValidStep(src, pos);
    w := Width(src[pos]);
    var ch := src[pos..pos + w];
    lines' := if w == 1 && src[pos] == LF then lines + 1 else lines;
    buf' := PushedAsWritten(buf, ch);
    stop := buf' == [STAR, SLASH];
    PushTwo(buf, ch);
    PeekLoopStep(src, -1, startLine, [STAR, SLASH], pos, lines, chars, buf);
    ValidWalkable(src, pos + w);
    if w == 1 {
      PairEq(buf[1], src[pos], STAR, SLASH);
    } else {
      PairEq(src[pos], src[pos + 1], STAR, SLASH);
      assert IsTail(src[pos + 1]) && IsTail(src[pos + w - 1]);
    }
  }

  lemma PairEq(a: u8, b: u8, c: u8, d: u8)
    ensures [a, b] == [c, d] <==> a == c && b == d
  {
    if [a, b] == [c, d] {
      assert [a, b][0] == [c, d][0] && [a, b][1] == [c, d][1];
    }
  }

  /** The scan up to `[STAR, SLASH]` over the opener `[SLASH, STAR]`: no
      match yet, and the buffer then holds the opener. */
  lemma BlockCommentOpener(src: seq<u8>, pos: nat, line: nat)
    requires pos + 2 <= |src| && src[pos] == SLASH && src[pos + 1] == STAR
    requires Walkable(src, pos)
    ensures Walkable(src, pos + 2)
    ensures PeekLoop(src, -1, line, [STAR, SLASH], pos, 0, 0, Zeros(2))
         == PeekLoop(src, -1, line, [STAR, SLASH], pos + 2, 0, 2, [SLASH, STAR])
  {
    assert Zeros(2) == [0, 0];
    PushTwo([0, 0], src[pos..pos + 1]);
    PushTwo([0, SLASH], src[pos + 1..pos + 2]);
    PeekLoopStep(src, -1, line, [STAR, SLASH], pos, 0, 0, Zeros(2));
    PeekLoopStep(src, -1, line, [STAR, SLASH], pos + 1, 0, 1, [0, SLASH]);
  }

  /** The unbounded peek up to `[STAR, SLASH]` from a block-comment opener
      over well-formed text: the bytes up to the end of the comment, with
      their newlines counted. */
  lemma BlockCommentPeek(src: seq<u8>, from: nat, startLine: nat)
    requires from + 2 <= |src| && ValidFrom(src, from)
    requires src[from] == SLASH && src[from + 1] == STAR
    ensures Walkable(src, from)
    ensures var r := PeekSpec(src, from, -1, startLine, [STAR, SLASH]);
      && r.Ok? && from + 2 <= from + |r.value.slice| <= |src|
      && r.value.slice == src[from..from + |r.value.slice|]
      && CommentEnd(src, from, from + |r.value.slice|)
      && r.value.lines == multiset(r.value.slice)[LF]
  {
    ValidWalkable(src, from);
    PeekValid(src, from, -1, startLine, [STAR, SLASH]);
    ValidStep(src, from);
    ValidStep(src, from + 1);
    BlockCommentOpener(src, from, startLine);
    var s := PeekLoop(src, -1, startLine, [STAR, SLASH], from + 2, 0, 2, [SLASH, STAR]);
    BlockCommentLoop(src, startLine, from + 2, 0, 2, [SLASH, STAR], s);
  }

  /** A block comment over well-formed text is skipped, without a token,
      up to and including the first terminator `[STAR, SLASH]` after its
      opener (or to the end of the input when it is never closed), and the
      line grows by the newlines in it. */
  lemma BlockCommentRest(src: seq<u8>, pos: nat, line: nat)
    requires pos + 2 <= |src| && ValidFrom(src, pos)
    requires src[pos] == SLASH && src[pos + 1] == STAR
    ensures var r := SkipSpec(src, pos, line, [STAR, SLASH]);
      && r.result == Ok(None)
      && pos + 2 <= r.pos <= |src|
      && CommentEnd(src, pos, r.pos)
      && r.line == line + multiset(src[pos..r.pos])[LF]
  {
    BlockCommentPeek(src, pos, line);
  }

  /** The end of a line is determined: `LineEnd` holds of one position
      only. */
  lemma LineEndUnique(src: seq<u8>, pos: nat, e: nat, e': nat)
    requires pos <= e <= |src| && pos <= e' <= |src|
    requires LineEnd(src, pos, e) && LineEnd(src, pos, e')
    ensures e == e'
  {
  }

  /** The end of a block comment is determined: `CommentEnd` holds of one
      position only. */
  lemma CommentEndUnique(src: seq<u8>, pos: nat, e: nat, e': nat)
    requires pos + 2 <= e <= |src| && pos + 2 <= e' <= |src|
    requires CommentEnd(src, pos, e) && CommentEnd(src, pos, e')
    ensures e == e'
  {
  }

  /** What `next` does with a first byte `c` that is neither whitespace nor
      `/`: a bracket token (without advancing), the hand-over to a
      sub-parser, or `UnexpectedChar` on line `line`. */
  function Dispatch(c: u8, line: nat): Lexed {
    if c == 'n' as u8 then Unimplemented(NullOrPropertyId)
    else if c == 't' as u8 || c == 'f' as u8 then Unimplemented(BoolOrPropertyId)
    else if c == '"' as u8 then Unimplemented(QuotedString)
    else if c == '#' as u8 then Unimplemented(StringLiteral)
    else if c == 'd' as u8 then Unimplemented(DedentStringOrPropertyId)
    else if 'a' as u8 <= c <= 'z' as u8 || 'A' as u8 <= c <= 'Z' as u8 || c == '_' as u8 then
      Unimplemented(PropertyIdentifier)
    else if c == '{' as u8 then Tok(ObjectStart)
    else if c == '}' as u8 then Tok(ObjectEnd)
    else if c == '[' as u8 then Tok(ArrayStart)
    else if c == ']' as u8 then Tok(ArrayEnd)
    else if '0' as u8 <= c <= '9' as u8 then Unimplemented(NumberOrDateTimeOrDate)
    else Failure(Located(line, UnexpectedChar))
  }

  /** What one round of the loop in `next` does at `pos`: carry on from a
      new position and line (after whitespace or a skipped comment), or stop
      with the item `next` returns. */
  datatype Round = Carry(pos: nat, line: nat) | Stop(step: LexStep)

  /** One round of the loop in `next` at `pos` on line `line`: a
      one-character look-ahead, then whitespace is committed, `/` goes to
      `try_parse_comment_or_docstring`, and any other byte is dispatched. */
  function NextRound(src: seq<u8>, pos: nat, line: nat): (r: Round)
    requires pos < |src| && ValidFrom(src, pos)
    ensures r.Carry? ==> pos < r.pos <= |src| && ValidFrom(src, r.pos)
    ensures r.Stop? ==> r.step.item.Some? && pos <= r.step.pos <= |src| && ValidFrom(src, r.step.pos)
  {
    ValidWalkable(src, pos);
    var peek := PeekSpec(src, pos, 1, line, []);
    if peek.Err? then Stop(LexStep(Some(Failure(peek.error)), pos, line))
    else
      var p := peek.value;
      PeekValid(src, pos, 1, line, []);
      PeekProgress(src, pos, 1, line, []);
      if |p.slice| != 1 then Stop(LexStep(Some(Failure(Located(line, UnexpectedChar))), pos, line))
      else if IsSpace(p.slice[0]) then Carry(pos + |p.slice|, line + p.lines)
      else if p.slice[0] == SLASH then
        var c := CommentSpec(src, pos, line);
        match c.result
        case Err(e) => Stop(LexStep(Some(Failure(e)), c.pos, c.line))
        case Ok(Some(t)) => Stop(LexStep(Some(Tok(t)), c.pos, c.line))
        case Ok(None) => Carry(c.pos, c.line)
      else Stop(LexStep(Some(Dispatch(p.slice[0], line)), pos, line))
  }

  /** `Lexer::next` from position `pos` on line `line`: run rounds of the
      loop until one stops; at the end of the input the iteration ends. */
  function NextSpec(src: seq<u8>, pos: nat, line: nat): (r: LexStep)
    requires pos <= |src| && ValidFrom(src, pos)
    ensures pos <= r.pos <= |src| && ValidFrom(src, r.pos)
    decreases |src| - pos
  {
    if pos >= |src| then LexStep(None, pos, line)
    else
      match NextRound(src, pos, line)
      case Stop(step) => step
      case Carry(pos', line') => NextSpec(src, pos', line')
  }

  /** The one-character look-ahead of `next` over the whole character
      `src[pos..pos + w]`. */
  lemma PeekOne(src: seq<u8>, pos: nat, line: nat)
    requires pos < |src| && pos + Width(src[pos]) <= |src|
    ensures var w := Width(src[pos]);
      PeekSpec(src, pos, 1, line, []) == Ok(Peek(src[pos..pos + w], pos, if w == 1 && src[pos] == LF then 1 else 0))
  {
    var w := Width(src[pos]);
    PeekLoopStep(src, 1, line, [], pos, 0, 0, []);
    PeekLoopDone(src, 1, line, [], pos + w, if w == 1 && src[pos] == LF then 1 else 0, 1, []);
  }

  /** A round of `next` on a whitespace byte commits just that byte. */
  lemma BlankRound(src: seq<u8>, pos: nat, line: nat)
    requires pos < |src| && ValidFrom(src, pos) && IsSpace(src[pos])
    ensures NextRound(src, pos, line) == Carry(pos + 1, line + if src[pos] == LF then 1 else 0)
  {
    ValidStep(src, pos);
    PeekOne(src, pos, line);
    assert src[pos..pos + 1] == [src[pos]];
  }

  /** Input that is only whitespace from `pos` on yields no item: `next`
      skips every remaining byte, counting the newlines, and ends. */
  lemma {:induction false} BlankInputEnds(src: seq<u8>, pos: nat, line: nat)
    requires pos <= |src|
    requires forall k :: pos <= k < |src| ==> IsSpace(src[k])
    ensures ValidFrom(src, pos)
    ensures NextSpec(src, pos, line) == LexStep(None, |src|, line + multiset(src[pos..])[LF])
    decreases |src| - pos
  {
    AsciiValid(src, pos);
    if pos < |src| {
      var line' := line + if src[pos] == LF then 1 else 0;
      BlankInputEnds(src, pos + 1, line');
      BlankRound(src, pos, line);
      NewlinesFront(src, pos);
    } else {
      assert src[pos..] == [];
    }
  }

  /** The newline bytes of a suffix: the first byte's, then the rest's. */
  lemma NewlinesFront(src: seq<u8>, pos: nat)
    requires pos < |src|
    ensures multiset(src[pos..])[LF] == (if src[pos] == LF then 1 else 0) + multiset(src[pos + 1..])[LF]
  {
    assert src[pos..] == [src[pos]] + src[pos + 1..];
  }

  predicate IsBracket(t: Token) {
    t.ObjectStart? || t.ObjectEnd? || t.ArrayStart? || t.ArrayEnd?
  }

  /** As written, `next` returns a bracket token without moving past the
      bracket: the lexer's position and line are unchanged, so every later
      call returns the same token again and the iteration never ends. */
  lemma BracketRepeats(src: seq<u8>, pos: nat, line: nat)
    requires pos < |src| && ValidFrom(src, pos)
    requires src[pos] in [0x7B, 0x7D, 0x5B, 0x5D]
    ensures var r := NextSpec(src, pos, line);
      r.item.Some? && r.item.value.Tok? && IsBracket(r.item.value.token) && r.pos == pos && r.line == line
  {
    PeekOne(src, pos, line);
    assert src[pos..pos + 1] == [src[pos]];
  }

  /** A round of `next` that stops on a bracket read it as the only byte of
      a one-character look-ahead, without consuming it. */
  lemma BracketRound(src: seq<u8>, pos: nat, line: nat)
    requires pos < |src| && ValidFrom(src, pos)
    ensures var r := NextRound(src, pos, line);
      r.Stop? && r.step.item.Some? && r.step.item.value.Tok? && IsBracket(r.step.item.value.token) ==>
        && r.step.pos == pos && r.step.line == line
        && src[pos] in [0x7B, 0x7D, 0x5B, 0x5D]
        && ValidFrom(src, pos + 1)
  {
    ValidWalkable(src, pos);
    ValidStep(src, pos);
    var peek := PeekSpec(src, pos, 1, line, []);
    if peek.Ok? {
      PeekValid(src, pos, 1, line, []);
      if |peek.value.slice| == 1 {
        assert peek.value.slice[0] == src[pos];
      }
    }
  }

  /** One round of `next` as evidently intended: a bracket token consumes
      its byte, as every other token does. */
  function NextRoundIntended(src: seq<u8>, pos: nat, line: nat): (r: Round)
    requires pos < |src| && ValidFrom(src, pos)
    ensures r.Carry? ==> pos < r.pos <= |src| && ValidFrom(src, r.pos)
    ensures r.Stop? ==> r.step.item.Some? && pos <= r.step.pos <= |src| && ValidFrom(src, r.step.pos)
    ensures r.Stop? && r.step.item.value.Tok? ==> pos < r.step.pos
  {
    BracketRound(src, pos, line);
    var r := NextRound(src, pos, line);
    if r.Stop? && r.step.item.value.Tok? && IsBracket(r.step.item.value.token) then
      Stop(LexStep(r.step.item, pos + 1, line))
    else
      r
  }

  /** `Lexer::next` as evidently intended: the rounds of
      `NextRoundIntended`. Every token it returns moves the lexer on. */
  function NextIntended(src: seq<u8>, pos: nat, line: nat): (r: LexStep)
    requires pos <= |src| && ValidFrom(src, pos)
    ensures pos <= r.pos <= |src| && ValidFrom(src, r.pos)
    ensures r.item.Some? && r.item.value.Tok? ==> pos < r.pos
    decreases |src| - pos
  {
    if pos >= |src| then LexStep(None, pos, line)
    else
      match NextRoundIntended(src, pos, line)
      case Stop(step) => step
      case Carry(pos', line') => NextIntended(src, pos', line')
  }

  /** With the correction, a bracket is returned once and the lexer moves
      to the byte after it, on the same line. */
  lemma BracketConsumed(src: seq<u8>, pos: nat, line: nat)
    requires pos < |src| && ValidFrom(src, pos)
    requires src[pos] in [0x7B, 0x7D, 0x5B, 0x5D]
    ensures var r := NextIntended(src, pos, line);
      r.item == Some(Dispatch(src[pos], line)) && IsBracket(r.item.value.token) && r.pos == pos + 1 && r.line == line
  {
    PeekOne(src, pos, line);
    assert src[pos..pos + 1] == [src[pos]];
    assert NextRound(src, pos, line) == Stop(LexStep(Some(Dispatch(src[pos], line)), pos, line));
  }

  /** The lexer over the bytes of a string (so well-formed UTF-8), with its
      cursor `pos` and 1-based line number. */
  class Lexer {
    const src: seq<u8>
    var pos: nat
    var line: nat

    /** The cursor stays on a character boundary of the input. */
    ghost predicate Valid()
      reads this
    {
      pos <= |src| && ValidFrom(src, pos)
    }

    /** `Lexer::from(&str)`. */
    constructor (s: seq<u8>)
      requires ValidUtf8(s)
      ensures src == s && pos == 0 && line == START_LINE
      ensures Valid()
    {
      src := s;
      pos := 0;
      line := START_LINE;
      assert s[0..] == s;
      ValidFromIsValidUtf8(s, 0);
    }

    /** `advance`: commit a look-ahead taken at the cursor (the program
        panics when it was taken elsewhere) that ends on a character
        boundary, as every look-ahead over well-formed text does. */
    method Advance(p: Peek)
      requires Valid()
      requires p.from == pos
      requires pos + |p.slice| <= |src| && ValidFrom(src, pos + |p.slice|)
      modifies this
      ensures pos == old(pos) + |p.slice| && line == old(line) + p.lines
      ensures Valid()
    {
      pos := pos + |p.slice|;
      line := line + p.lines;
    }

    /** The `///` branch of `try_parse_comment_or_docstring`, after the
        `///` has been committed: the rest of the line as a docstring. */
    method ParseDocstringLine() returns (r: Result<Option<Token>, Located>)
      requires Valid()
      modifies this
      ensures Valid()
      ensures CommentOutcome(r, pos, line) == DocstringSpec(src, old(pos), old(line))
    {
      ValidWalkable(src, pos);
      var rest := PeekFromSlice(src, pos, -1, line, [LF]);
      if rest.Err? {
        return Err(rest.error);
      }
      PeekKeepsValid(src, pos, -1, line, [LF]);
      if !ValidUtf8(rest.value.slice) {
        return Err(Located(line, Utf8Error));
      }
      Advance(rest.value);
      return Ok(Some(DocstringLine(rest.value.slice)));
    }

    /** The comment-skipping branches of `try_parse_comment_or_docstring`:
        an unbounded peek up to and including `until`, committed. */
    method SkipComment(until: seq<u8>) returns (r: Result<Option<Token>, Located>)
      requires Valid() && pos < |src|
      modifies this
      ensures Valid()
      ensures CommentOutcome(r, pos, line) == SkipSpec(src, old(pos), old(line), until)
    {
      ValidWalkable(src, pos);
      var rest := PeekFromSlice(src, pos, -1, line, until);
      if rest.Err? {
        return Err(rest.error);
      }
      PeekKeepsValid(src, pos, -1, line, until);
      Advance(rest.value);
      return Ok(None);
    }

    /** `try_parse_comment_or_docstring`. */
    method TryParseCommentOrDocstring() returns (r: Result<Option<Token>, Located>)
      requires Valid()
      modifies this
      ensures Valid()
      ensures CommentOutcome(r, pos, line) == CommentSpec(src, old(pos), old(line))
    {
      var peek := PeekFromSlice(src, pos, 3, line, []);
      if peek.Err? {
        return Err(peek.error);
      }
      r := CommentBranch(peek.value);
    }

    /** The branches of `try_parse_comment_or_docstring` once its
        three-character look-ahead `p` is known. */
    method CommentBranch(p: Peek) returns (r: Result<Option<Token>, Located>)
      requires Valid()
      requires PeekSpec(src, pos, 3, line, []) == Ok(p)
      modifies this
      ensures Valid()
      ensures CommentOutcome(r, pos, line) == CommentSpec(src, old(pos), old(line))
    {
      CommentCases(src, pos, line, p);
      var isDoc := StartsWith(p, [SLASH, SLASH, SLASH]);
      if isDoc {
        Advance(p);
        r := ParseDocstringLine();
        return;
      }
      var isBlock := StartsWith(p, [SLASH, STAR]);
      if isBlock {
        r := SkipComment([STAR, SLASH]);
        return;
      }
      var isLine := StartsWith(p, [SLASH, SLASH]);
      if isLine {
        r := SkipComment([LF]);
        return;
      }
      return Err(Located(line, UnexpectedChar));
    }

    /** One round of the loop in `Iterator::next`: `done` tells whether
        `next` returns `item` now. */
    method NextRoundStep() returns (done: bool, item: Option<Lexed>)
      requires Valid() && pos < |src|
      modifies this
      ensures Valid()
      ensures done ==> NextRound(src, old(pos), old(line)) == Stop(LexStep(item, pos, line))
      ensures !done ==> NextRound(src, old(pos), old(line)) == Carry(pos, line)
    {
      var peek := PeekFromSlice(src, pos, 1, line, []);
      if peek.Err? {
        return true, Some(Failure(peek.error));
      }
      var p := peek.value;
      PeekKeepsValid(src, pos, 1, line, []);
      if |p.slice| != 1 {
        return true, Some(Failure(Located(line, UnexpectedChar)));
      }
      if IsSpace(p.slice[0]) {
        Advance(p);
        return false, None;
      } else if p.slice[0] == SLASH {
        var r := TryParseCommentOrDocstring();
        match r
        case Err(e) => return true, Some(Failure(e));
        case Ok(Some(t)) => return true, Some(Tok(t));
        case Ok(None) => return false, None;
      } else {
        return true, Some(Dispatch(p.slice[0], line));
      }
    }

    /** `Iterator::next`. */
    method Next() returns (item: Option<Lexed>)
      requires Valid()
      modifies this
      ensures Valid()
      ensures LexStep(item, pos, line) == NextSpec(src, old(pos), old(line))
    {
      while pos < |src|
        invariant Valid()
        invariant NextSpec(src, pos, line) == NextSpec(src, old(pos), old(line))
        decreases |src| - pos
      {
        var done;
        done, item := NextRoundStep();
        if done {
          return;
        }
      }
      return None;
    }
  }
}
