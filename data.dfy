/** Gunny's data values: the Markdown front-matter splitter, the
    float/signed/unsigned `Number` with its equality and checked integer
    conversions, and the `Value` tree with its accessors and conversions. */
module GunnyData {
  import opened Wrappers
  import opened Ints

  // ---------------------------------------------------------------------
  // Splitting text on a delimiter (`str::split` with a string pattern)

  /** `d` occurs in `s` starting at index `i`. */
  predicate OccursAt(s: string, d: string, i: nat) {
    i + |d| <= |s| && s[i..i + |d|] == d
  }

  ghost predicate NoOccurrence(s: string, d: string) {
    forall i: nat :: !OccursAt(s, d, i)
  }

  /** The first occurrence of `d` in `s` at or after `i`. */
  function Find(s: string, d: string, i: nat): (r: Option<nat>)
    requires |d| > 0
    ensures r.Some? ==> i <= r.value && OccursAt(s, d, r.value)
    ensures forall p: nat :: i <= p && (r.None? || p < r.value) ==> !OccursAt(s, d, p)
    decreases |s| - i
  {
    if i + |d| > |s| then None
    else if s[i..i + |d|] == d then Some(i)
    else Find(s, d, i + 1)
  }

  /** The pieces of `s` between the occurrences of `d`, found left to
      right; there is always at least one piece. */
  function Split(s: string, d: string): (parts: seq<string>)
    requires |d| > 0
    ensures |parts| >= 1
    decreases |s|
  {
    match Find(s, d, 0)
    case None => [s]
    case Some(i) => [s[..i]] + Split(s[i + |d|..], d)
  }

  /** The pieces joined back with `d` between them. */
  function Join(parts: seq<string>, d: string): string
    requires |parts| >= 1
  {
    if |parts| == 1 then parts[0] else parts[0] + d + Join(parts[1..], d)
  }

  /** Splitting loses nothing: joining the pieces with the delimiter gives
      the text back, and no piece holds the delimiter. */
  lemma SplitJoin(s: string, d: string)
    requires |d| > 0
    ensures Join(Split(s, d), d) == s
    ensures forall k :: 0 <= k < |Split(s, d)| ==> NoOccurrence(Split(s, d)[k], d)
  {
    JoinSplit(s, d);
    PiecesFree(s, d);
  }

  lemma {:induction false} JoinSplit(s: string, d: string)
    requires |d| > 0
    ensures Join(Split(s, d), d) == s
    decreases |s|
  {
    match Find(s, d, 0)
    case None =>
    case Some(i) =>
      var rest := s[i + |d|..];
      JoinSplit(rest, d);
      Around(s, d, i);
      assert Split(s, d)[1..] == Split(rest, d);
  }

  /** An occurrence cuts the text into the part before, the delimiter and
      the part after. */
  lemma Around(s: string, d: string, i: nat)
    requires OccursAt(s, d, i)
    ensures s == s[..i] + d + s[i + |d|..]
  {
  }

  lemma {:induction false} PiecesFree(s: string, d: string)
    requires |d| > 0
    ensures forall k :: 0 <= k < |Split(s, d)| ==> NoOccurrence(Split(s, d)[k], d)
    decreases |s|
  {
    match Find(s, d, 0)
    case None =>
      forall p: nat ensures !OccursAt(s, d, p) { }
    case Some(i) =>
      var rest := s[i + |d|..];
      PiecesFree(rest, d);
      PrefixBeforeFirst(s, d, i);
      assert Split(s, d) == [s[..i]] + Split(rest, d);
  }

  /** The text before the first occurrence holds none. */
  lemma PrefixBeforeFirst(s: string, d: string, i: nat)
    requires |d| > 0 && i <= |s|
    requires forall p: nat :: p < i ==> !OccursAt(s, d, p)
    ensures NoOccurrence(s[..i], d)
  {
    forall p: nat ensures !OccursAt(s[..i], d, p) {
      if p + |d| <= i {
        assert !OccursAt(s, d, p);
        assert s[..i][p..p + |d|] == s[p..p + |d|];
      }
    }
  }

  /** The pieces that are not empty, in order (`filter(|p| !p.is_empty())`). */
  function NonEmpty(parts: seq<string>): (r: seq<string>)
    ensures |r| <= |parts|
    ensures forall k :: 0 <= k < |r| ==> r[k] != ""
  {
    if |parts| == 0 then []
    else (if parts[0] != "" then [parts[0]] else []) + NonEmpty(parts[1..])
  }

  // ---------------------------------------------------------------------
  // split_front_matter

  const DELIMITERS: seq<string> := ["---\n", "---\r\n"]

  predicate StartsWith(s: string, p: string) {
    |p| <= |s| && s[..|p|] == p
  }

  /** What `split_front_matter` returns: the front matter, if any, and the
      body. */
  datatype Document = Document(frontMatter: Option<string>, body: string)

  /** The loop of `split_front_matter` from the `k`-th delimiter on: a
      delimiter the content starts with splits it, and exactly two
      non-empty pieces are the front matter and the body. */
  function TryDelimiters(content: string, k: nat): Document
    requires k <= |DELIMITERS|
    decreases |DELIMITERS| - k
  {
    if k == |DELIMITERS| then Document(None, content)
    else
      var d := DELIMITERS[k];
      if StartsWith(content, d) then
        var parts := NonEmpty(Split(content, d));
        if |parts| == 2 then Document(Some(parts[0]), parts[1])
        else TryDelimiters(content, k + 1)
      else TryDelimiters(content, k + 1)
  }

  /** `split_front_matter`. */
  function SplitFrontMatter(content: string): Document {
    TryDelimiters(content, 0)
  }

  /** Text that does not start with a delimiter has no front matter and is
      all body. */
  lemma NoDelimiterNoFrontMatter(content: string)
    requires !StartsWith(content, "---\n") && !StartsWith(content, "---\r\n")
    ensures SplitFrontMatter(content) == Document(None, content)
  {
  }

  /** `n` copies of `d`. */
  function Repeat(d: string, n: nat): string {
    if n == 0 then "" else d + Repeat(d, n - 1)
  }

  /** A delimiter whose last character appears nowhere else in it; both
      delimiters end in their only line feed. */
  predicate LastOnlyAtEnd(d: string) {
    |d| > 0 && forall k :: 0 <= k < |d| - 1 ==> d[k] != d[|d| - 1]
  }

  lemma DelimitersEndOnce(d: string)
    requires d in DELIMITERS
    ensures LastOnlyAtEnd(d)
  {
  }

  /** An occurrence in `x + d + rest` cannot start inside a piece `x`
      that holds none: it would end inside `x` or before the end of the
      delimiter that follows. */
  lemma NoStraddle(x: string, d: string, rest: string, p: nat)
    requires LastOnlyAtEnd(d) && NoOccurrence(x, d) && p < |x|
    ensures !OccursAt(x + d + rest, d, p)
  {
    var s := x + d + rest;
    if p + |d| <= |x| {
      assert s[p..p + |d|] == x[p..p + |d|];
      assert !OccursAt(x, d, p);
    } else if p + |d| <= |s| {
      var q := p + |d| - 1;
      assert s[q] == d[q - |x|];
      assert s[p..p + |d|][|d| - 1] == s[q];
    }
  }

  /** A piece free of the delimiter, followed by the delimiter, is split
      off whole. */
  lemma SplitFirst(x: string, d: string, rest: string)
    requires LastOnlyAtEnd(d) && NoOccurrence(x, d)
    ensures Split(x + d + rest, d) == [x] + Split(rest, d)
  {
    var s := x + d + rest;
    assert OccursAt(s, d, |x|) by { assert s[|x|..|x| + |d|] == d; }
    var r := Find(s, d, 0);
    assert r.Some? && r.value <= |x|;
    if r.value < |x| {
      NoStraddle(x, d, rest, r.value);
    }
    assert s[..|x|] == x;
    assert s[|x| + |d|..] == rest;
  }

  /** A text free of the delimiter is a single piece. */
  lemma SplitNone(x: string, d: string)
    requires |d| > 0 && NoOccurrence(x, d)
    ensures Split(x, d) == [x]
  {
  }

  lemma Assoc<T>(a: seq<T>, b: seq<T>, c: seq<T>)
    ensures a + b + c == a + (b + c)
  {
  }

  /** Text starting with the delimiter has an empty first piece. */
  lemma SplitLeading(d: string, rest: string)
    requires LastOnlyAtEnd(d)
    ensures Split(d + rest, d) == [""] + Split(rest, d)
  {
    assert NoOccurrence("", d);
    SplitFirst("", d, rest);
    assert "" + d + rest == d + rest;
  }

  lemma SplitEmpty(d: string)
    requires |d| > 0
    ensures Split("", d) == [""]
  {
    SplitNone("", d);
  }

  lemma NonEmptyAppend(a: seq<string>, b: seq<string>)
    ensures NonEmpty(a + b) == NonEmpty(a) + NonEmpty(b)
  {
    if |a| > 0 {
      assert (a + b)[1..] == a[1..] + b;
      NonEmptyAppend(a[1..], b);
    } else {
      assert a + b == b;
    }
  }

  /** Which delimiter decides: text starting with one of the delimiters
      does not start with the other, so the split is by that delimiter
      alone. */
  lemma {:induction false} DecidedBy(content: string, d: string)
    requires d in DELIMITERS && StartsWith(content, d)
    ensures var parts := NonEmpty(Split(content, d));
      SplitFrontMatter(content) ==
        if |parts| == 2 then Document(Some(parts[0]), parts[1]) else Document(None, content)
  {
    if d == "---\n" {
      assert content[3] == d[3];
      assert !StartsWith(content, "---\r\n");
    } else {
      assert content[3] == d[3];
      assert !StartsWith(content, "---\n");
    }
  }

  /** `d` starts every text that is `d` followed by more. */
  lemma PrefixStarts(d: string, rest: string)
    ensures StartsWith(d + rest, d)
  {
    assert (d + rest)[..|d|] == d;
  }

  /** The non-empty pieces of the short lists a split of a document
      gives. */
  lemma NonEmptyOfPieces(x: string, y: string, z: string)
    requires x != ""
    ensures y != "" ==> NonEmpty(["", x, y]) == [x, y]
    ensures y == "" ==> NonEmpty(["", x, y]) == [x]
    ensures y != "" && z != "" ==> NonEmpty(["", x, y, z]) == [x, y, z]
    ensures y != "" && z == "" ==> NonEmpty(["", x, y, z]) == [x, y]
  {
    assert NonEmpty([z]) == (if z != "" then [z] else []) by { assert [z][1..] == []; }
    assert NonEmpty([y]) == (if y != "" then [y] else []) by { assert [y][1..] == []; }
    assert NonEmpty([y, z]) == NonEmpty([y]) + NonEmpty([z]) by { assert [y, z][1..] == [z]; }
    assert NonEmpty([x, y]) == [x] + NonEmpty([y]) by { assert [x, y][1..] == [y]; }
    assert NonEmpty([x, y, z]) == [x] + NonEmpty([y, z]) by { assert [x, y, z][1..] == [y, z]; }
    assert NonEmpty(["", x, y]) == NonEmpty([x, y]) by { assert ["", x, y][1..] == [x, y]; }
    assert NonEmpty(["", x, y, z]) == NonEmpty([x, y, z]) by { assert ["", x, y, z][1..] == [x, y, z]; }
  }

  /** The document `d + fm + d + body`, with non-empty front matter and
      body holding no delimiter, splits into exactly those two. */
  lemma {:induction false} FrontMatterOfDocument(d: string, fm: string, body: string)
    requires d in DELIMITERS && fm != "" && body != ""
    requires NoOccurrence(fm, d) && NoOccurrence(body, d)
    ensures SplitFrontMatter(d + fm + d + body) == Document(Some(fm), body)
  {
    DelimitersEndOnce(d);
    var r := fm + d + body;
    var c := d + r;
    SplitNone(body, d);
    SplitFirst(fm, d, body);
    assert Split(r, d) == [fm, body];
    SplitLeading(d, r);
    assert Split(c, d) == ["", fm, body];
    NonEmptyOfPieces(fm, body, "");
    PrefixStarts(d, r);
    DecidedBy(c, d);
    Assoc(d, fm + d, body);
    Assoc(d, fm, d);
  }

  /** A body that holds a further delimiter gives three pieces, so the whole
      text is body. */
  lemma {:induction false} FurtherDelimiterNoFrontMatter(d: string, fm: string, x: string, y: string)
    requires d in DELIMITERS && fm != "" && x != "" && y != ""
    requires NoOccurrence(fm, d) && NoOccurrence(x, d) && NoOccurrence(y, d)
    ensures SplitFrontMatter(d + fm + d + x + d + y) == Document(None, d + fm + d + x + d + y)
  {
    DelimitersEndOnce(d);
    var r1 := x + d + y;
    var r2 := fm + d + r1;
    var c := d + r2;
    SplitNone(y, d);
    SplitFirst(x, d, y);
    assert Split(r1, d) == [x, y];
    SplitFirst(fm, d, r1);
    assert Split(r2, d) == [fm, x, y];
    SplitLeading(d, r2);
    assert Split(c, d) == ["", fm, x, y];
    NonEmptyOfPieces(fm, x, y);
    PrefixStarts(d, r2);
    DecidedBy(c, d);
    Assoc(x, d, y);
    Assoc(fm, d, x + (d + y));
    Assoc(d + fm + d + x, d, y);
    Assoc(d + fm + d, x, d + y);
    Assoc(d + fm, d, x + (d + y));
    Assoc(d, fm, d + (x + (d + y)));
  }

  /** A document whose body is empty has no front matter. */
  lemma {:induction false} EmptyBodyNoFrontMatter(d: string, fm: string)
    requires d in DELIMITERS && fm != "" && NoOccurrence(fm, d)
    ensures SplitFrontMatter(d + fm + d) == Document(None, d + fm + d)
  {
    DelimitersEndOnce(d);
    var r := fm + d + "";
    var c := d + r;
    SplitEmpty(d);
    SplitFirst(fm, d, "");
    assert Split(r, d) == [fm, ""];
    SplitLeading(d, r);
    assert Split(c, d) == ["", fm, ""];
    NonEmptyOfPieces(fm, "", "");
    PrefixStarts(d, r);
    DecidedBy(c, d);
    assert fm + d + "" == fm + d;
    Assoc(d, fm, d);
  }

  /** A delimiter at the very end leaves an empty piece, which is dropped. */
  lemma {:induction false} TrailingDelimiterDropped(d: string, fm: string, body: string)
    requires d in DELIMITERS && fm != "" && body != ""
    requires NoOccurrence(fm, d) && NoOccurrence(body, d)
    ensures SplitFrontMatter(d + fm + d + body + d) == Document(Some(fm), body)
  {
    DelimitersEndOnce(d);
    var r1 := body + d + "";
    var r2 := fm + d + r1;
    var c := d + r2;
    SplitEmpty(d);
    SplitFirst(body, d, "");
    assert Split(r1, d) == [body, ""];
    SplitFirst(fm, d, r1);
    assert Split(r2, d) == [fm, body, ""];
    SplitLeading(d, r2);
    assert Split(c, d) == ["", fm, body, ""];
    NonEmptyOfPieces(fm, body, "");
    PrefixStarts(d, r2);
    DecidedBy(c, d);
    assert body + d + "" == body + d;
    Assoc(fm, d, body + d);
    Assoc(d + fm + d, body, d);
    Assoc(d + fm, d, body + d);
    Assoc(d, fm, d + (body + d));
  }

  /** A text without the delimiter's first character holds no delimiter. */
  lemma WithoutFirstChar(s: string, d: string)
    requires |d| > 0 && d[0] !in s
    ensures NoOccurrence(s, d)
  {
    forall p: nat ensures !OccursAt(s, d, p) {
      if p + |d| <= |s| {
        assert s[p..p + |d|][0] == s[p];
      }
    }
  }

  const TEST_FRONT_MATTER: string := "title: Blog post\n" + "description: " + "My first blog post\n"
  const TEST_BODY: string := "Content goes **here**.\n" + "\nAnd here.\n"

  /** The Markdown document of the program's own test: the two YAML lines
      are the front matter and the rest is the body. */
  lemma TestDocument()
    ensures SplitFrontMatter("---\n" + TEST_FRONT_MATTER + "---\n" + TEST_BODY)
      == Document(Some(TEST_FRONT_MATTER), TEST_BODY)
  {
    assert '-' !in TEST_FRONT_MATTER by {
      assert '-' !in "title: Blog post\n";
      assert '-' !in "description: ";
      assert '-' !in "My first blog post\n";
    }
    assert '-' !in TEST_BODY by {
      assert '-' !in "Content goes **here**.\n";
      assert '-' !in "\nAnd here.\n";
    }
    WithoutFirstChar(TEST_FRONT_MATTER, "---\n");
    WithoutFirstChar(TEST_BODY, "---\n");
    FrontMatterOfDocument("---\n", TEST_FRONT_MATTER, TEST_BODY);
  }

  // ---------------------------------------------------------------------
  // The shape of every split

  /** The pieces of `NonEmpty(parts) == [x, y]`: `x` and `y` at two
      positions, every other piece empty. */
  lemma {:induction false} TwoNonEmpty(parts: seq<string>, x: string, y: string) returns (i: nat, j: nat)
    requires NonEmpty(parts) == [x, y]
    ensures i < j < |parts| && parts == Empties(i) + [x] + Empties(j - i - 1) + [y] + Empties(|parts| - j - 1)
    ensures parts[i] == x && parts[j] == y
  {
    i := SplitAtFirst(parts);
    var rest := parts[i + 1..];
    var j' := SplitAtFirst(rest);
    var tail := rest[j' + 1..];
    AllEmpty(tail);
    j := i + 1 + j';
    assert Empties(j - i - 1) == Empties(j');
    assert Empties(|parts| - j - 1) == tail;
    Assoc(Empties(i) + [x], Empties(j') + [y], tail);
    Assoc(Empties(i) + [x], Empties(j'), [y]);
  }

  /** A list with a non-empty piece is empty pieces, the first non-empty
      one, and the rest, which holds the other non-empty ones. */
  lemma SplitAtFirst(parts: seq<string>) returns (i: nat)
    requires |NonEmpty(parts)| > 0
    ensures i < |parts| && parts == Empties(i) + [NonEmpty(parts)[0]] + parts[i + 1..]
    ensures NonEmpty(parts[i + 1..]) == NonEmpty(parts)[1..]
  {
    i := FirstNonEmpty(parts);
    assert parts == parts[..i] + [parts[i]] + parts[i + 1..];
  }

  function Empties(n: nat): (r: seq<string>)
    ensures |r| == n && forall k :: 0 <= k < n ==> r[k] == ""
  {
    if n == 0 then [] else [""] + Empties(n - 1)
  }

  lemma NonEmptyOfEmpties(n: nat)
    ensures NonEmpty(Empties(n)) == []
  {
    if n > 0 {
      assert Empties(n)[1..] == Empties(n - 1);
    }
  }

  /** A list whose non-empty pieces are none is all empty pieces. */
  lemma {:induction false} AllEmpty(parts: seq<string>)
    requires NonEmpty(parts) == []
    ensures parts == Empties(|parts|)
  {
    if |parts| > 0 {
      assert parts[0] == "";
      AllEmpty(parts[1..]);
      assert parts == [""] + parts[1..];
    }
  }

  /** The index of the first non-empty piece. */
  function FirstNonEmpty(parts: seq<string>): (i: nat)
    requires |NonEmpty(parts)| > 0
    ensures i < |parts| && parts[i] == NonEmpty(parts)[0]
    ensures parts[..i] == Empties(i)
    ensures NonEmpty(parts)[1..] == NonEmpty(parts[i + 1..])
  {
    if parts[0] != "" then
      assert NonEmpty(parts) == [parts[0]] + NonEmpty(parts[1..]);
      0
    else
      var i := FirstNonEmpty(parts[1..]);
      assert parts[1..][i + 1..] == parts[i + 2..];
      assert parts[..i + 1] == [""] + parts[1..][..i];
      i + 1
  }

  /** Joining empty pieces gives repeated delimiters. */
  lemma {:induction false} JoinAfterEmpties(n: nat, x: string, rest: seq<string>, d: string)
    ensures Join(Empties(n) + [x] + rest, d) == Repeat(d, n) + Join([x] + rest, d)
  {
    if n > 0 {
      var parts := Empties(n) + [x] + rest;
      assert parts[0] == "";
      assert parts[1..] == Empties(n - 1) + [x] + rest;
      JoinAfterEmpties(n - 1, x, rest, d);
      assert Join(parts, d) == "" + d + Join(parts[1..], d);
    } else {
      assert Empties(0) + [x] + rest == [x] + rest;
    }
  }

  lemma {:induction false} JoinEmpties(n: nat, d: string)
    requires n >= 1
    ensures Join(Empties(n), d) == Repeat(d, n - 1)
  {
    if n > 1 {
      assert Empties(n)[1..] == Empties(n - 1);
      JoinEmpties(n - 1, d);
    }
  }

  /** The delimiter a split with front matter was made by. */
  lemma WhichDelimiter(content: string) returns (d: string)
    requires SplitFrontMatter(content).frontMatter.Some?
    ensures d in DELIMITERS && StartsWith(content, d)
    ensures NonEmpty(Split(content, d)) ==
      [SplitFrontMatter(content).frontMatter.value, SplitFrontMatter(content).body]
  {
    if StartsWith(content, DELIMITERS[0]) && |NonEmpty(Split(content, DELIMITERS[0]))| == 2 {
      d := DELIMITERS[0];
    } else {
      d := DELIMITERS[1];
    }
  }

  /** Text starting with the delimiter has an empty first piece. */
  lemma LeadingEmptyPiece(content: string, d: string)
    requires |d| > 0 && StartsWith(content, d)
    ensures Split(content, d)[0] == ""
  {
    assert OccursAt(content, d, 0);
  }

  /** Joining empty pieces around two pieces. */
  lemma {:induction false} JoinShape(i: nat, x: string, m: nat, y: string, t: nat, d: string)
    ensures Join(Empties(i) + [x] + Empties(m) + [y] + Empties(t), d)
      == Repeat(d, i) + x + Repeat(d, m + 1) + y + Repeat(d, t)
  {
    var ex := Empties(i) + [x];
    var q := Empties(m) + [y] + Empties(t);
    Assoc(ex + Empties(m), [y], Empties(t));
    Assoc(ex, Empties(m), [y] + Empties(t));
    Assoc(Empties(m), [y], Empties(t));
    JoinAfterEmpties(i, x, q, d);
    assert ([x] + q)[1..] == q;
    JoinAfterEmpties(m, y, Empties(t), d);
    JoinTail(y, t, d);
    var v := y + Repeat(d, t);
    var w := Repeat(d, m) + v;
    Assoc(x, d, w);
    Assoc(d, Repeat(d, m), v);
    var rb := Repeat(d, m + 1);
    Assoc(Repeat(d, i) + x + rb, y, Repeat(d, t));
    Assoc(Repeat(d, i) + x, rb, v);
    Assoc(Repeat(d, i), x, rb + v);
  }

  /** Every split with front matter has the shape `d^a fm d^b body d^c`
      with at least one delimiter before and between: the front matter and
      the body are the two non-empty stretches free of the delimiter, and
      everything else in the text is delimiters. */
  lemma {:induction false} FrontMatterShape(content: string)
    requires SplitFrontMatter(content).frontMatter.Some?
    ensures var doc := SplitFrontMatter(content);
      exists d, a: nat, b: nat, c: nat ::
        d in DELIMITERS && a >= 1 && b >= 1 &&
        doc.frontMatter.value != "" && doc.body != "" &&
        NoOccurrence(doc.frontMatter.value, d) && NoOccurrence(doc.body, d) &&
        content == Repeat(d, a) + doc.frontMatter.value + Repeat(d, b) + doc.body + Repeat(d, c)
  {
    var doc := SplitFrontMatter(content);
    var fm, body := doc.frontMatter.value, doc.body;
    var d := WhichDelimiter(content);
    var a, b, c := ShapeFromPieces(content, d, fm, body);
    assert NonEmpty(Split(content, d))[0] == fm && NonEmpty(Split(content, d))[1] == body;
  }

  /** Text starting with the delimiter whose non-empty pieces are `x` and
      `y` is delimiters around them, and neither holds the delimiter. */
  lemma ShapeFromPieces(content: string, d: string, x: string, y: string) returns (a: nat, b: nat, c: nat)
    requires |d| > 0 && StartsWith(content, d) && NonEmpty(Split(content, d)) == [x, y]
    ensures a >= 1 && b >= 1 && content == Repeat(d, a) + x + Repeat(d, b) + y + Repeat(d, c)
    ensures NoOccurrence(x, d) && NoOccurrence(y, d)
  {
    var parts := Split(content, d);
    SplitJoin(content, d);
    LeadingEmptyPiece(content, d);
    a, b, c := JoinedPieces(parts, d, x, y);
    assert parts[a] == x && parts[a + b] == y;
  }

  /** Pieces that start with an empty one and whose non-empty pieces are
      `x` and `y`, joined: delimiters around `x` and `y`, which are the
      pieces at `a` and `a + b`. */
  lemma JoinedPieces(parts: seq<string>, d: string, x: string, y: string) returns (a: nat, b: nat, c: nat)
    requires |parts| > 0 && parts[0] == "" && NonEmpty(parts) == [x, y]
    ensures a >= 1 && b >= 1 && a + b < |parts| && parts[a] == x && parts[a + b] == y
    ensures Join(parts, d) == Repeat(d, a) + x + Repeat(d, b) + y + Repeat(d, c)
  {
    var i, j := TwoNonEmpty(parts, x, y);
    assert x != "" by {
      assert NonEmpty(parts)[0] == x;
    }
    var m := j - i - 1;
    a, b, c := i, m + 1, |parts| - j - 1;
    JoinShape(i, x, m, y, c, d);
  }

  lemma {:induction false} JoinTail(y: string, c: nat, d: string)
    ensures Join([y] + Empties(c), d) == y + Repeat(d, c)
  {
    if c > 0 {
      assert ([y] + Empties(c))[1..] == Empties(c);
      JoinEmpties(c, d);
      assert Repeat(d, c) == d + Repeat(d, c - 1);
    } else {
      assert [y] + Empties(0) == [y];
    }
  }

  // ---------------------------------------------------------------------
  // Numbers

  /** A 64-bit IEEE float, carried but not computed with. */
  type F64

  /** A float, signed or unsigned number. */
  datatype Number = Float(x: F64) | Signed(i: i64) | Unsigned(u: u64)

  /** `PartialEq for Number`: equal only within one variant; floats compare
      by IEEE equality, which is a parameter here. */
  function NumberEq(a: Number, b: Number, floatEq: (F64, F64) -> bool): (r: bool)
    ensures r ==> (a.Float? && b.Float?) || (a.Signed? && b.Signed?) || (a.Unsigned? && b.Unsigned?)
    ensures !a.Float? ==> (r <==> (a.Signed? && b.Signed? && a.i == b.i) || (a.Unsigned? && b.Unsigned? && a.u == b.u))
  {
    match a
    case Float(f1) => (match b case Float(f2) => floatEq(f1, f2) case _ => false)
    case Signed(i1) => (match b case Signed(i2) => i1 == i2 case _ => false)
    case Unsigned(u1) => (match b case Unsigned(u2) => u1 == u2 case _ => false)
  }

  /** `PartialEq<i64> for Number`: only a signed number equals an `i64`. */
  function EqI64(n: Number, x: i64): (r: bool)
    ensures r <==> n.Signed? && n.i == x
  {
    match n
    case Signed(i) => i == x
    case _ => false
  }

  /** `PartialEq<u64> for Number`: only an unsigned number equals a `u64`. */
  function EqU64(n: Number, x: u64): (r: bool)
    ensures r <==> n.Unsigned? && n.u == x
  {
    match n
    case Unsigned(u) => u == x
    case _ => false
  }

  /** `Number::as_i64`: `i64::try_from` accepts every unsigned value up to
      `i64::MAX`. */
  function NumberAsI64(n: Number): Option<i64> {
    match n
    case Float(_) => None
    case Signed(i) => Some(i)
    case Unsigned(u) => if u <= I64_MAX then Some(u) else None
  }

  /** `Number::as_u64`. */
  function NumberAsU64(n: Number): Option<u64> {
    match n
    case Float(_) => None
    case Signed(i) => if i >= 0 then Some(i) else None
    case Unsigned(u) => Some(u)
  }

  /** The checked conversions are exact: each gives a value exactly when
      the number is an integer that fits the target type, and the value is
      the number itself; so converting back through the other variant
      gives an equal number. */
  lemma CheckedConversions(n: Number)
    ensures NumberAsI64(n).Some? <==> n.Signed? || (n.Unsigned? && n.u <= I64_MAX)
    ensures NumberAsU64(n).Some? <==> n.Unsigned? || (n.Signed? && n.i >= 0)
    ensures NumberAsI64(n).Some? ==> EqI64(n, NumberAsI64(n).value) || EqU64(n, NumberAsI64(n).value)
    ensures NumberAsU64(n).Some? ==> EqU64(n, NumberAsU64(n).value) || EqI64(n, NumberAsU64(n).value)
    ensures NumberAsI64(n).Some? && n.Unsigned? ==> NumberAsU64(Signed(NumberAsI64(n).value)) == Some(n.u)
    ensures NumberAsU64(n).Some? && n.Signed? ==> NumberAsI64(Unsigned(NumberAsU64(n).value)) == Some(n.i)
  {
  }

  /** Equal integer numbers convert equally. */
  lemma EqualNumbersConvertEqually(a: Number, b: Number, floatEq: (F64, F64) -> bool)
    requires !a.Float? && NumberEq(a, b, floatEq)
    ensures NumberAsI64(a) == NumberAsI64(b) && NumberAsU64(a) == NumberAsU64(b)
  {
  }

  // ---------------------------------------------------------------------
  // Values

  /** A data value; an object is a `BTreeMap`, modelled as a map. */
  datatype Value =
    | Null
    | Boolean(b: bool)
    | String(s: string)
    | Number(n: Number)
    | Array(items: seq<Value>)
    | Object(fields: map<string, Value>)

  /** `Value::empty_object`. */
  function EmptyObject(): (v: Value)
    ensures v.Object? && v.fields.Keys == {}
  {
    Object(map[])
  }

  function AsBool(v: Value): (r: Option<bool>)
    ensures r.Some? <==> v.Boolean?
    ensures r.Some? ==> r.value == v.b
  {
    match v
    case Boolean(b) => Some(b)
    case _ => None
  }

  function AsStr(v: Value): (r: Option<string>)
    ensures r.Some? <==> v.String?
    ensures r.Some? ==> r.value == v.s
  {
    match v
    case String(s) => Some(s)
    case _ => None
  }

  function AsI64(v: Value): (r: Option<i64>)
    ensures r.Some? ==> v.Number?
    ensures v.Number? ==> r == NumberAsI64(v.n)
  {
    match v
    case Number(n) => NumberAsI64(n)
    case _ => None
  }

  function AsU64(v: Value): (r: Option<u64>)
    ensures r.Some? ==> v.Number?
    ensures v.Number? ==> r == NumberAsU64(v.n)
  {
    match v
    case Number(n) => NumberAsU64(n)
    case _ => None
  }

  /** `From<bool>`, `From<String>`, `From<i64>`, `From<u64>`. */
  function FromBool(b: bool): Value { Boolean(b) }
  function FromString(s: string): Value { String(s) }
  function FromI64(i: i64): Value { Number(Signed(i)) }
  function FromU64(u: u64): Value { Number(Unsigned(u)) }

  /** `From<Vec<T>>`: each element converted, in order. */
  function FromVec<T>(xs: seq<T>, into: T -> Value): (v: Value)
    ensures v.Array? && |v.items| == |xs|
    ensures forall k :: 0 <= k < |xs| ==> v.items[k] == into(xs[k])
  {
    Array(seq(|xs|, k requires 0 <= k < |xs| => into(xs[k])))
  }

  /** `From<HashMap<String, T>>` and `From<BTreeMap<String, T>>`: the same
      keys, each value converted. */
  function FromMap<T>(m: map<string, T>, into: T -> Value): (v: Value)
    ensures v.Object? && v.fields.Keys == m.Keys
    ensures forall k :: k in m ==> v.fields[k] == into(m[k])
  {
    Object(map k | k in m :: into(m[k]))
  }

  /** Every conversion into a value is read back by its accessor, and the
      accessors of the other kinds give `None`. */
  lemma ConversionsReadBack(b: bool, s: string, i: i64, u: u64)
    ensures AsBool(FromBool(b)) == Some(b) && AsStr(FromBool(b)) == None && AsI64(FromBool(b)) == None
    ensures AsStr(FromString(s)) == Some(s) && AsBool(FromString(s)) == None && AsU64(FromString(s)) == None
    ensures AsI64(FromI64(i)) == Some(i) && AsBool(FromI64(i)) == None
    ensures AsU64(FromI64(i)).Some? <==> i >= 0
    ensures AsU64(FromU64(u)) == Some(u) && AsStr(FromU64(u)) == None
    ensures AsI64(FromU64(u)).Some? <==> u <= I64_MAX
    ensures AsBool(EmptyObject()) == None && AsStr(EmptyObject()) == None
    ensures AsI64(Null) == None && AsU64(Null) == None
  {
  }
}
