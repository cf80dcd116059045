/** Gunny's schema types and loaded values: `ValueType` with its relaxed
    compatibility test, its SQLite column types and its names, the
    case-insensitive file-format lookup, and `Value` with its type inference
    and accessors. */
module GunnyValue {
  import opened Wrappers
  import opened Ints

  datatype Error = UnknownValueType | UnsupportedFileType(ext: string)

  /** A schema type. */
  datatype ValueType =
    | Unknown
    | Option(inner: ValueType)
    | Bool
    | Signed
    | Unsigned
    | Fixed
    | String
    | Date
    | DateTime
    | Array(inner: ValueType)
    | Map(inner: ValueType)
  {
    /** The types without an inner type, other than `Unknown`. */
    predicate IsSimple() {
      Bool? || Signed? || Unsigned? || Fixed? || String? || Date? || DateTime?
    }
  }

  // ---------------------------------------------------------------------
  // relaxed_eq

  /** The comparison `relaxed_eq` makes without reaching its panic: a simple
      type on the left may only meet itself or `Unknown`. */
  predicate RelaxedEqDefined(a: ValueType, b: ValueType) {
    a == b || a.Unknown? || b.Unknown? ||
    match a
    case Option(x) => if b.Option? then RelaxedEqDefined(x, b.inner) else RelaxedEqDefined(x, b)
    case Array(x) => !b.Array? || RelaxedEqDefined(x, b.inner)
    case Map(x) => !b.Map? || RelaxedEqDefined(x, b.inner)
    case _ => false
  }

  /** `ValueType::relaxed_eq`: equal types and `Unknown` on either side
      match; an `Option` on the left is compared through, against the inner
      type of a right-hand `Option` or against the right-hand type itself;
      arrays and maps match only their own kind. */
  function RelaxedEq(a: ValueType, b: ValueType): (r: bool)
    requires RelaxedEqDefined(a, b)
    ensures a == b || a.Unknown? || b.Unknown? ==> r
    ensures r && a.Array? ==> b.Array? || b.Unknown?
    ensures r && a.Map? ==> b.Map? || b.Unknown?
  {
    if a == b || a.Unknown? || b.Unknown? then true
    else
      match a
      case Option(x) => if b.Option? then RelaxedEq(x, b.inner) else RelaxedEq(x, b)
      case Array(x) => b.Array? && RelaxedEq(x, b.inner)
      case Map(x) => b.Map? && RelaxedEq(x, b.inner)
  }

  /** The comparison is not symmetric: an optional Bool matches Bool, but
      Bool against an optional Bool reaches the panic. */
  lemma RelaxedEqAsymmetric()
    ensures RelaxedEqDefined(ValueType.Option(ValueType.Bool), ValueType.Bool) && RelaxedEq(ValueType.Option(ValueType.Bool), ValueType.Bool)
    ensures !RelaxedEqDefined(ValueType.Bool, ValueType.Option(ValueType.Bool))
  {
  }

  /** A type with no `Option` and no `Unknown` anywhere in it. */
  predicate Plain(t: ValueType) {
    match t
    case Unknown => false
    case Option(_) => false
    case Array(x) => Plain(x)
    case Map(x) => Plain(x)
    case _ => true
  }

  /** Between types with no `Option` and no `Unknown`, the relaxed
      comparison is plain equality, and it reaches the panic exactly when
      the two types first differ at a simple type on the left. */
  lemma {:induction false} RelaxedEqOnPlainTypes(a: ValueType, b: ValueType)
    requires Plain(a) && Plain(b) && RelaxedEqDefined(a, b)
    ensures RelaxedEq(a, b) <==> a == b
  {
    if a != b {
      match a
      case Array(x) =>
        if b.Array? { RelaxedEqOnPlainTypes(x, b.inner); }
      case Map(x) =>
        if b.Map? { RelaxedEqOnPlainTypes(x, b.inner); }
    }
  }

  // ---------------------------------------------------------------------
  // SQLite column types

  /** The column type of a type that is neither `Unknown` nor an `Option`. */
  function ColumnType(t: ValueType): string
    requires !t.Unknown? && !t.Option?
  {
    match t
    case Bool => "BOOL"
    case Signed => "INT"
    case Unsigned => "INT"
    case Fixed => "REAL"
    case String => "TEXT"
    case Date => "DATE"
    case DateTime => "DATETIME"
    case Array(_) => "TEXT"
    case Map(_) => "TEXT"
  }

  function NullSuffix(nullable: bool): string {
    if nullable then "" else " NOT NULL"
  }

  /** The type under all the `Option` wrappers. */
  function StripOptions(t: ValueType): (s: ValueType)
    ensures !s.Option?
  {
    if t.Option? then StripOptions(t.inner) else t
  }

  /** `ValueType::to_sqlite_nullable` as written: an `Option` asks its inner
      type for a nullable column and then appends its own suffix. */
  function ToSqliteNullable(t: ValueType, nullable: bool): Result<string, Error> {
    match t
    case Unknown => Err(UnknownValueType)
    case Option(inner) =>
      (match ToSqliteNullable(inner, true)
       case Ok(s) => Ok(s + NullSuffix(nullable))
       case Err(e) => Err(e))
    case _ => Ok(ColumnType(t) + NullSuffix(nullable))
  }

  /** `ValueType::to_sqlite`. */
  function ToSqlite(t: ValueType): Result<string, Error> {
    ToSqliteNullable(t, false)
  }

  /** As written, the mapping fails exactly when an `Unknown` sits under the
      `Option` wrappers, and otherwise gives the column type of the
      unwrapped type with the caller's suffix: the `Option` wrappers add
      nothing. */
  lemma {:induction false} ToSqliteNullableIgnoresOptions(t: ValueType, nullable: bool)
    ensures ToSqliteNullable(t, nullable).Err? <==> StripOptions(t).Unknown?
    ensures ToSqliteNullable(t, nullable).Err? ==> ToSqliteNullable(t, nullable).error == UnknownValueType
    ensures ToSqliteNullable(t, nullable).Ok? ==>
      ToSqliteNullable(t, nullable).value == ColumnType(StripOptions(t)) + NullSuffix(nullable)
  {
    if t.Option? {
      ToSqliteNullableIgnoresOptions(t.inner, true);
      if !StripOptions(t).Unknown? {
        assert ColumnType(StripOptions(t)) + NullSuffix(true) == ColumnType(StripOptions(t));
      }
    }
  }

  /** So every column `to_sqlite` produces is `NOT NULL`, optional or not:
      an optional Bool becomes `BOOL NOT NULL`. */
  lemma ToSqliteNeverNullable(t: ValueType)
    requires !StripOptions(t).Unknown?
    ensures ToSqlite(t) == Ok(ColumnType(StripOptions(t)) + " NOT NULL")
    ensures ToSqlite(ValueType.Option(ValueType.Bool)) == Ok("BOOL NOT NULL")
  {
    ToSqliteNullableIgnoresOptions(t, false);
    ToSqliteNullableIgnoresOptions(ValueType.Option(ValueType.Bool), false);
    assert StripOptions(ValueType.Option(ValueType.Bool)) == ValueType.Bool;
    assert "BOOL" + " NOT NULL" == "BOOL NOT NULL";
  }

  /** `to_sqlite_nullable` as evidently intended: an `Option` hands its
      inner type the nullable flag and adds no suffix of its own. */
  function ToSqliteNullableIntended(t: ValueType, nullable: bool): Result<string, Error> {
    match t
    case Unknown => Err(UnknownValueType)
    case Option(inner) => ToSqliteNullableIntended(inner, true)
    case _ => Ok(ColumnType(t) + NullSuffix(nullable))
  }

  /** With the intended mapping, a column is nullable exactly when its type
      is an `Option`. */
  lemma {:induction false} ToSqliteIntendedNullability(t: ValueType, nullable: bool)
    ensures ToSqliteNullableIntended(t, nullable).Err? <==> StripOptions(t).Unknown?
    ensures ToSqliteNullableIntended(t, nullable).Ok? ==>
      ToSqliteNullableIntended(t, nullable).value ==
        ColumnType(StripOptions(t)) + NullSuffix(nullable || t.Option?)
  {
    if t.Option? {
      ToSqliteIntendedNullability(t.inner, true);
    }
  }

  // ---------------------------------------------------------------------
  // Type names

  /** `Display for ValueType`. */
  function TypeName(t: ValueType): (s: string)
    ensures |s| >= 3
  {
    match t
    case Unknown => "Unknown"
    case Option(x) => "Option<" + TypeName(x) + ">"
    case Bool => "Bool"
    case Signed => "Int"
    case Unsigned => "Uint"
    case Fixed => "Fixed"
    case String => "String"
    case Date => "Date"
    case DateTime => "DateTime"
    case Array(x) => "Array<" + TypeName(x) + ">"
    case Map(x) => "Map<" + TypeName(x) + ">"
  }

  /** What `FromStr for ValueType` gives: a type, an error, or a hand-off to
      the parser of composite type names, which the program leaves
      unimplemented. */
  datatype ParsedType = Parsed(t: ValueType) | Rejected(err: Error) | ComplexUnimplemented

  /** `FromStr for ValueType`. */
  function TypeFromStr(s: string): ParsedType {
    if s == "Unknown" then Rejected(UnknownValueType)
    else if s == "Bool" then Parsed(ValueType.Bool)
    else if s == "Int" then Parsed(ValueType.Signed)
    else if s == "Uint" then Parsed(ValueType.Unsigned)
    else if s == "Fixed" || s == "Float" then Parsed(ValueType.Fixed)
    else if s == "String" then Parsed(ValueType.String)
    else if s == "Date" then Parsed(ValueType.Date)
    else if s == "DateTime" then Parsed(ValueType.DateTime)
    else ComplexUnimplemented
  }

  /** Every simple type's name reads back as that type; `Float` is another
      name for `Fixed`, and `Unknown` is refused. */
  lemma TypeNameRoundTrip(t: ValueType)
    requires t.IsSimple()
    ensures TypeFromStr(TypeName(t)) == Parsed(t)
    ensures TypeFromStr("Float") == Parsed(ValueType.Fixed)
    ensures TypeFromStr(TypeName(Unknown)) == Rejected(UnknownValueType)
  {
  }

  /** The name of an optional, array or map type goes to the unimplemented
      composite parser. */
  lemma CompositeNamesUnparsed(t: ValueType)
    requires t.Option? || t.Array? || t.Map?
    ensures TypeFromStr(TypeName(t)) == ComplexUnimplemented
  {
    var s := TypeName(t);
    assert |s| >= 8;
    assert s[0] == (if t.Option? then 'O' else if t.Array? then 'A' else 'M');
    assert s[|s| - 1] == '>';
  }

  // ---------------------------------------------------------------------
  // SupportedFormat

  datatype SupportedFormat = Json | Yaml | Toml | Markdown

  /** Lower-casing one character, as far as it decides a match against the
      ASCII format names: ASCII capitals, and the Kelvin sign, whose lower
      case is the ASCII `k`. */
  function LowerChar(c: char): char {
    if 'A' <= c <= 'Z' then (c as int + 32) as char
    else if c == '\U{212A}' then 'k'
    else c
  }

  function ToLowercase(s: string): (r: string)
    ensures |r| == |s|
  {
    if |s| == 0 then [] else [LowerChar(s[0])] + ToLowercase(s[1..])
  }

  /** `FromStr for SupportedFormat`: the lower-cased text names the format;
      an unknown name is an error carrying the text as given. */
  function FormatFromStr(s: string): Result<SupportedFormat, Error> {
    var lower := ToLowercase(s);
    if lower == "json" then Ok(Json)
    else if lower == "yaml" || lower == "yml" then Ok(Yaml)
    else if lower == "toml" then Ok(Toml)
    else if lower == "md" || lower == "markdown" then Ok(Markdown)
    else Err(UnsupportedFileType(s))
  }

  /** The usual file extension of each format. */
  function Extension(f: SupportedFormat): string {
    match f
    case Json => "json"
    case Yaml => "yaml"
    case Toml => "toml"
    case Markdown => "md"
  }

  function UpperChar(c: char): char {
    if 'a' <= c <= 'z' then (c as int - 32) as char else c
  }

  function ToUppercase(s: string): (r: string)
    ensures |r| == |s|
  {
    if |s| == 0 then [] else [UpperChar(s[0])] + ToUppercase(s[1..])
  }

  /** Upper-casing does not change what a text lower-cases to. */
  lemma {:induction false} LowercaseOfUppercase(s: string)
    ensures ToLowercase(ToUppercase(s)) == ToLowercase(s)
  {
    if |s| > 0 {
      LowercaseOfUppercase(s[1..]);
      assert ToUppercase(s)[1..] == ToUppercase(s[1..]);
    }
  }

  /** The format lookup ignores case: every extension is recognised in
      upper case too, and an upper-cased text is recognised exactly when the
      original is (the error still carries the text as given). */
  lemma {:induction false} FormatIgnoresCase(s: string, f: SupportedFormat)
    ensures FormatFromStr(Extension(f)) == Ok(f)
    ensures FormatFromStr(ToUppercase(Extension(f))) == Ok(f)
    ensures FormatFromStr(s).Ok? <==> FormatFromStr(ToUppercase(s)).Ok?
    ensures FormatFromStr(s).Ok? ==> FormatFromStr(ToUppercase(s)) == FormatFromStr(s)
    ensures FormatFromStr(ToUppercase(s)).Err? ==> FormatFromStr(ToUppercase(s)).error == UnsupportedFileType(ToUppercase(s))
  {
    LowercaseOfUppercase(s);
    LowercaseOfUppercase(Extension(f));
    LowercaseOfLower(Extension(f));
  }

  lemma {:induction false} LowercaseOfLower(s: string)
    requires forall i :: 0 <= i < |s| ==> 'a' <= s[i] <= 'z'
    ensures ToLowercase(s) == s
  {
    if |s| > 0 {
      LowercaseOfLower(s[1..]);
    }
  }

  /** The Kelvin sign lower-cases to `k`. */
  lemma KelvinSignMarkdown()
    ensures FormatFromStr("MAR\U{212A}DOWN") == Ok(Markdown)
  {
    assert ToLowercase("MAR\U{212A}DOWN") == "markdown";
  }

  // ---------------------------------------------------------------------
  // Values

  /** Calendar dates and date-times are carried, not inspected. */
  type CalendarDate(==)
  type CalendarDateTime(==)

  /** A loaded value; a map is a `BTreeMap`, whose first value is the one
      under the least key. */
  datatype Value =
    | Option(opt: Option<Value>)
    | Bool(b: bool)
    | Signed(i: i64)
    | Unsigned(u: u64)
    | Fixed(f: I64F64)
    | String(s: string)
    | Date(d: CalendarDate)
    | DateTime(dt: CalendarDateTime)
    | Array(items: seq<Value>)
    | Map(entries: map<string, Value>)

  /** The order of `String` keys: lexicographic by character (which is the
      order of their UTF-8 bytes). */
  predicate KeyLe(a: string, b: string)
    decreases |a|
  {
    |a| == 0 || (|b| > 0 && (a[0] < b[0] || (a[0] == b[0] && KeyLe(a[1..], b[1..]))))
  }

  lemma {:induction false} KeyLeRefl(a: string)
    ensures KeyLe(a, a)
    decreases |a|
  {
    if |a| > 0 {
      KeyLeRefl(a[1..]);
    }
  }

  lemma {:induction false} KeyLeTotal(a: string, b: string)
    ensures KeyLe(a, b) || KeyLe(b, a)
    decreases |a|
  {
    if |a| > 0 && |b| > 0 && a[0] == b[0] {
      KeyLeTotal(a[1..], b[1..]);
    }
  }

  lemma {:induction false} KeyLeTrans(a: string, b: string, c: string)
    requires KeyLe(a, b) && KeyLe(b, c)
    ensures KeyLe(a, c)
    decreases |a|
  {
    if |a| > 0 && a[0] == b[0] && b[0] == c[0] {
      KeyLeTrans(a[1..], b[1..], c[1..]);
    }
  }

  lemma {:induction false} KeyLeAntisym(a: string, b: string)
    requires KeyLe(a, b) && KeyLe(b, a)
    ensures a == b
    decreases |a|
  {
    if |a| > 0 {
      KeyLeAntisym(a[1..], b[1..]);
      assert a == [a[0]] + a[1..] && b == [b[0]] + b[1..];
    }
  }

  predicate IsLeast(k: string, keys: set<string>) {
    k in keys && forall k' :: k' in keys ==> KeyLe(k, k')
  }

  lemma {:induction false} LeastExists(keys: set<string>)
    requires keys != {}
    ensures exists k :: IsLeast(k, keys)
    decreases |keys|
  {
    var x :| x in keys;
    KeyLeRefl(x);
    if keys != {x} {
      LeastExists(keys - {x});
      var m :| IsLeast(m, keys - {x});
      KeyLeTotal(x, m);
      if KeyLe(x, m) {
        forall k' | k' in keys ensures KeyLe(x, k') {
          if k' != x { KeyLeTrans(x, m, k'); }
        }
        assert IsLeast(x, keys);
      } else {
        assert IsLeast(m, keys);
      }
    } else {
      assert IsLeast(x, keys);
    }
  }

  lemma LeastUnique(keys: set<string>)
    ensures forall a, b :: IsLeast(a, keys) && IsLeast(b, keys) ==> a == b
  {
    forall a, b | IsLeast(a, keys) && IsLeast(b, keys) ensures a == b {
      KeyLeAntisym(a, b);
    }
  }

  /** The least key of a non-empty map. */
  function LeastKey(keys: set<string>): (k: string)
    requires keys != {}
    ensures k in keys && forall k' :: k' in keys ==> KeyLe(k, k')
  {
    LeastExists(keys);
    LeastUnique(keys);
    var k :| IsLeast(k, keys);
    k
  }

  /** `Value::get_type`: a best-effort guess, with `Unknown` for a missing
      option value and for the element of an empty array or map; otherwise
      a collection's element type is that of its first element (for a map,
      the value under the least key). */
  function GetType(v: Value): ValueType {
    match v
    case Option(opt) => ValueType.Option(if opt.Some? then GetType(opt.value) else Unknown)
    case Bool(_) => ValueType.Bool
    case Signed(_) => ValueType.Signed
    case Unsigned(_) => ValueType.Unsigned
    case Fixed(_) => ValueType.Fixed
    case String(_) => ValueType.String
    case Date(_) => ValueType.Date
    case DateTime(_) => ValueType.DateTime
    case Array(items) => ValueType.Array(if |items| > 0 then GetType(items[0]) else Unknown)
    case Map(entries) =>
      ValueType.Map(if |entries| > 0 then GetType(entries[LeastKey(entries.Keys)]) else Unknown)
  }

  /** A value inhabits a schema type: `Unknown` admits anything, an
      `Option` admits a missing value or an inhabitant of its inner type,
      and a collection admits collections all of whose elements inhabit its
      element type. */
  predicate Conforms(v: Value, t: ValueType) {
    match t
    case Unknown => true
    case Option(x) => v.Option? && (v.opt.None? || Conforms(v.opt.value, x))
    case Bool => v.Bool?
    case Signed => v.Signed?
    case Unsigned => v.Unsigned?
    case Fixed => v.Fixed?
    case String => v.String?
    case Date => v.Date?
    case DateTime => v.DateTime?
    case Array(x) => v.Array? && forall i :: 0 <= i < |v.items| ==> Conforms(v.items[i], x)
    case Map(x) => v.Map? && forall k :: k in v.entries ==> Conforms(v.entries[k], x)
  }

  /** What `relaxed_eq` is for: the type guessed from any value that
      inhabits a schema type, however many of its options are missing and
      its collections empty, is relaxed-equal to that schema type, and the
      comparison does not panic. */
  lemma {:induction false} GuessedTypeMatchesSchema(v: Value, t: ValueType)
    requires Conforms(v, t)
    ensures RelaxedEqDefined(GetType(v), t) && RelaxedEq(GetType(v), t)
  {
    match t
    case Option(x) =>
      if v.opt.Some? { GuessedTypeMatchesSchema(v.opt.value, x); }
    case Array(x) =>
      if |v.items| > 0 { GuessedTypeMatchesSchema(v.items[0], x); }
    case Map(x) =>
      if |v.entries| > 0 {
        var k := LeastKey(v.entries.Keys);
        GuessedTypeMatchesSchema(v.entries[k], x);
      }
    case _ =>
  }

  /** `t` is `base` under zero or more `Option` wrappers. */
  predicate Unwraps(t: ValueType, base: ValueType) {
    t == base || (t.Option? && Unwraps(t.inner, base))
  }

  /** A type that is a simple type under options relaxed-matches that
      simple type. */
  lemma {:induction false} UnwrapsMatches(t: ValueType, base: ValueType)
    requires base.IsSimple() && Unwraps(t, base)
    ensures RelaxedEqDefined(t, base) && RelaxedEq(t, base)
  {
    if t != base {
      UnwrapsMatches(t.inner, base);
    }
  }

  function AsBool(v: Value): Option<bool> {
    match v
    case Option(opt) => if opt.Some? then AsBool(opt.value) else None
    case Bool(b) => Some(b)
    case _ => None
  }

  /** `Value::as_signed` as written: an unsigned value converts only when
      strictly below `i64::MAX`. */
  function AsSigned(v: Value): Option<i64> {
    match v
    case Option(opt) => if opt.Some? then AsSigned(opt.value) else None
    case Signed(i) => Some(i)
    case Unsigned(u) => if u < I64_MAX then Some(u) else None
    case _ => None
  }

  /** `Value::as_signed` with the bound evidently intended: every unsigned
      value that fits in an `i64`. */
  function AsSignedIntended(v: Value): Option<i64> {
    match v
    case Option(opt) => if opt.Some? then AsSignedIntended(opt.value) else None
    case Signed(i) => Some(i)
    case Unsigned(u) => if u <= I64_MAX then Some(u) else None
    case _ => None
  }

  function AsUnsigned(v: Value): Option<u64> {
    match v
    case Option(opt) => if opt.Some? then AsUnsigned(opt.value) else None
    case Unsigned(u) => Some(u)
    case Signed(i) => if i >= 0 then Some(i) else None
    case _ => None
  }

  function AsFixed(v: Value): Option<I64F64> {
    match v
    case Option(opt) => if opt.Some? then AsFixed(opt.value) else None
    case Fixed(f) => Some(f)
    case _ => None
  }

  function AsStr(v: Value): Option<string> {
    match v
    case Option(opt) => if opt.Some? then AsStr(opt.value) else None
    case String(s) => Some(s)
    case _ => None
  }

  /** The accessors agree with type inference: each succeeds exactly when
      the guessed type is its own type under options (for the integer
      accessors, either integer type, within range), and then the guessed
      type relaxed-matches that type. */
  lemma {:induction false} AccessorsFollowType(v: Value)
    ensures AsBool(v).Some? <==> Unwraps(GetType(v), ValueType.Bool)
    ensures AsStr(v).Some? <==> Unwraps(GetType(v), ValueType.String)
    ensures AsFixed(v).Some? <==> Unwraps(GetType(v), ValueType.Fixed)
    ensures AsSigned(v).Some? ==>
      Unwraps(GetType(v), ValueType.Signed) || Unwraps(GetType(v), ValueType.Unsigned)
    ensures Unwraps(GetType(v), ValueType.Signed) ==>
      AsSigned(v).Some? && (AsUnsigned(v).Some? <==> AsSigned(v).value >= 0)
    ensures AsUnsigned(v).Some? ==>
      Unwraps(GetType(v), ValueType.Signed) || Unwraps(GetType(v), ValueType.Unsigned)
    ensures Unwraps(GetType(v), ValueType.Unsigned) ==>
      AsUnsigned(v).Some? && (AsSigned(v).Some? <==> AsUnsigned(v).value < I64_MAX)
  {
    if v.Option? && v.opt.Some? {
      AccessorsFollowType(v.opt.value);
    }
  }

  /** `i64::MAX` held as unsigned fits in an `i64`, yet `as_signed` refuses
      it; the intended bound accepts it. */
  lemma AsSignedRefusesMax()
    ensures AsSigned(Value.Unsigned(I64_MAX)) == None
    ensures AsSignedIntended(Value.Unsigned(I64_MAX)) == Some(I64_MAX)
  {
  }

  /** With the intended bound, `as_signed` succeeds on every integer that
      fits, under any options, and keeps its value. */
  lemma {:induction false} AsSignedIntendedExact(v: Value)
    ensures AsSignedIntended(v).Some? <==>
      Unwraps(GetType(v), ValueType.Signed) ||
      (Unwraps(GetType(v), ValueType.Unsigned) && AsUnsigned(v).Some? && AsUnsigned(v).value <= I64_MAX)
    ensures AsSignedIntended(v).Some? && Unwraps(GetType(v), ValueType.Unsigned) && AsUnsigned(v).Some? ==>
      AsSignedIntended(v).value == AsUnsigned(v).value
  {
    AccessorsFollowType(v);
    if v.Option? && v.opt.Some? {
      AsSignedIntendedExact(v.opt.value);
    }
  }

  /** A missing option value and empty collections are typed `Unknown`
      inside, and every accessor gives `None` on a missing value. */
  lemma EmptyValues()
    ensures GetType(Value.Option(None)) == ValueType.Option(Unknown)
    ensures GetType(Value.Array([])) == ValueType.Array(Unknown)
    ensures GetType(Value.Map(map[])) == ValueType.Map(Unknown)
    ensures AsBool(Value.Option(None)) == None && AsSigned(Value.Option(None)) == None
    ensures AsUnsigned(Value.Option(None)) == None && AsFixed(Value.Option(None)) == None
    ensures AsStr(Value.Option(None)) == None
  {
  }
}
