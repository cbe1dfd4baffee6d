/** The slice of JavaScript semantics the data store and its route handlers
    rely on: dynamically typed values, truthiness, strict equality, `||`,
    `parseInt`, `Number.prototype.toString` for naturals, and the string
    built-ins `toLowerCase`, `trim`, `includes`, `startsWith` and `split`.

    Numbers are integers (no fractions, no infinities, no precision loss);
    NaN is a value of its own. Strings are sequences of Unicode scalar
    values rather than UTF-16 code units. */
module Js {

  datatype Option<T> = None | Some(value: T)

  /** A JavaScript value as it can appear in a record, a query parameter or
      a request body field. JSON documents stored by the handlers are
      strings in the source and are `Str` here as well. `Time(ms)` is the
      string `new Date(ms).toISOString()` produces: a timestamp kept apart
      from other text so that comparisons and parsing can see the instant. */
  datatype Value =
    | Undefined
    | Null
    | Bool(b: bool)
    | Num(n: int)
    | NaN
    | Str(s: string)
    | Time(ms: int)

  /** `!!v` */
  predicate Truthy(v: Value) {
    match v
    case Undefined => false
    case Null => false
    case Bool(b) => b
    case Num(n) => n != 0
    case NaN => false
    case Str(s) => s != ""
    case Time(_) => true
  }

  /** `a === b`: same type and same value, except that NaN equals nothing. */
  predicate StrictEquals(a: Value, b: Value) {
    a == b && !a.NaN?
  }

  /** `a || b` */
  function Or(a: Value, b: Value): (r: Value)
    ensures Truthy(a) ==> r == a
    ensures !Truthy(a) ==> r == b
  {
    if Truthy(a) then a else b
  }

  /** The `typeof v === 'string' ? parseInt(v) : v` coercion that the store
      applies to identifiers taken from query parameters. An ISO timestamp
      is a string too, and `parseInt` reads its leading year. */
  function CoerceId(v: Value): (r: Value)
    ensures !v.Str? && !v.Time? ==> r == v
    ensures v.Str? ==> r.Num? || r.NaN?
    ensures v.Time? ==> r == Num(YearOf(v.ms))
  {
    match v
    case Str(s) => ParseInt(s)
    case Time(ms) => Num(YearOf(ms))
    case _ => v
  }

  /** The proleptic Gregorian year of the instant `ms` milliseconds after
      the epoch, in UTC: the number `toISOString` writes first. */
  function YearOf(ms: int): int {
    var z := ms / 86400000 + 719468;
    var era := z / 146097;
    var doe := z - era * 146097;
    var yoe := (doe - doe / 1460 + doe / 36524 - doe / 146096) / 365;
    var doy := doe - (365 * yoe + yoe / 4 - yoe / 100);
    var mp := (5 * doy + 2) / 153;
    yoe + era * 400 + (if mp >= 10 then 1 else 0)
  }

  /** Milliseconds in an hour of the clock `now` counts in. */
  const HourMs: int := 3600000

  /** `new Date(v).getTime()`, or None for an invalid date. Text that is
      not a timestamp of this model counts as invalid. */
  function TimeOf(v: Value): (r: Option<int>)
    ensures v.Time? && -8640000000000000 <= v.ms <= 8640000000000000 ==> r == Some(v.ms)
    ensures v.Undefined? || v.NaN? || v.Str? ==> r.None?
    ensures r.Some? ==> -8640000000000000 <= r.value <= 8640000000000000
  {
    var t := match v
      case Undefined => None
      case Null => Some(0)
      case Bool(b) => Some(if b then 1 else 0)
      case Num(n) => Some(n)
      case NaN => None
      case Str(_) => None
      case Time(ms) => Some(ms);
    if t.Some? && -8640000000000000 <= t.value <= 8640000000000000 then t else None
  }

  /** `new Date(a) < new Date(b)`: false when either date is invalid. */
  predicate Before(a: Value, b: Value) {
    TimeOf(a).Some? && TimeOf(b).Some? && TimeOf(a).value < TimeOf(b).value
  }

  // ---------------------------------------------------------------------
  // Character classes

  /** The characters of the regular-expression class `\s`, which are also
      the ones `String.prototype.trim` removes: WhiteSpace and
      LineTerminator of the ECMAScript grammar. */
  predicate IsSpace(c: char) {
    || c == '\t' || c == '\n' || c == '\U{000B}' || c == '\U{000C}' || c == '\r'
    || c == ' ' || c == '\U{00A0}' || c == '\U{1680}'
    || ('\U{2000}' <= c <= '\U{200A}')
    || c == '\U{2028}' || c == '\U{2029}' || c == '\U{202F}' || c == '\U{205F}'
    || c == '\U{3000}' || c == '\U{FEFF}'
  }

  /** The characters `.` does not match (no `s` flag). */
  predicate IsLineTerminator(c: char) {
    c == '\n' || c == '\r' || c == '\U{2028}' || c == '\U{2029}'
  }

  /** The regular-expression class `\w`. */
  predicate IsWordChar(c: char) {
    ('a' <= c <= 'z') || ('A' <= c <= 'Z') || ('0' <= c <= '9') || c == '_'
  }

  /** Lower-casing of one character, restricted to ASCII letters. */
  function LowerChar(c: char): (r: char)
    ensures 'A' <= c <= 'Z' ==> 'a' <= r <= 'z'
    ensures !('A' <= c <= 'Z') ==> r == c
    ensures IsWordChar(r) <==> IsWordChar(c)
    ensures IsSpace(r) <==> IsSpace(c)
    ensures IsLineTerminator(r) <==> IsLineTerminator(c)
  {
    if 'A' <= c <= 'Z' then (c as int + 32) as char else c
  }

  /** `s.toLowerCase()`, restricted to ASCII letters. */
  function Lower(s: string): (r: string)
    ensures |r| == |s|
    ensures forall i :: 0 <= i < |s| ==> r[i] == LowerChar(s[i])
  {
    if s == [] then [] else [LowerChar(s[0])] + Lower(s[1..])
  }

  // ---------------------------------------------------------------------
  // trim, includes, startsWith

  /** `s.trimStart()` */
  function TrimStart(s: string): (r: string)
    ensures |r| <= |s| && r == s[|s| - |r|..]
    ensures forall i :: 0 <= i < |s| - |r| ==> IsSpace(s[i])
    ensures r != [] ==> !IsSpace(r[0])
  {
    if s != [] && IsSpace(s[0]) then TrimStart(s[1..]) else s
  }

  /** `s.trimEnd()` */
  function TrimEnd(s: string): (r: string)
    ensures |r| <= |s| && r == s[..|r|]
    ensures forall i :: |r| <= i < |s| ==> IsSpace(s[i])
    ensures r != [] ==> !IsSpace(r[|r| - 1])
  {
    if s != [] && IsSpace(s[|s| - 1]) then TrimEnd(s[..|s| - 1]) else s
  }

  /** `s.trim()` */
  function Trim(s: string): (r: string)
    ensures r != [] ==> !IsSpace(r[0]) && !IsSpace(r[|r| - 1])
    ensures exists a, b ::
      && 0 <= a <= b <= |s| && r == s[a..b]
      && (forall i :: 0 <= i < a ==> IsSpace(s[i]))
      && (forall i :: b <= i < |s| ==> IsSpace(s[i]))
  {
    var t := TrimStart(s);
    var r := TrimEnd(t);
    TrimEdges(s, t, r);
    r
  }

  /** Trimming the start and then the end of `s` cuts white space only. */
  lemma TrimEdges(s: string, t: string, r: string)
    requires |t| <= |s| && t == s[|s| - |t|..]
    requires forall i :: 0 <= i < |s| - |t| ==> IsSpace(s[i])
    requires |r| <= |t| && r == t[..|r|]
    requires forall i :: |r| <= i < |t| ==> IsSpace(t[i])
    ensures exists a, b ::
      && 0 <= a <= b <= |s| && r == s[a..b]
      && (forall i :: 0 <= i < a ==> IsSpace(s[i]))
      && (forall i :: b <= i < |s| ==> IsSpace(s[i]))
  {
    var a, b := |s| - |t|, |s| - |t| + |r|;
    assert r == s[a..b];
    forall i | b <= i < |s| ensures IsSpace(s[i]) {
      assert s[i] == t[i - a];
    }
  }

  /** `t` occurs in `s` at position `i`. */
  predicate OccursAt(s: string, t: string, i: nat) {
    i + |t| <= |s| && s[i..i + |t|] == t
  }

  /** `s.includes(t)`, searching from position `i` on. */
  predicate IncludesFrom(s: string, t: string, i: nat)
    decreases |s| - i
  {
    i + |t| <= |s| && (s[i..i + |t|] == t || IncludesFrom(s, t, i + 1))
  }

  /** `s.includes(t)` */
  predicate Includes(s: string, t: string) {
    IncludesFrom(s, t, 0)
  }

  lemma {:induction false} IncludesFromMeansOccurs(s: string, t: string, i: nat)
    ensures IncludesFrom(s, t, i) <==> exists j :: i <= j && OccursAt(s, t, j)
    decreases |s| - i
  {
    if i + |t| <= |s| {
      IncludesFromMeansOccurs(s, t, i + 1);
      if s[i..i + |t|] == t {
        assert OccursAt(s, t, i);
      } else if exists j :: i <= j && OccursAt(s, t, j) {
        var j :| i <= j && OccursAt(s, t, j);
        assert j != i;
        assert i + 1 <= j && OccursAt(s, t, j);
      }
    }
  }

  /** `includes` holds exactly when the needle occurs somewhere. */
  lemma IncludesMeansOccurs(s: string, t: string)
    ensures Includes(s, t) <==> exists j :: OccursAt(s, t, j)
  {
    IncludesFromMeansOccurs(s, t, 0);
  }

  /** `s.startsWith(t)` */
  predicate StartsWith(s: string, t: string) {
    |t| <= |s| && s[..|t|] == t
  }

  // ---------------------------------------------------------------------
  // split(',') and its inverse

  /** The position of the first `sep` in `s`, or `|s|` when there is none. */
  function IndexOf(s: string, sep: char): (i: nat)
    ensures i <= |s|
    ensures i < |s| ==> s[i] == sep
    ensures sep !in s[..i]
  {
    if s == [] then 0
    else if s[0] == sep then 0
    else 1 + IndexOf(s[1..], sep)
  }

  /** `s.split(sep)` for a one-character separator: the pieces between
      separators, empty pieces included; the empty string gives `[""]`. */
  function Split(s: string, sep: char): (r: seq<string>)
    ensures |r| >= 1
    ensures forall i :: 0 <= i < |r| ==> sep !in r[i]
    ensures Join(r, sep) == s
    decreases |s|
  {
    var i := IndexOf(s, sep);
    if i == |s| then [s]
    else
      var rest := Split(s[i + 1..], sep);
      assert s == s[..i] + [sep] + s[i + 1..];
      [s[..i]] + rest
  }

  /** `parts.join(sep)` */
  function Join(parts: seq<string>, sep: char): string {
    if |parts| == 0 then ""
    else if |parts| == 1 then parts[0]
    else parts[0] + [sep] + Join(parts[1..], sep)
  }

  /** `split` undoes `join` whenever no piece contains the separator, so the
      pieces `split` returns are the only separator-free decomposition. */
  lemma {:induction false} SplitJoin(parts: seq<string>, sep: char)
    requires |parts| >= 1
    requires forall i :: 0 <= i < |parts| ==> sep !in parts[i]
    ensures Split(Join(parts, sep), sep) == parts
    decreases |parts|
  {
    var s := Join(parts, sep);
    if |parts| > 1 {
      var p := parts[0];
      var rest := Join(parts[1..], sep);
      assert s == p + [sep] + rest;
      assert IndexOf(s, sep) == |p| by {
        IndexOfConcat(p, sep, rest);
      }
      assert s[|p| + 1..] == rest;
      assert s[..|p|] == p;
      SplitJoin(parts[1..], sep);
      assert parts == [p] + parts[1..];
    }
  }

  lemma {:induction false} IndexOfConcat(p: string, sep: char, rest: string)
    requires sep !in p
    ensures IndexOf(p + [sep] + rest, sep) == |p|
    decreases |p|
  {
    if p != [] {
      assert (p + [sep] + rest)[1..] == p[1..] + [sep] + rest;
      IndexOfConcat(p[1..], sep, rest);
    }
  }

  /** `s.split(sep).map(x => x.trim())` */
  function SplitTrim(s: string, sep: char): (r: seq<string>)
    ensures |r| == |Split(s, sep)|
    ensures forall i :: 0 <= i < |r| ==> r[i] == Trim(Split(s, sep)[i])
  {
    var parts := Split(s, sep);
    seq(|parts|, i requires 0 <= i < |parts| => Trim(parts[i]))
  }

  // ---------------------------------------------------------------------
  // Numbers

  /** The value of `c` as a digit in base `radix`, if it is one. */
  function DigitValue(c: char, radix: nat): (d: Option<nat>)
    ensures d.Some? ==> d.value < radix
  {
    var v :=
      if '0' <= c <= '9' then c as int - '0' as int
      else if 'a' <= c <= 'z' then c as int - 'a' as int + 10
      else if 'A' <= c <= 'Z' then c as int - 'A' as int + 10
      else 36;
    if 0 <= v < radix then Some(v) else None
  }

  /** The length of the longest prefix of `s` made of base-`radix` digits. */
  function DigitRun(s: string, radix: nat): (n: nat)
    ensures n <= |s|
    ensures forall i :: 0 <= i < n ==> DigitValue(s[i], radix).Some?
    ensures n < |s| ==> DigitValue(s[n], radix).None?
  {
    if s != [] && DigitValue(s[0], radix).Some? then 1 + DigitRun(s[1..], radix) else 0
  }

  /** The number a string of base-`radix` digits denotes. */
  function DigitsValue(ds: string, radix: nat): nat
    requires forall i :: 0 <= i < |ds| ==> DigitValue(ds[i], radix).Some?
  {
    if ds == [] then 0
    else Scale(DigitsValue(ds[..|ds| - 1], radix), radix) + DigitValue(ds[|ds| - 1], radix).value
  }

  /** `a * b`, for natural numbers. */
  function Scale(a: nat, b: nat): nat {
    a * b
  }

  /** The value of the longest run of base-`radix` digits at the start of
      `s`, or None when `s` does not start with a digit. */
  function ReadDigits(s: string, radix: nat): (r: Option<nat>)
    ensures r.None? <==> DigitRun(s, radix) == 0
  {
    var n := DigitRun(s, radix);
    if n == 0 then None
    else
      var ds := s[..n];
      assert forall i :: 0 <= i < |ds| ==> DigitValue(ds[i], radix).Some?;
      Some(DigitsValue(ds, radix))
  }

  /** The text starts with `0x` or `0X`. */
  predicate HasHexPrefix(u: string) {
    |u| >= 2 && u[0] == '0' && (u[1] == 'x' || u[1] == 'X')
  }

  /** `parseInt(text)` without a radix: leading white space is skipped, one
      sign is accepted, a `0x`/`0X` prefix selects base 16, and the longest
      run of digits that follows is read; no digits at all gives NaN. */
  function ParseInt(text: string): (v: Value)
    ensures v.Num? || v.NaN?
  {
    var t := TrimStart(text);
    var negative := |t| > 0 && t[0] == '-';
    var u := if |t| > 0 && (t[0] == '-' || t[0] == '+') then t[1..] else t;
    var digits := if HasHexPrefix(u) then ReadDigits(u[2..], 16) else ReadDigits(u, 10);
    match digits
    case None => NaN
    case Some(m) => Num(if negative then 0 - m else m)
  }

  /** `String(n)` for a natural number: decimal, no leading zeros. */
  function NatToString(n: nat): (s: string)
    ensures |s| >= 1
    ensures forall i :: 0 <= i < |s| ==> '0' <= s[i] <= '9'
    ensures n >= 10 ==> s[0] != '0'
  {
    var d := ['0' + (n % 10) as char];
    if n < 10 then d else NatToString(n / 10) + d
  }

  lemma {:induction false} DigitsOfNatToString(n: nat)
    ensures forall i :: 0 <= i < |NatToString(n)| ==> DigitValue(NatToString(n)[i], 10).Some?
    ensures DigitsValue(NatToString(n), 10) == n
  {
    var s := NatToString(n);
    if n >= 10 {
      DigitsOfNatToString(n / 10);
      assert s[..|s| - 1] == NatToString(n / 10);
    }
  }

  /** Reading back the decimal text of a natural number gives the number:
      an identifier that travels through a URL as text and is coerced with
      `parseInt` arrives unchanged. */
  lemma ParseIntNatToString(n: nat)
    ensures ParseInt(NatToString(n)) == Num(n)
  {
    var s := NatToString(n);
    DigitsOfNatToString(n);
    assert TrimStart(s) == s by {
      assert !IsSpace(s[0]);
    }
    assert !HasHexPrefix(s);
    DigitRunAll(s, 10);
    assert s[..|s|] == s;
    assert ReadDigits(s, 10) == Some(n);
  }

  lemma {:induction false} DigitRunAll(s: string, radix: nat)
    requires forall i :: 0 <= i < |s| ==> DigitValue(s[i], radix).Some?
    ensures DigitRun(s, radix) == |s|
  {
    if s != [] {
      DigitRunAll(s[1..], radix);
    }
  }
}
