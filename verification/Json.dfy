/** The tree, the two printed forms and the grammar the parser follows, as
    functions.  The methods in `JsonParser` and `JsonPrinter` compute them. */
module Json {
  import opened JsonStrings

  datatype Value =
    | Null
    | False
    | True
    | Number(n: int)
    | String(s: string)
    | Array(items: seq<Value>)
    | Object(members: seq<Member>)

  datatype Member = Member(name: string, value: Value)

  const INT_MIN: int := -0x8000_0000
  const INT_MAX: int := 0x7FFF_FFFF

  /** Trees the library can hold: 32-bit numbers and C strings. */
  predicate Representable(v: Value)
    decreases v
  {
    match v
    case Number(n) => INT_MIN <= n <= INT_MAX
    case String(s) => CString(s)
    case Array(items) => forall i :: 0 <= i < |items| ==> Representable(items[i])
    case Object(ms) => forall i :: 0 <= i < |ms| ==> CString(ms[i].name) && Representable(ms[i].value)
    case _ => true
  }

  // ----- printing

  function Digits(n: nat): (s: string)
    ensures |s| > 0 && forall i :: 0 <= i < |s| ==> '0' <= s[i] <= '9'
    ensures n > 0 ==> s[0] != '0'
  {
    var d := [(n % 10 + '0' as int) as char];
    if n < 10 then d else Digits(n / 10) + d
  }

  function Decimal(n: int): string {
    if n < 0 then "-" + Digits(-n) else Digits(n)
  }

  function Tabs(n: int): string {
    if n <= 0 then [] else Tabs(n - 1) + ['\t']
  }

  function When(c: bool, s: string): string {
    if c then s else []
  }

  function Print(v: Value, depth: nat, fmt: bool): string
    decreases v, 1
  {
    match v
    case Null => "null"
    case False => "false"
    case True => "true"
    case Number(n) => Decimal(n)
    case String(s) => Quoted(s)
    case Array(items) => "[" + PrintItems(items, depth + 1, fmt) + "]"
    case Object(ms) =>
      if ms == [] then "{" + When(fmt, "\n" + Tabs(depth - 1)) + "}"
      else "{" + When(fmt, "\n") + PrintMembers(ms, depth + 1, fmt) + When(fmt, Tabs(depth)) + "}"
  }

  function PrintItems(items: seq<Value>, depth: nat, fmt: bool): string
    decreases items, 0
  {
    if items == [] then []
    else Print(items[0], depth, fmt) + When(|items| > 1, "," + When(fmt, " ")) + PrintItems(items[1..], depth, fmt)
  }

  function PrintMembers(ms: seq<Member>, depth: nat, fmt: bool): string
    decreases ms, 0
  {
    if ms == [] then []
    else PrintMember(ms[0], depth, fmt) + When(|ms| > 1, ",") + When(fmt, "\n") + PrintMembers(ms[1..], depth, fmt)
  }

  function PrintMember(m: Member, depth: nat, fmt: bool): string
    decreases m, 2
  {
    When(fmt, Tabs(depth)) + Quoted(m.name) + ":" + When(fmt, "\t") + Print(m.value, depth, fmt)
  }

  // ----- parsing

  /** Failure carries the text the error pointer is left at. */
  datatype Parsed<T> = Fail(at: string) | Ok(value: T, rest: string)

  function Skip(t: string): (r: string)
    ensures |r| <= |t|
  {
    if t != [] && 0 < t[0] as int <= 32 then Skip(t[1..]) else t
  }

  predicate IsDigit(c: char) {
    '0' <= c <= '9'
  }

  /** Two's complement value of a 32-bit computation. */
  function Wrap32(n: int): int {
    (n - INT_MIN) % 0x1_0000_0000 + INT_MIN
  }

  function SkipDigits(t: string): (r: string)
    ensures |r| <= |t|
  {
    if IsDigit(Head(t)) then SkipDigits(t[1..]) else t
  }

  /** Folds leading digits into `n`. */
  function Accumulate(t: string, n: int): (r: (int, string))
    ensures |r.1| <= |t|
    decreases |t|
  {
    if IsDigit(Head(t)) then Accumulate(t[1..], Wrap32(Wrap32(n * 10) + t[0] as int - '0' as int)) else (n, t)
  }

  function SkipFraction(t: string): (r: string)
    ensures |r| <= |t|
  {
    if Head(t) == '.' && IsDigit(Head(Advance(t, 1))) then SkipDigits(Advance(t, 1)) else t
  }

  function SkipExponent(t: string): (r: string)
    ensures |r| <= |t|
  {
    if Head(t) == 'e' || Head(t) == 'E' then
      var u := t[1..];
      SkipDigits(if Head(u) == '+' || Head(u) == '-' then u[1..] else u)
    else t
  }

  /** The integer part; a fraction or an exponent is read and ignored. */
  function ParseNumber(t: string): (r: (int, string))
    ensures |r.1| <= |t|
    ensures Head(t) == '-' || IsDigit(Head(t)) ==> |r.1| < |t|
  {
    var negative := Head(t) == '-';
    var t1 := if negative then t[1..] else t;
    var t2 := if Head(t1) == '0' then t1[1..] else t1;
    var (n, t3) := if '1' <= Head(t2) <= '9' then Accumulate(t2, 0) else (0, t2);
    (if negative then Wrap32(-n) else n, SkipExponent(SkipFraction(t3)))
  }

  function ParseString(t: string): (r: Parsed<string>)
    ensures r.Ok? ==> |r.rest| < |t|
  {
    if Head(t) != QUOTE then Fail(t)
    else
      var (s, rest) := Decode(t[1..]);
      Ok(s, if Head(rest) == QUOTE then rest[1..] else rest)
  }

  function Parse(t: string): (r: Parsed<Value>)
    ensures r.Ok? ==> |r.rest| < |t|
    decreases |t|, 0
  {
    if "null" <= t then Ok(Null, t[4..])
    else if "false" <= t then Ok(False, t[5..])
    else if "true" <= t then Ok(True, t[4..])
    else match Head(t)
      case '\"' =>
        (match ParseString(t)
         case Fail(at) => Fail(at)
         case Ok(s, rest) => Ok(String(s), rest))
      case '[' =>
        var u := Skip(t[1..]);
        if Head(u) == ']' then Ok(Array([]), u[1..]) else ParseItems(u, [])
      case '{' =>
        var u := Skip(t[1..]);
        if Head(u) == '}' then Ok(Object([]), u[1..]) else ParseMembers(u, [])
      case c =>
        if c == '-' || IsDigit(c) then var (n, rest) := ParseNumber(t); Ok(Number(n), rest)
        else Fail(t)
  }

  /** One element, then the rest of the array; `done` holds the elements before. */
  function ParseItems(t: string, done: seq<Value>): (r: Parsed<Value>)
    ensures r.Ok? ==> |r.rest| < |t|
    decreases |t|, 1
  {
    match Parse(Skip(t))
    case Fail(at) => Fail(at)
    case Ok(v, after) =>
      var rest := Skip(after);
      if Head(rest) == ',' then ParseItems(rest[1..], done + [v])
      else if Head(rest) == ']' then Ok(Array(done + [v]), rest[1..])
      else Fail(rest)
  }

  function ParseMember(t: string): (r: Parsed<Member>)
    ensures r.Ok? ==> |r.rest| < |t|
    decreases |t|, 1
  {
    match ParseString(Skip(t))
    case Fail(at) => Fail(at)
    case Ok(name, after) =>
      var rest := Skip(after);
      if Head(rest) != ':' then Fail(rest)
      else match Parse(Skip(rest[1..]))
        case Fail(at) => Fail(at)
        case Ok(v, end) => Ok(Member(name, v), Skip(end))
  }

  function ParseMembers(t: string, done: seq<Member>): (r: Parsed<Value>)
    ensures r.Ok? ==> |r.rest| < |t|
    decreases |t|, 2
  {
    match ParseMember(t)
    case Fail(at) => Fail(at)
    case Ok(m, rest) =>
      if Head(rest) == ',' then ParseMembers(rest[1..], done + [m])
      else if Head(rest) == '}' then Ok(Object(done + [m]), rest[1..])
      else Fail(rest)
  }

  /** A document: optional blanks, a value, and, when asked for, nothing else. */
  function ParseDocument(text: string, requireEnd: bool): Parsed<Value> {
    match Parse(Skip(text))
    case Fail(at) => Fail(at)
    case Ok(v, rest) =>
      if !requireEnd then Ok(v, rest)
      else if Head(Skip(rest)) != '\0' then Fail(Skip(rest))
      else Ok(v, Skip(rest))
  }
}
