/** The JavaScript values the codec handles, the conversions it applies to
    them implicitly (truthiness in `if (x)`, `String(x)` in `s += x` and
    template literals) and `JSON.stringify`. Numbers are integers here. */
module JsValue {
  import opened Wrappers
  import opened JsString

  /** The media type of JSON text. */
  const JsonType: string := "application/json"

  /** A JavaScript value: primitives, arrays and plain objects (whose
      properties are kept in insertion order). */
  datatype Value =
    | Undefined
    | Null
    | Bool(b: bool)
    | Number(n: int)
    | Str(s: string)
    | Arr(items: seq<Value>)
    | Obj(fields: seq<(string, Value)>)

  /** `if (v)`: everything is truthy except `undefined`, `null`, `false`,
      `0` and the empty string. */
  predicate Truthy(v: Value)
  {
    match v
    case Undefined => false
    case Null => false
    case Bool(b) => b
    case Number(n) => n != 0
    case Str(s) => s != ""
    case Arr(_) => true
    case Obj(_) => true
  }

  predicate IsDigit(c: char)
  {
    '0' <= c <= '9'
  }

  predicate AllDigits(s: string)
  {
    forall k :: 0 <= k < |s| ==> IsDigit(s[k])
  }

  function DigitChar(d: nat): (c: char)
    requires d < 10
    ensures IsDigit(c) && c as int - '0' as int == d
  {
    (d + '0' as int) as char
  }

  /** The decimal digits of `n`, most significant first, without leading zeros. */
  function NatDigits(n: nat): (s: string)
    ensures |s| >= 1 && AllDigits(s)
    ensures s[0] == '0' ==> n == 0
  {
    if n < 10 then [DigitChar(n)] else NatDigits(n / 10) + [DigitChar(n % 10)]
  }

  /** The number a string of decimal digits denotes. */
  function DigitsValue(s: string): nat
    requires AllDigits(s)
  {
    if s == [] then 0
    else DigitsValue(s[..|s| - 1]) * 10 + (s[|s| - 1] as int - '0' as int)
  }

  /** Reading back the digits of `n` gives `n`. */
  lemma {:induction false} DigitsValueOfNatDigits(n: nat)
    ensures DigitsValue(NatDigits(n)) == n
  {
    if n >= 10 {
      var s := NatDigits(n);
      assert s[..|s| - 1] == NatDigits(n / 10);
      DigitsValueOfNatDigits(n / 10);
    }
  }

  /** `String(n)` for an integer `n`: an optional minus sign and the digits. */
  function Decimal(n: int): string
  {
    if n < 0 then "-" + NatDigits(-n) else NatDigits(n)
  }

  /** Reads an optionally signed decimal integer; the inverse of `Decimal`. */
  function ParseDecimal(s: string): (r: Option<int>)
    ensures r.Some? ==> |s| >= 1
  {
    if |s| >= 2 && s[0] == '-' && AllDigits(s[1..]) then Some(-(DigitsValue(s[1..]) as int))
    else if |s| >= 1 && AllDigits(s) then Some(DigitsValue(s))
    else None
  }

  /** `Decimal` is injective: `ParseDecimal` recovers the number, and the
      text never contains a line break or a space. */
  lemma ParseDecimalOfDecimal(n: int)
    ensures ParseDecimal(Decimal(n)) == Some(n)
    ensures forall k :: 0 <= k < |Decimal(n)| ==> Decimal(n)[k] != '\r' && Decimal(n)[k] != ' '
  {
    var d := Decimal(n);
    if n < 0 {
      DigitsValueOfNatDigits(-n);
      assert d[1..] == NatDigits(-n);
      assert d[0] == '-';
    } else {
      DigitsValueOfNatDigits(n);
      assert !IsDigit('-');
    }
  }

  /** `String(v)`, the conversion `s += v` and `${v}` apply. */
  function ToDisplayString(v: Value): string
    decreases v
  {
    match v
    case Undefined => "undefined"
    case Null => "null"
    case Bool(b) => if b then "true" else "false"
    case Number(n) => Decimal(n)
    case Str(s) => s
    case Arr(items) =>
      // Array.prototype.join writes undefined and null elements as ""
      Join(seq(|items|, i requires 0 <= i < |items| =>
             if items[i].Undefined? || items[i].Null? then "" else ToDisplayString(items[i])), ",")
    case Obj(_) => "[object Object]"
  }

  function HexDigit(d: nat): char
    requires d < 16
  {
    "0123456789abcdef"[d]
  }

  /** One character of a JSON string literal, escaped as JSON.stringify does. */
  function QuoteChar(c: char): string
  {
    if c == '"' then "\\\""
    else if c == '\\' then "\\\\"
    else if c == '\U{8}' then "\\b"
    else if c == '\U{C}' then "\\f"
    else if c == '\n' then "\\n"
    else if c == '\r' then "\\r"
    else if c == '\t' then "\\t"
    else if (c as int) < 0x20 then "\\u00" + [HexDigit(c as int / 16), HexDigit(c as int % 16)]
    else [c]
  }

  /** `JSON.stringify(s)` for a string `s`: the quoted, escaped literal. */
  function Quote(s: string): string
  {
    "\"" + QuoteBody(s) + "\""
  }

  function QuoteBody(s: string): string
  {
    if s == [] then "" else QuoteBody(s[..|s| - 1]) + QuoteChar(s[|s| - 1])
  }

  /** A character `JSON.stringify` writes as itself. */
  predicate IsPlainChar(c: char)
  {
    c != '"' && c != '\\' && c as int >= 0x20
  }

  /** A string of plain characters is quoted without escapes. */
  lemma {:induction false} QuoteBodyPlain(s: string)
    requires forall i :: 0 <= i < |s| ==> IsPlainChar(s[i])
    ensures QuoteBody(s) == s
    decreases |s|
  {
    if s != [] {
      QuoteBodyPlain(s[..|s| - 1]);
      assert s == s[..|s| - 1] + [s[|s| - 1]];
    }
  }

  /** The present values of a sequence of optional values: each present
      value is kept and nothing else is added. */
  function Present<T>(xs: seq<Option<T>>): (r: seq<T>)
    ensures |r| <= |xs|
    ensures forall i :: 0 <= i < |xs| && xs[i].Some? ==> xs[i].value in r
    ensures forall j :: 0 <= j < |r| ==> Some(r[j]) in xs
  {
    if xs == [] then []
    else if xs[0].Some? then [xs[0].value] + Present(xs[1..])
    else Present(xs[1..])
  }

  /** Keeping the present values commutes with concatenation, so they stay
      in their order and each keeps its multiplicity. */
  lemma {:induction false} PresentAppend<T>(a: seq<Option<T>>, b: seq<Option<T>>)
    ensures Present(a + b) == Present(a) + Present(b)
    decreases |a|
  {
    if a == [] {
      assert a + b == b;
    } else {
      assert (a + b)[0] == a[0];
      assert (a + b)[1..] == a[1..] + b;
      PresentAppend(a[1..], b);
    }
  }

  /** `JSON.stringify(v)`. An `undefined` array element is written as `null`
      and an `undefined` property is skipped; an `undefined` at the top
      level is never stringified by the codec (it is falsy). */
  function Stringify(v: Value): string
    decreases v
  {
    match v
    case Undefined => "null"
    case Null => "null"
    case Bool(b) => if b then "true" else "false"
    case Number(n) => Decimal(n)
    case Str(s) => Quote(s)
    case Arr(items) =>
      "[" + Join(seq(|items|, i requires 0 <= i < |items| => Stringify(items[i])), ",") + "]"
    case Obj(fields) =>
      var members := seq(|fields|, i requires 0 <= i < |fields| =>
        if fields[i].1.Undefined? then None
        else Some(Quote(fields[i].0) + ":" + Stringify(fields[i].1)));
      "{" + Join(Present(members), ",") + "}"
  }
}
