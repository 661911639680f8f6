/** The JavaScript values a parsed front-matter block hands to the loader, and
    the few JavaScript operations the pipeline applies to them: property
    access, truthiness, `||`, and the string a value becomes when used as an
    object key. */
module JsValue {

  /** One attribute value as the YAML parser yields it; `Undefined` is what
      reading an absent key gives. */
  datatype Value = Undefined | Null | Bool(b: bool) | Num(n: int) | Str(s: string)

  /** The attributes object of one parsed document. */
  type Attributes = map<string, Value>

  /** Property access `data.key`. */
  function Attr(data: Attributes, key: string): Value {
    if key in data then data[key] else Undefined
  }

  /** JavaScript truthiness (`!!v`). */
  function Truthy(v: Value): (r: bool)
    ensures !r <==> v in {Undefined, Null, Bool(false), Num(0), Str("")}
  {
    match v
    case Undefined => false
    case Null => false
    case Bool(b) => b
    case Num(n) => n != 0
    case Str(s) => s != ""
  }

  /** JavaScript `a || b` on attribute values: the first operand when it is
      truthy, otherwise the second. */
  function Or(a: Value, b: Value): (r: Value)
    ensures r == a || r == b
    ensures Truthy(a) ==> r == a
    ensures !Truthy(a) ==> r == b
    ensures Truthy(r) <==> Truthy(a) || Truthy(b)
  {
    if Truthy(a) then a else b
  }

  /** JavaScript `a || b` where both operands are strings: `""` is the only
      falsy string, so a string defaulting to `""` is unchanged. */
  function StrOr(a: string, b: string): (r: string)
    ensures a != "" ==> r == a
    ensures a == "" ==> r == b
    ensures b == "" ==> r == a
  {
    if a != "" then a else b
  }

  /** The character of one decimal digit. */
  function DigitChar(d: nat): char
    requires d < 10
  {
    ('0' as int + d) as char
  }

  /** The value of one decimal digit character. */
  function DigitValue(c: char): nat {
    if '0' <= c <= '9' then c as int - '0' as int else 0
  }

  /** The decimal digits of a natural number, most significant first, with no
      leading zero. */
  function Decimal(n: nat): (r: string)
    ensures |r| > 0
    ensures forall i :: 0 <= i < |r| ==> '0' <= r[i] <= '9'
    ensures n > 0 ==> r[0] != '0'
    ensures n < 10 ==> |r| == 1
    decreases n
  {
    if n < 10 then [DigitChar(n)] else Decimal(n / 10) + [DigitChar(n % 10)]
  }

  /** The number a string of decimal digits denotes. */
  function DecimalValue(s: string): nat
    decreases |s|
  {
    if s == [] then 0 else DecimalValue(s[..|s| - 1]) * 10 + DigitValue(s[|s| - 1])
  }

  /** Reading back the decimal spelling of a number gives the number. */
  lemma {:induction false} DecimalRoundTrip(n: nat)
    ensures DecimalValue(Decimal(n)) == n
    decreases n
  {
    if n >= 10 {
      var r := Decimal(n);
      assert r[..|r| - 1] == Decimal(n / 10);
      DecimalRoundTrip(n / 10);
    }
  }

  /** Different numbers have different decimal spellings. */
  lemma DecimalInjective(m: nat, n: nat)
    requires Decimal(m) == Decimal(n)
    ensures m == n
  {
    DecimalRoundTrip(m);
    DecimalRoundTrip(n);
  }

  /** The string a value is converted to when it indexes an object
      (`String(item.creator)` in `groups[item.creator]`): strings stand for
      themselves, integers print in decimal with a minus sign when negative,
      and the other values print their JavaScript names. */
  function PropertyKey(v: Value): (r: string)
    ensures v.Str? ==> r == v.s
    ensures v.Num? && v.n >= 0 ==> r == Decimal(v.n)
    ensures v.Num? && v.n < 0 ==> r == "-" + Decimal(-v.n)
    ensures v.Num? ==> |r| > 0 && (r[0] == '-' <==> v.n < 0)
    ensures v.Num? && v.n >= 0 ==> DecimalValue(r) == v.n
    ensures v.Bool? ==> r == (if v.b then "true" else "false")
    ensures v == Null ==> r == "null"
    ensures v == Undefined ==> r == "undefined"
  {
    match v
    case Undefined => "undefined"
    case Null => "null"
    case Bool(b) => if b then "true" else "false"
    case Num(n) =>
      DecimalRoundTrip(if n < 0 then -n else n);
      if n < 0 then "-" + Decimal(-n) else Decimal(n)
    case Str(s) => s
  }

  /** Different numbers index different dictionary entries. */
  lemma PropertyKeyNumInjective(a: int, b: int)
    requires PropertyKey(Num(a)) == PropertyKey(Num(b))
    ensures a == b
  {
    if a < 0 && b < 0 {
      assert PropertyKey(Num(a))[1..] == Decimal(-a);
      assert PropertyKey(Num(b))[1..] == Decimal(-b);
      DecimalInjective(-a, -b);
    } else if a >= 0 && b >= 0 {
      DecimalInjective(a, b);
    }
  }

  /** A number and its decimal spelling index the same dictionary entry, so a
      creator written as `1984` and one written as `"1984"` share a group
      although they are different values. */
  lemma NumberKeyMatchesString(n: nat)
    ensures PropertyKey(Num(n)) == PropertyKey(Str(Decimal(n)))
    ensures Num(n) != Str(Decimal(n))
  {
  }
}
