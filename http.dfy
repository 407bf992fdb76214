/** What the HTTP handlers read and answer: JSON request fields with
    JavaScript's truthiness and `parseInt`, and a reply made of a status
    code and a body. */
module Http {
  import opened Outcomes
  import opened Decimal

  /** A JSON request field as the handlers see it; a missing field reads as
      `Undefined`. Numbers are integers here. */
  datatype Value =
    | Undefined
    | Null
    | Bool(b: bool)
    | Num(n: int)
    | Str(s: string)
    | Arr(items: seq<Value>)
    | Obj(fields: map<string, Value>)

  /** JavaScript truthiness: `undefined`, `null`, `false`, `0` and `""` are
      falsy; every array and object is truthy, even an empty one. */
  predicate Truthy(v: Value) {
    match v
    case Undefined => false
    case Null => false
    case Bool(b) => b
    case Num(n) => n != 0
    case Str(s) => s != ""
    case Arr(_) => true
    case Obj(_) => true
  }

  /** `req.body.name`. */
  function Field(body: map<string, Value>, name: string): Value {
    if name in body then body[name] else Undefined
  }

  datatype Body<D> =
    | Message(message: string)
    | LoginOk(message: string, token: string)
    | Data(data: D)

  /** `res.status(status).json(body)`. */
  datatype Reply<D> = Reply(status: nat, body: Body<D>)

  /** `m || fallback` for a string. */
  function OrDefault(m: string, fallback: string): (r: string)
    ensures r != "" <== fallback != ""
    ensures m != "" ==> r == m
  {
    if m != "" then m else fallback
  }

  /** An optional text column as Prisma takes it: absent or null means no
      value; any other non-string is refused. */
  function OptionalText(v: Value): Option<Option<string>> {
    match v
    case Undefined => Some(None)
    case Null => Some(None)
    case Str(s) => Some(Some(s))
    case _ => None
  }

  /** The white space `parseInt` skips: tab, vertical tab, form feed,
      space, no-break space, byte order mark, the other Unicode space
      separators, and the four line terminators. */
  predicate IsSpace(c: char) {
    || c == '\t' || c == '\U{000B}' || c == '\U{000C}' || c == ' ' || c == '\U{00A0}' || c == '\U{FEFF}'
    || c == '\n' || c == '\r' || c == '\U{2028}' || c == '\U{2029}'
    || c == '\U{1680}' || ('\U{2000}' <= c <= '\U{200A}') || c == '\U{202F}' || c == '\U{205F}' || c == '\U{3000}'
  }

  /** `s` without its leading white space. */
  function TrimStart(s: string): (r: string)
    ensures |r| <= |s| && r == s[|s| - |r|..]
    ensures r == [] || !IsSpace(r[0])
    ensures forall i :: 0 <= i < |s| - |r| ==> IsSpace(s[i])
  {
    if s != [] && IsSpace(s[0]) then TrimStart(s[1..]) else s
  }

  /** `parseInt(s, 10)` on a string: leading white space, an optional sign,
      then the longest run of decimal digits; no digit is NaN (`None`). */
  function ParseIntText(s: string): (r: Option<int>)
    ensures r.None? <==> DigitPrefix(Unsigned(TrimStart(s))) == []
  {
    var t := TrimStart(s);
    var digits := DigitPrefix(Unsigned(t));
    if digits == [] then None
    else
      var magnitude: int := ParseDigits(digits);
      Some(if t[0] == '-' then -magnitude else magnitude)
  }

  /** A number text without its sign character. */
  function Unsigned(t: string): string {
    if t != [] && (t[0] == '-' || t[0] == '+') then t[1..] else t
  }

  /** `parseInt(v, 10)`: the argument is first turned into its text. */
  function ParseInt(v: Value): (r: Option<int>)
    ensures v.Str? ==> r == ParseIntText(v.s)
  {
    match v
    case Num(n) => Some(n)
    case Str(s) => ParseIntText(s)
    case _ => None
  }

  /** Reading back the decimal text of an integer gives the integer, so
      `parseInt` of a JSON number agrees with `parseInt` of its text. */
  lemma ParseIntOfDecimal(n: int)
    ensures ParseIntText(IntToDecimal(n)) == Some(n) == ParseInt(Num(n))
  {
    if n < 0 {
      ParseSigned('-', -n);
    } else {
      ParseSigned('+', n);
    }
  }

  /** The text of `m`, preceded by a minus sign when `sign` is '-'. */
  lemma ParseSigned(sign: char, m: nat)
    requires sign == '-' || sign == '+'
    ensures sign == '-' ==> ParseIntText("-" + NatToDecimal(m)) == Some(-(m as int))
    ensures sign == '+' ==> ParseIntText(NatToDecimal(m)) == Some(m)
  {
    var d := NatToDecimal(m);
    ParseNatToDecimal(m);
    DigitPrefixOfDigits(d);
    assert IsDigit(d[0]);
    var s := if sign == '-' then "-" + d else d;
    assert s[0] == sign || s[0] == d[0];
    TrimStartUnspaced(s);
    assert Unsigned(s) == d;
  }

  /** White space before a number text does not change what `parseInt`
      reads. */
  lemma ParseIntSkipsSpace(c: char, s: string)
    requires IsSpace(c)
    ensures ParseIntText([c] + s) == ParseIntText(s)
  {
    TrimStartSkips(c, s);
  }

  /** TrimStart drops a leading white-space character. */
  lemma TrimStartSkips(c: char, s: string)
    requires IsSpace(c)
    ensures TrimStart([c] + s) == TrimStart(s)
  {
    assert ([c] + s)[1..] == s;
  }

  /** The vertical tab, the form feed and the no-break space count as white
      space: `parseInt("\v5", 10)` reads what `parseInt("5", 10)` reads. */
  lemma ParseIntSkipsUnicodeSpace(s: string)
    ensures ParseIntText(['\U{000B}'] + s) == ParseIntText(s)
    ensures ParseIntText(['\U{000C}'] + s) == ParseIntText(s)
    ensures ParseIntText(['\U{00A0}'] + s) == ParseIntText(s)
  {
    ParseIntSkipsSpace('\U{000B}', s);
    ParseIntSkipsSpace('\U{000C}', s);
    ParseIntSkipsSpace('\U{00A0}', s);
  }

  /** Text that does not start with white space is left as it is. */
  lemma TrimStartUnspaced(s: string)
    requires s != [] && !IsSpace(s[0])
    ensures TrimStart(s) == s
  {
  }

  /** A digit string is its own longest digit prefix. */
  lemma {:induction false} DigitPrefixOfDigits(s: string)
    requires AllDigits(s)
    ensures DigitPrefix(s) == s
  {
    if s != [] {
      DigitPrefixOfDigits(s[1..]);
    }
  }
}
