/** JSON text as Python's `json` module writes and reads it.

    `Dumps` is `json.dumps` with its default separators (`", "` and `": "`)
    and its default ASCII-escaping, `DumpsUnicode` the same with
    `ensure_ascii=False`; `Loads` is `json.loads` on the integer subset
    of JSON (texts holding a fraction, an exponent, `NaN` or `Infinity` are
    rejected here). Objects are Python dicts: when a text repeats a key, the
    key keeps its first position and takes its last value. The round trip
    `Loads(Dumps(v)) == Some(v)` is proved, in both modes, for every value
    whose objects have distinct keys. */
module Json {
  import opened Common
  import opened Strings

  datatype Json =
    | JNull
    | JBool(b: bool)
    | JInt(i: int)
    | JStr(s: string)
    | JArray(items: seq<Json>)
    | JObject(members: seq<Member>)

  datatype Member = Member(key: string, value: Json)

  function Keys(ms: seq<Member>): seq<string> {
    if ms == [] then [] else [ms[0].key] + Keys(ms[1..])
  }

  predicate DistinctKeys(ms: seq<Member>) {
    forall i, j :: 0 <= i < j < |ms| ==> ms[i].key != ms[j].key
  }

  /** A value Python can hold: every object has distinct keys. */
  predicate WellFormed(v: Json)
    decreases v
  {
    match v
    case JArray(items) => forall i :: 0 <= i < |items| ==> WellFormed(items[i])
    case JObject(ms) => DistinctKeys(ms) && forall i :: 0 <= i < |ms| ==> WellFormed(ms[i].value)
    case _ => true
  }

  // ---------------------------------------------------------------------------
  // Encoding (json.dumps)

  predicate IsJsonWs(c: char) {
    c == ' ' || c == '\t' || c == '\n' || c == '\r'
  }

  function HexDigit(d: nat): (c: char)
    requires d < 16
  {
    "0123456789abcdef"[d]
  }

  /** Four lower-case hex digits, as `'{0:04x}'.format(n)` writes them. */
  function Hex4Text(n: nat): (r: string)
    requires n < 0x10000
    ensures |r| == 4
  {
    [HexDigit(n / 0x1000), HexDigit(n / 0x100 % 16), HexDigit(n / 16 % 16), HexDigit(n % 16)]
  }

  /** How one character of a string is written between the quotes. With
      `ascii` (`ensure_ascii=True`, the default) every character outside
      printable ASCII is a `\u` escape, and one above U+FFFF a UTF-16
      surrogate pair of them; without it only control characters are. */
  function EscapeChar(ascii: bool, c: char): (r: string)
    ensures r != []
  {
    if c == '"' then "\\\""
    else if c == '\\' then "\\\\"
    else if c == '\n' then "\\n"
    else if c == '\r' then "\\r"
    else if c == '\t' then "\\t"
    else if c == '\U{8}' then "\\b"
    else if c == '\U{C}' then "\\f"
    else if c < ' ' || (ascii && '~' < c && c as int < 0x10000) then "\\u" + Hex4Text(c as int)
    else if ascii && c as int >= 0x10000 then SurrogateEscape(c)
    else [c]
  }

  /** The surrogate pair of a character above U+FFFF, as two `\u` escapes. */
  function SurrogateEscape(c: char): (r: string)
    requires c as int >= 0x10000
    ensures |r| == 12 && r[0] == '\\'
  {
    var n := c as int - 0x10000;
    PairText(0xD800 + n / 0x400, 0xDC00 + n % 0x400)
  }

  /** The escapes of a high and a low surrogate, one after the other. */
  function PairText(hi: int, lo: int): (r: string)
    requires 0 <= hi < 0x10000 && 0 <= lo < 0x10000
    ensures |r| == 12 && r[0] == '\\'
  {
    "\\u" + Hex4Text(hi) + "\\u" + Hex4Text(lo)
  }

  function EscapeAll(ascii: bool, s: string): string {
    if s == [] then "" else EscapeChar(ascii, s[0]) + EscapeAll(ascii, s[1..])
  }

  function Quote(ascii: bool, s: string): string {
    "\"" + EscapeAll(ascii, s) + "\""
  }

  function Encode(ascii: bool, v: Json): (r: string)
    ensures r != [] && !IsJsonWs(r[0]) && r[0] != ']'
    decreases v
  {
    match v
    case JNull => "null"
    case JBool(b) => if b then "true" else "false"
    case JInt(i) => IntToString(i)
    case JStr(s) => Quote(ascii, s)
    case JArray(items) => "[" + EncodeItems(ascii, items) + "]"
    case JObject(ms) => "{" + EncodeMembers(ascii, ms) + "}"
  }

  function EncodeItems(ascii: bool, vs: seq<Json>): (r: string)
    ensures vs != [] ==> r != [] && !IsJsonWs(r[0]) && r[0] != ']'
    decreases vs
  {
    if vs == [] then ""
    else if |vs| == 1 then Encode(ascii, vs[0])
    else Encode(ascii, vs[0]) + ", " + EncodeItems(ascii, vs[1..])
  }

  function EncodeMembers(ascii: bool, ms: seq<Member>): (r: string)
    ensures ms != [] ==> r != [] && r[0] == '"'
    decreases ms
  {
    if ms == [] then ""
    else
      var m := Quote(ascii, ms[0].key) + ": " + Encode(ascii, ms[0].value);
      if |ms| == 1 then m else m + ", " + EncodeMembers(ascii, ms[1..])
  }

  /** Python `json.dumps(v)`, with its default `ensure_ascii=True`. */
  function Dumps(v: Json): (r: string)
    ensures r != []
  {
    Encode(true, v)
  }

  /** Python `json.dumps(v, ensure_ascii=False)`. */
  function DumpsUnicode(v: Json): (r: string)
    ensures r != []
  {
    Encode(false, v)
  }

  // ---------------------------------------------------------------------------
  // Decoding (json.loads)

  function SkipWs(s: string): (r: string)
    ensures |r| <= |s|
    ensures r != [] ==> !IsJsonWs(r[0])
  {
    if s != [] && IsJsonWs(s[0]) then SkipWs(s[1..]) else s
  }

  function HexValue(c: char): Option<nat> {
    if '0' <= c <= '9' then Some(c as int - '0' as int)
    else if 'a' <= c <= 'f' then Some(c as int - 'a' as int + 10)
    else if 'A' <= c <= 'F' then Some(c as int - 'A' as int + 10)
    else None
  }

  /** The value of exactly four hex digits, as after `\u`. */
  function Hex4(s: string): (r: Option<nat>)
    requires |s| == 4
    ensures r.Some? ==> r.value < 0x10000
  {
    match (HexValue(s[0]), HexValue(s[1]), HexValue(s[2]), HexValue(s[3]))
    case (Some(a), Some(b), Some(c), Some(d)) =>
      if a < 16 && b < 16 && c < 16 && d < 16 then Some(a * 4096 + b * 256 + c * 16 + d) else None
    case _ => None
  }

  /** After `\u`: one code unit, or a surrogate pair written as two escapes. */
  function ParseUnicodeEscape(s: string): (r: Option<(char, string)>)
    ensures r.Some? ==> |r.value.1| < |s|
  {
    if |s| < 4 then None
    else match Hex4(s[..4])
      case None => None
      case Some(n) =>
        if 0xD800 <= n < 0xDC00 then
          if |s| >= 10 && s[4] == '\\' && s[5] == 'u' then
            match Hex4(s[6..10])
            case Some(m) =>
              if 0xDC00 <= m < 0xE000
              then Some(((0x10000 + (n - 0xD800) * 0x400 + (m - 0xDC00)) as char, s[10..]))
              else None
            case None => None
          else None
        else if 0xDC00 <= n < 0xE000 then None
        else Some((n as char, s[4..]))
  }

  /** After a backslash inside a string. */
  function ParseEscape(s: string): (r: Option<(char, string)>)
    ensures r.Some? ==> |r.value.1| < |s|
  {
    if s == [] then None
    else if s[0] == '"' then Some(('"', s[1..]))
    else if s[0] == '\\' then Some(('\\', s[1..]))
    else if s[0] == '/' then Some(('/', s[1..]))
    else if s[0] == 'b' then Some(('\U{8}', s[1..]))
    else if s[0] == 'f' then Some(('\U{C}', s[1..]))
    else if s[0] == 'n' then Some(('\n', s[1..]))
    else if s[0] == 'r' then Some(('\r', s[1..]))
    else if s[0] == 't' then Some(('\t', s[1..]))
    else if s[0] == 'u' then ParseUnicodeEscape(s[1..])
    else None
  }

  /** The body of a string after its opening quote, up to and including the
      closing quote; raw control characters are refused (strict mode). */
  function ParseString(s: string): (r: Option<(string, string)>)
    ensures r.Some? ==> |r.value.1| < |s|
    decreases |s|
  {
    if s == [] then None
    else if s[0] == '"' then Some(([], s[1..]))
    else if s[0] == '\\' then
      match ParseEscape(s[1..])
      case None => None
      case Some((c, after)) =>
        match ParseString(after)
        case None => None
        case Some((body, rest)) => Some(([c] + body, rest))
    else if s[0] < ' ' then None
    else
      match ParseString(s[1..])
      case None => None
      case Some((body, rest)) => Some(([s[0]] + body, rest))
  }

  /** The longest run of digits at the start of `s`. */
  function DigitRun(s: string): (r: string)
    ensures |r| <= |s| && r == s[..|r|] && AllDigits(r)
    ensures |r| < |s| ==> !IsDigit(s[|r|])
  {
    if s != [] && IsDigit(s[0]) then [s[0]] + DigitRun(s[1..]) else []
  }

  /** The digits of an integer without its sign; a number with a fraction
      or an exponent is refused. */
  function ParseDigits(body: string): (r: Option<(nat, string)>)
    ensures r.Some? ==> |r.value.1| < |body|
  {
    if body == [] || !IsDigit(body[0]) then None
    else
      var ds := if body[0] == '0' then "0" else DigitRun(body);
      var after := body[|ds|..];
      if after != [] && (after[0] == '.' || after[0] == 'e' || after[0] == 'E') then None
      else Some((DigitsValue(ds), after))
  }

  /** An integer with an optional minus sign. */
  function ParseNumber(t: string): (r: Option<(Json, string)>)
    requires t != []
    ensures r.Some? ==> |r.value.1| < |t|
  {
    if t[0] == '-' then
      match ParseDigits(t[1..])
      case None => None
      case Some((n, after)) => Some((JInt(-(n as int)), after))
    else
      match ParseDigits(t)
      case None => None
      case Some((n, after)) => Some((JInt(n), after))
  }

  function ParseLiteral(t: string, word: string, v: Json): (r: Option<(Json, string)>)
    requires word != []
    ensures r.Some? ==> |r.value.1| < |t|
  {
    if |word| <= |t| && t[..|word|] == word then Some((v, t[|word|..])) else None
  }

  /** The value of the first member named `k`, if any. */
  function Lookup(ms: seq<Member>, k: string): (r: Option<Json>)
    ensures r.None? <==> forall i :: 0 <= i < |ms| ==> ms[i].key != k
  {
    if ms == [] then None
    else if ms[0].key == k then Some(ms[0].value)
    else Lookup(ms[1..], k)
  }

  /** Python's `dict(pairs)` for one more pair in front of the pairs already
      read: a repeated key stays in front and keeps the later value. */
  function AddMember(k: string, v: Json, ms: seq<Member>): seq<Member> {
    match Lookup(ms, k)
    case Some(later) => [Member(k, later)] + RemoveKey(ms, k)
    case None => [Member(k, v)] + ms
  }

  function RemoveKey(ms: seq<Member>, k: string): seq<Member> {
    if ms == [] then []
    else if ms[0].key == k then RemoveKey(ms[1..], k)
    else [ms[0]] + RemoveKey(ms[1..], k)
  }

  function ParseValue(s: string): (r: Option<(Json, string)>)
    ensures r.Some? ==> |r.value.1| < |s|
    decreases |s|, 3
  {
    ParseAt(SkipWs(s))
  }

  /** A value starting at the first character of `t`. */
  function ParseAt(t: string): (r: Option<(Json, string)>)
    ensures r.Some? ==> |r.value.1| < |t|
    decreases |t|, 2
  {
    if t == [] then None
    else if t[0] == 'n' then ParseLiteral(t, "null", JNull)
    else if t[0] == 't' then ParseLiteral(t, "true", JBool(true))
    else if t[0] == 'f' then ParseLiteral(t, "false", JBool(false))
    else if t[0] == '"' then ParseStringValue(t)
    else if t[0] == '[' then ParseArray(t)
    else if t[0] == '{' then ParseObject(t)
    else if t[0] == '-' || IsDigit(t[0]) then ParseNumber(t)
    else None
  }

  function ParseStringValue(t: string): (r: Option<(Json, string)>)
    requires t != []
    ensures r.Some? ==> |r.value.1| < |t|
  {
    match ParseString(t[1..])
    case None => None
    case Some((body, rest)) => Some((JStr(body), rest))
  }

  function ParseArray(t: string): (r: Option<(Json, string)>)
    requires t != []
    ensures r.Some? ==> |r.value.1| < |t|
    decreases |t|, 1
  {
    var u := SkipWs(t[1..]);
    if u != [] && u[0] == ']' then Some((JArray([]), u[1..]))
    else
      match ParseItems(u)
      case None => None
      case Some((items, rest)) => Some((JArray(items), rest))
  }

  function ParseObject(t: string): (r: Option<(Json, string)>)
    requires t != []
    ensures r.Some? ==> |r.value.1| < |t|
    decreases |t|, 1
  {
    var u := SkipWs(t[1..]);
    if u != [] && u[0] == '}' then Some((JObject([]), u[1..]))
    else
      match ParseMembers(u)
      case None => None
      case Some((ms, rest)) => Some((JObject(ms), rest))
  }

  /** One or more array elements and the closing bracket. */
  function ParseItems(s: string): (r: Option<(seq<Json>, string)>)
    ensures r.Some? ==> |r.value.1| < |s|
    decreases |s|, 4
  {
    match ParseValue(s)
    case None => None
    case Some((v, after)) =>
      var t := SkipWs(after);
      if t != [] && t[0] == ']' then Some(([v], t[1..]))
      else if t != [] && t[0] == ',' then
        match ParseItems(SkipWs(t[1..]))
        case None => None
        case Some((vs, rest)) => Some(([v] + vs, rest))
      else None
  }

  /** One or more `"key": value` members and the closing brace. */
  function ParseMembers(s: string): (r: Option<(seq<Member>, string)>)
    ensures r.Some? ==> |r.value.1| < |s|
    decreases |s|, 4
  {
    if s == [] || s[0] != '"' then None
    else
      match ParseString(s[1..])
      case None => None
      case Some((k, afterKey)) =>
        var t := SkipWs(afterKey);
        if t == [] || t[0] != ':' then None
        else
          match ParseValue(t[1..])
          case None => None
          case Some((v, after)) =>
            var u := SkipWs(after);
            if u != [] && u[0] == '}' then Some(([Member(k, v)], u[1..]))
            else if u != [] && u[0] == ',' then
              match ParseMembers(SkipWs(u[1..]))
              case None => None
              case Some((ms, rest)) => Some((AddMember(k, v, ms), rest))
            else None
  }

  /** Python `json.loads(s)`: one value, with only whitespace around it. */
  function Loads(s: string): Option<Json> {
    match ParseValue(s)
    case None => None
    case Some((v, rest)) => if SkipWs(rest) == [] then Some(v) else None
  }

  // ---------------------------------------------------------------------------
  // Python's str() and repr() of a decoded value (used in f-strings)

  /** `str(x)` of the Python object a JSON value decodes to: a string is
      itself, anything else its `repr`. */
  function PyStr(v: Json): string
    decreases v, 1
  {
    match v
    case JStr(s) => s
    case _ => PyRepr(v)
  }

  /** `repr(x)`: the strings inside containers, keys included, are quoted
      and escaped as `StrRepr` says. */
  function PyRepr(v: Json): string
    decreases v, 0
  {
    match v
    case JNull => "None"
    case JBool(b) => if b then "True" else "False"
    case JInt(i) => IntToString(i)
    case JStr(s) => StrRepr(s)
    case JArray(items) => "[" + ReprItems(items) + "]"
    case JObject(ms) => "{" + ReprMembers(ms) + "}"
  }

  function ReprItems(vs: seq<Json>): string
    decreases vs
  {
    if vs == [] then ""
    else if |vs| == 1 then PyRepr(vs[0])
    else PyRepr(vs[0]) + ", " + ReprItems(vs[1..])
  }

  function ReprMembers(ms: seq<Member>): string
    decreases ms
  {
    if ms == [] then ""
    else
      var m := StrRepr(ms[0].key) + ": " + PyRepr(ms[0].value);
      if |ms| == 1 then m else m + ", " + ReprMembers(ms[1..])
  }

  /** The quote `repr` puts around a string: a double quote when the text
      holds a single quote and no double quote, else a single quote. */
  function ReprQuote(s: string): (q: char)
    ensures q == '\'' || q == '"'
    ensures q == '"' <==> '\'' in s && '"' !in s
  {
    if '\'' in s && '"' !in s then '"' else '\''
  }

  /** The characters `repr` writes as `\xhh`: the other control characters,
      DEL, and the Latin-1 characters Python does not count as printable
      (U+0080 to U+00A0, and the soft hyphen U+00AD). */
  predicate HexEscaped(c: char) {
    (c < ' ' && c != '\t' && c != '\n' && c != '\r') || ('\U{7F}' <= c <= '\U{A0}') || c == '\U{AD}'
  }

  /** How `repr` writes one character between the quotes `q`. */
  function ReprChar(q: char, c: char): (r: string)
    ensures r != []
  {
    if c == q || c == '\\' then ['\\', c]
    else if c == '\t' then "\\t"
    else if c == '\n' then "\\n"
    else if c == '\r' then "\\r"
    else if HexEscaped(c) then "\\x" + [HexDigit(c as int / 16), HexDigit(c as int % 16)]
    else [c]
  }

  function ReprBody(q: char, s: string): string {
    if s == [] then "" else ReprChar(q, s[0]) + ReprBody(q, s[1..])
  }

  /** Python `repr(s)` of a string. */
  function StrRepr(s: string): (r: string)
    ensures |r| >= 2 && r[0] == ReprQuote(s) && r[|r| - 1] == ReprQuote(s)
  {
    var q := ReprQuote(s);
    [q] + ReprBody(q, s) + [q]
  }

  // Reading a string literal back, as Python's parser does for what `repr`
  // writes.

  /** After a backslash inside a literal. */
  function ReadEscape(t: string): (r: Option<(char, string)>)
    ensures r.Some? ==> |r.value.1| < |t|
  {
    if t == [] then None
    else if t[0] == '\\' || t[0] == '\'' || t[0] == '"' then Some((t[0], t[1..]))
    else if t[0] == 't' then Some(('\t', t[1..]))
    else if t[0] == 'n' then Some(('\n', t[1..]))
    else if t[0] == 'r' then Some(('\r', t[1..]))
    else if t[0] == 'x' && |t| >= 3 && HexValue(t[1]).Some? && HexValue(t[2]).Some? then
      Some(((HexValue(t[1]).value * 16 + HexValue(t[2]).value) as char, t[3..]))
    else None
  }

  /** The body of a literal up to and including its closing quote `q`. */
  function ReadBody(q: char, t: string): (r: Option<(string, string)>)
    decreases |t|
  {
    if t == [] then None
    else if t[0] == q then Some(([], t[1..]))
    else if t[0] == '\\' then
      match ReadEscape(t[1..])
      case None => None
      case Some((c, after)) =>
        match ReadBody(q, after)
        case None => None
        case Some((body, rest)) => Some(([c] + body, rest))
    else
      match ReadBody(q, t[1..])
      case None => None
      case Some((body, rest)) => Some(([t[0]] + body, rest))
  }

  /** A whole quoted literal. */
  function ReadLiteral(t: string): (r: Option<string>) {
    if t == [] || (t[0] != '\'' && t[0] != '"') then None
    else match ReadBody(t[0], t[1..])
      case Some((body, rest)) => if rest == [] then Some(body) else None
      case None => None
  }

  /** Python truthiness: `None`, `False`, `0`, `""`, `[]` and `{}` are false. */
  predicate Truthy(v: Json) {
    match v
    case JNull => false
    case JBool(b) => b
    case JInt(i) => i != 0
    case JStr(s) => s != []
    case JArray(items) => items != []
    case JObject(ms) => ms != []
  }

  // ---------------------------------------------------------------------------
  // Round trip

  /** What may follow a value inside a larger text written by `Encode`. */
  predicate Stop(rest: string) {
    rest == [] || rest[0] == ',' || rest[0] == ']' || rest[0] == '}'
  }

  lemma SkipWsNone(s: string)
    requires s == [] || !IsJsonWs(s[0])
    ensures SkipWs(s) == s
  {
  }

  lemma {:induction false} DigitRunOfDigits(ds: string, rest: string)
    requires AllDigits(ds)
    requires rest == [] || !IsDigit(rest[0])
    ensures DigitRun(ds + rest) == ds
  {
    if ds != [] {
      assert (ds + rest)[1..] == ds[1..] + rest;
      DigitRunOfDigits(ds[1..], rest);
      assert [ds[0]] + ds[1..] == ds;
    }
  }

  /** A run of digits without a leading zero reads back as its value,
      when what follows it cannot continue a number. */
  lemma DigitsParse(ds: string, rest: string)
    requires AllDigits(ds) && ds != [] && (ds[0] == '0' ==> ds == "0")
    requires Stop(rest)
    ensures ParseDigits(ds + rest) == Some((DigitsValue(ds), rest))
  {
    var body := ds + rest;
    assert body[0] == ds[0];
    if ds[0] != '0' {
      DigitRunOfDigits(ds, rest);
    }
    assert body[|ds|..] == rest;
  }

  lemma NegativeParse(ds: string, rest: string, n: nat)
    requires ParseDigits(ds + rest) == Some((n, rest))
    ensures ParseNumber("-" + ds + rest) == Some((JInt(-(n as int)), rest))
  {
    assert ("-" + ds + rest)[1..] == ds + rest;
  }

  lemma NumberRoundTrip(i: int, rest: string)
    requires Stop(rest)
    ensures ParseNumber(IntToString(i) + rest) == Some((JInt(i), rest))
  {
    var n: nat := if i < 0 then -i else i;
    var ds := NatToString(n);
    DigitsValueOfNatToString(n);
    DigitsParse(ds, rest);
    if i < 0 {
      NegativeParse(ds, rest, n);
    } else {
      assert (ds + rest)[0] == ds[0];
    }
  }

  lemma HexDigitValue(d: nat)
    requires d < 16
    ensures HexValue(HexDigit(d)) == Some(d)
  {
    assert "0123456789abcdef"[d] == HexDigit(d);
  }

  /** The four digits of a number below 0x10000 and their weights. */
  lemma HexSplit(n: nat)
    requires n < 0x10000
    ensures n / 0x1000 < 16
    ensures n / 0x1000 * 4096 + n / 0x100 % 16 * 256 + n / 16 % 16 * 16 + n % 16 == n
  {
    var q1 := n / 16;
    var q2 := q1 / 16;
    var q3 := q2 / 16;
    assert n == q1 * 16 + n % 16;
    assert q1 == q2 * 16 + q1 % 16;
    assert q2 == q3 * 16 + q2 % 16;
    assert q2 == n / 0x100;
    assert q3 == n / 0x1000;
  }

  /** Four written hex digits read back as their number. */
  lemma Hex4TextValue(n: nat)
    requires n < 0x10000
    ensures Hex4(Hex4Text(n)) == Some(n)
  {
    HexSplit(n);
    HexDigitValue(n / 0x1000);
    HexDigitValue(n / 0x100 % 16);
    HexDigitValue(n / 16 % 16);
    HexDigitValue(n % 16);
  }

  /** A `\u` escape of one code unit reads back as its character. */
  lemma UnicodeEscapeParses(c: char, tail: string)
    requires c as int < 0x10000
    ensures ParseEscape("u" + Hex4Text(c as int) + tail) == Some((c, tail))
  {
    var t := "u" + Hex4Text(c as int) + tail;
    Hex4TextValue(c as int);
    assert t[1..][..4] == Hex4Text(c as int);
    assert t[1..][4..] == tail;
  }

  /** The two escapes of a surrogate pair read back as one character. */
  lemma SurrogatePairParses(c: char, tail: string)
    requires c as int >= 0x10000
    ensures ParseEscape(SurrogateEscape(c)[1..] + tail) == Some((c, tail))
  {
    var n := c as int - 0x10000;
    var hi, lo := 0xD800 + n / 0x400, 0xDC00 + n % 0x400;
    SurrogateHalves(c);
    HalvesParse(hi, lo, tail);
    assert (0x10000 + (hi - 0xD800) * 0x400 + (lo - 0xDC00)) as char == c;
  }

  /** The two halves of a surrogate pair, and the character they make up. */
  lemma SurrogateHalves(c: char)
    requires c as int >= 0x10000
    ensures var n := c as int - 0x10000;
      && 0xD800 <= 0xD800 + n / 0x400 < 0xDC00
      && 0xDC00 <= 0xDC00 + n % 0x400 < 0xE000
      && 0x10000 + (n / 0x400) * 0x400 + n % 0x400 == c as int
  {
  }

  /** A high and a low surrogate written as escapes read back as the
      character they make up. */
  lemma HalvesParse(hi: int, lo: int, tail: string)
    requires 0xD800 <= hi < 0xDC00 && 0xDC00 <= lo < 0xE000
    ensures ParseEscape(PairText(hi, lo)[1..] + tail)
      == Some(((0x10000 + (hi - 0xD800) * 0x400 + (lo - 0xDC00)) as char, tail))
  {
    PairTextTail(hi, lo, tail);
    Hex4TextValue(hi);
    Hex4TextValue(lo);
    PairParse(Hex4Text(hi), Hex4Text(lo), hi, lo, tail);
  }

  /** A pair's text after its first backslash. */
  lemma PairTextTail(hi: int, lo: int, tail: string)
    requires 0xD800 <= hi < 0xDC00 && 0xDC00 <= lo < 0xE000
    ensures PairText(hi, lo)[1..] + tail == "u" + Hex4Text(hi) + "\\u" + Hex4Text(lo) + tail
  {
    var a, b := Hex4Text(hi), Hex4Text(lo);
    assert PairText(hi, lo) == ['\\'] + ("u" + a + "\\u" + b);
  }

  /** `ParseEscape` on `u`, four hex digits of a high surrogate, `\u` and
      four hex digits of a low one. */
  lemma PairParse(a: string, b: string, hi: int, lo: int, tail: string)
    requires 0xD800 <= hi < 0xDC00 && 0xDC00 <= lo < 0xE000
    requires |a| == 4 && |b| == 4 && Hex4(a) == Some(hi) && Hex4(b) == Some(lo)
    ensures ParseEscape("u" + a + "\\u" + b + tail)
      == Some(((0x10000 + (hi - 0xD800) * 0x400 + (lo - 0xDC00)) as char, tail))
  {
    var t := "u" + a + "\\u" + b + tail;
    var u := a + "\\u" + b + tail;
    assert t[0] == 'u' && t[1..] == u;
    assert u[..4] == a;
    assert u[4] == '\\' && u[5] == 'u';
    assert u[6..10] == b;
    assert u[10..] == tail;
    PairRead(u, hi, lo);
  }

  /** `ParseUnicodeEscape` on a text that starts with a high and a low
      surrogate's escapes. */
  lemma PairRead(u: string, hi: int, lo: int)
    requires 0xD800 <= hi < 0xDC00 && 0xDC00 <= lo < 0xE000
    requires |u| >= 10 && Hex4(u[..4]) == Some(hi) && u[4] == '\\' && u[5] == 'u' && Hex4(u[6..10]) == Some(lo)
    ensures ParseUnicodeEscape(u) == Some(((0x10000 + (hi - 0xD800) * 0x400 + (lo - 0xDC00)) as char, u[10..]))
  {
  }

  /** One written character is read back as that character. */
  lemma EscapeCharParses(ascii: bool, c: char, tail: string)
    ensures ParseString(EscapeChar(ascii, c) + tail) ==
      match ParseString(tail)
      case None => None
      case Some((body, rest)) => Some(([c] + body, rest))
  {
    if c == '"' || c == '\\' || c == '\n' || c == '\r' || c == '\t' || c == '\U{8}' || c == '\U{C}' {
      ShortEscapeCharParses(ascii, c, tail);
    } else if c < ' ' || (ascii && '~' < c && c as int < 0x10000) {
      UnicodeEscapeCharParses(ascii, c, tail);
    } else if ascii && c as int >= 0x10000 {
      SurrogateEscapeCharParses(c, tail);
    } else {
      var s := EscapeChar(ascii, c) + tail;
      assert s[0] == c && s[1..] == tail;
    }
  }

  /** What `ParseString` gives for `c` followed by `tail`. */
  function ConsParsed(c: char, tail: string): Option<(string, string)> {
    match ParseString(tail)
    case None => None
    case Some((body, rest)) => Some(([c] + body, rest))
  }

  lemma ShortEscapeCharParses(ascii: bool, c: char, tail: string)
    requires c == '"' || c == '\\' || c == '\n' || c == '\r' || c == '\t' || c == '\U{8}' || c == '\U{C}'
    ensures ParseString(EscapeChar(ascii, c) + tail) == ConsParsed(c, tail)
  {
    var e := EscapeChar(ascii, c);
    assert |e| == 2 && e[0] == '\\';
    ShortEscapeParses(e[1], c, tail);
    BackslashParses([e[1]] + tail, c, tail);
    assert e + tail == "\\" + ([e[1]] + tail);
  }

  lemma UnicodeEscapeCharParses(ascii: bool, c: char, tail: string)
    requires c != '"' && c != '\\' && c != '\n' && c != '\r' && c != '\t' && c != '\U{8}' && c != '\U{C}'
    requires c < ' ' || (ascii && '~' < c && c as int < 0x10000)
    ensures ParseString(EscapeChar(ascii, c) + tail) == ConsParsed(c, tail)
  {
    assert EscapeChar(ascii, c) == "\\u" + Hex4Text(c as int);
    UnicodeEscapeParses(c, tail);
    BackslashParses("u" + Hex4Text(c as int) + tail, c, tail);
    assert EscapeChar(ascii, c) + tail == "\\" + ("u" + Hex4Text(c as int) + tail);
  }

  lemma SurrogateEscapeCharParses(c: char, tail: string)
    requires c as int >= 0x10000
    ensures ParseString(EscapeChar(true, c) + tail) == ConsParsed(c, tail)
  {
    var e := SurrogateEscape(c);
    assert e + tail == "\\" + (e[1..] + tail);
    EscapeCharSurrogate(c);
    SurrogatePairParses(c, tail);
    BackslashParses(e[1..] + tail, c, tail);
  }

  /** In ASCII mode a character above U+FFFF is written as a surrogate
      pair. */
  lemma EscapeCharSurrogate(c: char)
    requires c as int >= 0x10000
    ensures EscapeChar(true, c) == SurrogateEscape(c)
  {
  }

  /** A backslash followed by an escape that reads as `c` reads as `c`. */
  lemma BackslashParses(e: string, c: char, tail: string)
    requires ParseEscape(e) == Some((c, tail))
    ensures ParseString("\\" + e) ==
      match ParseString(tail)
      case None => None
      case Some((body, rest)) => Some(([c] + body, rest))
  {
    assert ("\\" + e)[1..] == e;
  }

  /** The two-character escapes `EscapeChar` writes read back. */
  lemma ShortEscapeParses(x: char, c: char, tail: string)
    requires EscapeChar(false, c) == ['\\', x] || EscapeChar(true, c) == ['\\', x]
    ensures ParseEscape([x] + tail) == Some((c, tail))
  {
    assert ([x] + tail)[1..] == tail;
  }

  lemma {:induction false} StringRoundTrip(ascii: bool, body: string, rest: string)
    ensures ParseString(EscapeAll(ascii, body) + "\"" + rest) == Some((body, rest))
  {
    if body == [] {
      assert EscapeAll(ascii, body) + "\"" + rest == "\"" + rest;
    } else {
      var tail := EscapeAll(ascii, body[1..]) + "\"" + rest;
      EscapeAllCons(ascii, body, rest);
      StringRoundTrip(ascii, body[1..], rest);
      EscapeCharParses(ascii, body[0], tail);
      assert [body[0]] + body[1..] == body;
    }
  }

  /** The escaped text of a non-empty string, split after its first
      character. */
  lemma EscapeAllCons(ascii: bool, body: string, rest: string)
    requires body != []
    ensures EscapeAll(ascii, body) + "\"" + rest ==
      EscapeChar(ascii, body[0]) + (EscapeAll(ascii, body[1..]) + "\"" + rest)
  {
  }

  lemma QuoteRoundTrip(ascii: bool, body: string, rest: string)
    ensures ParseString((Quote(ascii, body) + rest)[1..]) == Some((body, rest))
  {
    assert (Quote(ascii, body) + rest)[1..] == EscapeAll(ascii, body) + "\"" + rest;
    StringRoundTrip(ascii, body, rest);
  }

  lemma {:induction false} KeysDistinctTail(ms: seq<Member>)
    requires ms != [] && DistinctKeys(ms)
    ensures DistinctKeys(ms[1..])
    ensures forall i :: 0 <= i < |ms[1..]| ==> ms[1..][i].key != ms[0].key
  {
    forall i | 0 <= i < |ms[1..]|
      ensures ms[1..][i].key != ms[0].key
    {
      assert ms[1..][i] == ms[i + 1];
    }
  }

  lemma AddFreshMember(k: string, v: Json, ms: seq<Member>)
    requires forall i :: 0 <= i < |ms| ==> ms[i].key != k
    ensures AddMember(k, v, ms) == [Member(k, v)] + ms
  {
  }

  lemma ParseValueNoWs(s: string)
    requires s != [] && !IsJsonWs(s[0])
    ensures ParseValue(s) == ParseAt(s)
  {
    SkipWsNone(s);
  }

  lemma SkipOneSpace(tail: string)
    requires tail != [] && !IsJsonWs(tail[0])
    ensures SkipWs(" " + tail) == tail
  {
    assert (" " + tail)[1..] == tail;
    SkipWsNone(tail);
  }

  lemma LiteralRoundTrip(word: string, v: Json, rest: string)
    requires word != []
    ensures ParseLiteral(word + rest, word, v) == Some((v, rest))
  {
    assert (word + rest)[..|word|] == word && (word + rest)[|word|..] == rest;
  }

  lemma IntValueRoundTrip(i: int, rest: string)
    requires Stop(rest)
    ensures ParseAt(IntToString(i) + rest) == Some((JInt(i), rest))
  {
    var s := IntToString(i) + rest;
    NumberRoundTrip(i, rest);
    assert s[0] == '-' || IsDigit(s[0]);
  }

  lemma StringValueRoundTrip(ascii: bool, body: string, rest: string)
    ensures ParseAt(Quote(ascii, body) + rest) == Some((JStr(body), rest))
  {
    QuoteRoundTrip(ascii, body, rest);
  }

  lemma ArrayRoundTrip(ascii: bool, items: seq<Json>, rest: string)
    requires forall i :: 0 <= i < |items| ==> WellFormed(items[i])
    ensures ParseArray("[" + EncodeItems(ascii, items) + "]" + rest) == Some((JArray(items), rest))
    decreases items, 2
  {
    var t := "[" + EncodeItems(ascii, items) + "]" + rest;
    var u := EncodeItems(ascii, items) + "]" + rest;
    assert t[1..] == u;
    if items == [] {
      assert u == "]" + rest;
      SkipWsNone(u);
    } else {
      SkipWsNone(u);
      ItemsRoundTrip(ascii, items, rest);
    }
  }

  lemma ObjectRoundTrip(ascii: bool, ms: seq<Member>, rest: string)
    requires DistinctKeys(ms)
    requires forall i :: 0 <= i < |ms| ==> WellFormed(ms[i].value)
    ensures ParseObject("{" + EncodeMembers(ascii, ms) + "}" + rest) == Some((JObject(ms), rest))
    decreases ms, 2
  {
    var t := "{" + EncodeMembers(ascii, ms) + "}" + rest;
    var u := EncodeMembers(ascii, ms) + "}" + rest;
    assert t[1..] == u;
    if ms == [] {
      assert u == "}" + rest;
      SkipWsNone(u);
    } else {
      SkipWsNone(u);
      MembersRoundTrip(ascii, ms, rest);
    }
  }

  /** Every well-formed value reads back from its own text, whatever legal
      continuation follows it. */
  lemma {:induction false} ValueRoundTrip(ascii: bool, v: Json, rest: string)
    requires WellFormed(v) && Stop(rest)
    ensures ParseValue(Encode(ascii, v) + rest) == Some((v, rest))
    decreases v, 3
  {
    if v.JArray? {
      ArrayValueRoundTrip(ascii, v, rest);
    } else if v.JObject? {
      ObjectValueRoundTrip(ascii, v, rest);
    } else {
      var s := Encode(ascii, v) + rest;
      ParseValueNoWs(s);
      ScalarRoundTrip(ascii, v, rest);
    }
  }

  lemma {:induction false} ArrayValueRoundTrip(ascii: bool, v: Json, rest: string)
    requires v.JArray? && WellFormed(v)
    ensures ParseValue(Encode(ascii, v) + rest) == Some((v, rest))
    decreases v, 2
  {
    var s := Encode(ascii, v) + rest;
    assert s == "[" + EncodeItems(ascii, v.items) + "]" + rest;
    ParseValueNoWs(s);
    ArrayRoundTrip(ascii, v.items, rest);
  }

  lemma {:induction false} ObjectValueRoundTrip(ascii: bool, v: Json, rest: string)
    requires v.JObject? && WellFormed(v)
    ensures ParseValue(Encode(ascii, v) + rest) == Some((v, rest))
    decreases v, 2
  {
    var s := Encode(ascii, v) + rest;
    assert s == "{" + EncodeMembers(ascii, v.members) + "}" + rest;
    ParseValueNoWs(s);
    ObjectRoundTrip(ascii, v.members, rest);
  }

  lemma ScalarRoundTrip(ascii: bool, v: Json, rest: string)
    requires !v.JArray? && !v.JObject? && Stop(rest)
    ensures ParseAt(Encode(ascii, v) + rest) == Some((v, rest))
  {
    var s := Encode(ascii, v) + rest;
    match v
    case JNull =>
      LiteralRoundTrip("null", JNull, rest);
    case JBool(b) =>
      if b { LiteralRoundTrip("true", v, rest); } else { LiteralRoundTrip("false", v, rest); }
    case JInt(i) =>
      IntValueRoundTrip(i, rest);
    case JStr(body) =>
      StringValueRoundTrip(ascii, body, rest);
  }

  /** The last element of an array and its closing bracket. */
  lemma ItemsLast(s: string, v: Json, rest: string)
    requires ParseValue(s) == Some((v, "]" + rest))
    ensures ParseItems(s) == Some(([v], rest))
  {
    SkipWsNone("]" + rest);
    assert ("]" + rest)[1..] == rest;
  }

  /** An element followed by a comma and the remaining elements. */
  lemma ItemsMore(s: string, v: Json, tail: string, vs: seq<Json>, rest: string)
    requires tail != [] && !IsJsonWs(tail[0])
    requires ParseValue(s) == Some((v, ", " + tail))
    requires ParseItems(tail) == Some((vs, rest))
    ensures ParseItems(s) == Some(([v] + vs, rest))
  {
    var after := ", " + tail;
    SkipWsNone(after);
    assert after[0] == ',';
    assert after[1..] == " " + tail;
    SkipOneSpace(tail);
    ItemsStep(s, v, after, tail, vs, rest);
  }

  lemma ItemsStep(s: string, v: Json, after: string, tail: string, vs: seq<Json>, rest: string)
    requires ParseValue(s) == Some((v, after))
    requires SkipWs(after) == after && after != [] && after[0] == ','
    requires SkipWs(after[1..]) == tail
    requires ParseItems(tail) == Some((vs, rest))
    ensures ParseItems(s) == Some(([v] + vs, rest))
  {
  }

  lemma {:induction false} ItemsRoundTrip(ascii: bool, vs: seq<Json>, rest: string)
    requires vs != []
    requires forall i :: 0 <= i < |vs| ==> WellFormed(vs[i])
    ensures ParseItems(EncodeItems(ascii, vs) + "]" + rest) == Some((vs, rest))
    decreases vs, 1
  {
    var s := EncodeItems(ascii, vs) + "]" + rest;
    var e := Encode(ascii, vs[0]);
    if |vs| == 1 {
      assert EncodeItems(ascii, vs) == e;
      assert s == e + ("]" + rest);
      ValueRoundTrip(ascii, vs[0], "]" + rest);
      ItemsLast(s, vs[0], rest);
      assert [vs[0]] == vs;
    } else {
      var es := EncodeItems(ascii, vs[1..]);
      var tail := es + "]" + rest;
      assert EncodeItems(ascii, vs) == e + ", " + es;
      ConcatShape(e, es, rest);
      ValueRoundTrip(ascii, vs[0], ", " + tail);
      ItemsRoundTrip(ascii, vs[1..], rest);
      ItemsMore(s, vs[0], tail, vs[1..], rest);
      assert [vs[0]] + vs[1..] == vs;
    }
  }

  lemma ConcatShape(e: string, es: string, rest: string)
    requires es != [] && !IsJsonWs(es[0])
    ensures e + ", " + es + "]" + rest == e + (", " + (es + "]" + rest))
    ensures var tail := es + "]" + rest; tail != [] && !IsJsonWs(tail[0])
  {
  }

  lemma ParseValueSpace(y: string)
    ensures ParseValue(" " + y) == ParseValue(y)
  {
    assert (" " + y)[1..] == y;
  }

  /** A member followed by the closing brace. */
  lemma MembersLastStep(s: string, k: string, t: string, v: Json, u: string, rest: string)
    requires s != [] && s[0] == '"'
    requires ParseString(s[1..]) == Some((k, t))
    requires SkipWs(t) == t && t != [] && t[0] == ':'
    requires ParseValue(t[1..]) == Some((v, u))
    requires SkipWs(u) == u && u != [] && u[0] == '}' && u[1..] == rest
    ensures ParseMembers(s) == Some(([Member(k, v)], rest))
  {
  }

  /** A member followed by a comma and the remaining members. */
  lemma MembersMoreStep(s: string, k: string, t: string, v: Json, u: string,
                        tail: string, ms: seq<Member>, rest: string)
    requires s != [] && s[0] == '"'
    requires ParseString(s[1..]) == Some((k, t))
    requires SkipWs(t) == t && t != [] && t[0] == ':'
    requires ParseValue(t[1..]) == Some((v, u))
    requires SkipWs(u) == u && u != [] && u[0] == ',' && SkipWs(u[1..]) == tail
    requires ParseMembers(tail) == Some((ms, rest))
    ensures ParseMembers(s) == Some((AddMember(k, v, ms), rest))
  {
  }

  lemma MemberShape(q: string, e: string, u: string)
    requires q != [] && q[0] == '"'
    ensures var t := ": " + e + u;
      q + ": " + e + u == q + t && (q + t)[0] == '"' && t[0] == ':' && t[1..] == " " + (e + u)
  {
  }

  /** Reading `"key": value` back, up to what follows the value. */
  lemma MemberRoundTrip(ascii: bool, k: string, v: Json, u: string)
    requires WellFormed(v) && Stop(u)
    ensures var s := Quote(ascii, k) + ": " + Encode(ascii, v) + u; var t := ": " + Encode(ascii, v) + u;
      s != [] && s[0] == '"' && ParseString(s[1..]) == Some((k, t))
      && SkipWs(t) == t && t != [] && t[0] == ':' && ParseValue(t[1..]) == Some((v, u))
    decreases v, 4
  {
    var q := Quote(ascii, k);
    var e := Encode(ascii, v);
    var t := ": " + e + u;
    MemberShape(q, e, u);
    QuoteRoundTrip(ascii, k, t);
    SkipWsNone(t);
    ParseValueSpace(e + u);
    ValueRoundTrip(ascii, v, u);
  }

  lemma {:induction false} MembersRoundTrip(ascii: bool, ms: seq<Member>, rest: string)
    requires ms != [] && DistinctKeys(ms)
    requires forall i :: 0 <= i < |ms| ==> WellFormed(ms[i].value)
    ensures ParseMembers(EncodeMembers(ascii, ms) + "}" + rest) == Some((ms, rest))
    decreases ms, 1
  {
    if |ms| == 1 {
      LastMemberRoundTrip(ascii, ms, rest);
    } else {
      MoreMembersRoundTrip(ascii, ms, rest);
    }
  }

  lemma {:induction false} LastMemberRoundTrip(ascii: bool, ms: seq<Member>, rest: string)
    requires |ms| == 1 && WellFormed(ms[0].value)
    ensures ParseMembers(EncodeMembers(ascii, ms) + "}" + rest) == Some((ms, rest))
    decreases ms, 0
  {
    var m := ms[0];
    var q := Quote(ascii, m.key);
    var e := Encode(ascii, m.value);
    var s := EncodeMembers(ascii, ms) + "}" + rest;
    var u := "}" + rest;
    assert EncodeMembers(ascii, ms) == q + ": " + e;
    assert s == q + ": " + e + u;
    MemberRoundTrip(ascii, m.key, m.value, u);
    SkipWsNone(u);
    MembersLastStep(s, m.key, ": " + e + u, m.value, u, rest);
    assert [Member(m.key, m.value)] == ms;
  }

  lemma {:induction false} MoreMembersRoundTrip(ascii: bool, ms: seq<Member>, rest: string)
    requires |ms| > 1 && DistinctKeys(ms)
    requires forall i :: 0 <= i < |ms| ==> WellFormed(ms[i].value)
    ensures ParseMembers(EncodeMembers(ascii, ms) + "}" + rest) == Some((ms, rest))
    decreases ms, 0
  {
    var m := ms[0];
    assert [Member(m.key, m.value)] + ms[1..] == ms;
    var q := Quote(ascii, m.key);
    var e := Encode(ascii, m.value);
    var s := EncodeMembers(ascii, ms) + "}" + rest;
    var es := EncodeMembers(ascii, ms[1..]);
    var tail := es + "}" + rest;
    var u := ", " + tail;
    assert EncodeMembers(ascii, ms) == q + ": " + e + ", " + es;
    TailShape(q + ": " + e, es, rest);
    MemberRoundTrip(ascii, m.key, m.value, u);
    SkipWsNone(u);
    SkipOneSpace(tail);
    KeysDistinctTail(ms);
    MembersRoundTrip(ascii, ms[1..], rest);
    MembersMoreStep(s, m.key, ": " + e + u, m.value, u, tail, ms[1..], rest);
    AddFreshMember(m.key, m.value, ms[1..]);
  }

  lemma TailShape(head: string, es: string, rest: string)
    requires es != [] && es[0] == '"'
    ensures var tail := es + "}" + rest;
      head + ", " + es + "}" + rest == head + (", " + tail)
      && tail != [] && !IsJsonWs(tail[0]) && (", " + tail)[1..] == " " + tail
  {
  }

  /** `json.loads(json.dumps(v)) == v` for every value Python can hold. */
  lemma LoadsDumps(v: Json)
    requires WellFormed(v)
    ensures Loads(Dumps(v)) == Some(v)
    ensures Loads(DumpsUnicode(v)) == Some(v)
  {
    ValueRoundTrip(true, v, []);
    assert Dumps(v) + [] == Dumps(v);
    ValueRoundTrip(false, v, []);
    assert DumpsUnicode(v) + [] == DumpsUnicode(v);
  }

  // ---------------------------------------------------------------------------
  // repr

  /** One character `repr` writes reads back as that character. */
  lemma ReprCharReads(q: char, c: char, tail: string)
    requires q == '\'' || q == '"'
    ensures ReadBody(q, ReprChar(q, c) + tail) ==
      match ReadBody(q, tail)
      case None => None
      case Some((body, rest)) => Some(([c] + body, rest))
  {
    var t := ReprChar(q, c) + tail;
    if c == q || c == '\\' || c == '\t' || c == '\n' || c == '\r' {
      assert t[0] == '\\' && t[2..] == tail;
      assert ReadEscape(t[1..]) == Some((c, tail));
      EscapeReads(q, t, c, tail);
    } else if HexEscaped(c) {
      var d := c as int;
      assert d < 0x100;
      var x := "x" + [HexDigit(d / 16), HexDigit(d % 16)] + tail;
      assert t[0] == '\\' && t[1..] == x;
      HexEscapeRead(c, tail);
      EscapeReads(q, t, c, tail);
    } else {
      assert t[0] == c && t[1..] == tail;
    }
  }

  /** A backslash and an escape that reads as `c` are read as `c`. */
  lemma EscapeReads(q: char, t: string, c: char, tail: string)
    requires q == '\'' || q == '"'
    requires t != [] && t[0] == '\\' && ReadEscape(t[1..]) == Some((c, tail))
    ensures ReadBody(q, t) ==
      match ReadBody(q, tail)
      case None => None
      case Some((body, rest)) => Some(([c] + body, rest))
  {
  }

  /** A `\xhh` escape is read as its character. */
  lemma HexEscapeRead(c: char, tail: string)
    requires c as int < 0x100
    ensures ReadEscape("x" + [HexDigit(c as int / 16), HexDigit(c as int % 16)] + tail) == Some((c, tail))
  {
    var d := c as int;
    HexDigitValue(d / 16);
    HexDigitValue(d % 16);
    var x := "x" + [HexDigit(d / 16), HexDigit(d % 16)] + tail;
    assert x[0] == 'x' && x[1] == HexDigit(d / 16) && x[2] == HexDigit(d % 16) && x[3..] == tail;
  }

  lemma {:induction false} ReprBodyReads(q: char, s: string, rest: string)
    requires q == '\'' || q == '"'
    ensures ReadBody(q, ReprBody(q, s) + [q] + rest) == Some((s, rest))
  {
    if s == [] {
      assert ReprBody(q, s) + [q] + rest == [q] + rest;
    } else {
      var tail := ReprBody(q, s[1..]) + [q] + rest;
      assert ReprBody(q, s) + [q] + rest == ReprChar(q, s[0]) + tail;
      ReprBodyReads(q, s[1..], rest);
      ReprCharReads(q, s[0], tail);
      assert [s[0]] + s[1..] == s;
    }
  }

  /** Reading what `repr` writes gives back the string: the quotes and
      escapes it chose are the ones the reader undoes. */
  lemma ReprRoundTrip(s: string)
    ensures ReadLiteral(StrRepr(s)) == Some(s)
  {
    var q := ReprQuote(s);
    assert StrRepr(s)[1..] == ReprBody(q, s) + [q] + [];
    ReprBodyReads(q, s, []);
  }

  /** A text without quotes, backslashes or characters `repr` escapes is
      shown between single quotes as it is; a text holding only single
      quotes gets double quotes. */
  lemma {:induction false} ReprPlain(s: string)
    requires forall k :: 0 <= k < |s| ==>
      s[k] != '\'' && s[k] != '"' && s[k] != '\\' && s[k] >= ' ' && !HexEscaped(s[k])
    ensures StrRepr(s) == "'" + s + "'"
  {
    PlainBody('\'', s);
  }

  lemma {:induction false} PlainBody(q: char, s: string)
    requires forall k :: 0 <= k < |s| ==> s[k] != q && s[k] != '\\' && s[k] >= ' ' && !HexEscaped(s[k])
    ensures ReprBody(q, s) == s
  {
    if s != [] {
      PlainBody(q, s[1..]);
      assert [s[0]] + s[1..] == s;
    }
  }

  /** A text holding a single quote and no double quote is shown between
      double quotes, with the single quote as it is. */
  lemma ReprSingleQuote()
    ensures StrRepr("it's") == "\"it's\""
  {
    assert ReprQuote("it's") == '"' by {
      assert "it's"[2] == '\'';
    }
    PlainBody('"', "it's");
  }

  /** With both quotes present, single quotes are used and escaped. */
  lemma ReprBothQuotes()
    ensures StrRepr("\"'") == "'\"\\''"
  {
    var s := "\"'";
    assert s[0] == '"';
    assert ReprQuote(s) == '\'';
    assert ReprBody('\'', s) == "\"" + ReprBody('\'', "'");
  }

  /** A tab is written `\t`, DEL as `\x7f`, and the printable U+00A9 as it is. */
  lemma ReprEscapes()
    ensures StrRepr("\t") == "'\\t'"
    ensures StrRepr("\U{7F}") == "'\\x7f'"
    ensures StrRepr("\U{A9}") == "'\U{A9}'"
  {
    assert ReprQuote("\t") == '\'';
    assert ReprQuote("\U{7F}") == '\'';
    assert ReprQuote("\U{A9}") == '\'';
    assert HexDigit(7) == '7' && HexDigit(15) == 'f';
  }

  // ---------------------------------------------------------------------------
  // ensure_ascii

  /** Every character is printable ASCII, from space to `~`. */
  predicate PrintableAscii(s: string) {
    forall k :: 0 <= k < |s| ==> ' ' <= s[k] <= '~'
  }

  lemma AsciiConcat(a: string, b: string)
    requires PrintableAscii(a) && PrintableAscii(b)
    ensures PrintableAscii(a + b)
  {
  }

  lemma HexTextAscii(n: nat)
    requires n < 0x10000
    ensures PrintableAscii(Hex4Text(n))
  {
    var t := Hex4Text(n);
    HexSplit(n);
    HexDigitAscii(n / 0x1000);
    HexDigitAscii(n / 0x100 % 16);
    HexDigitAscii(n / 16 % 16);
    HexDigitAscii(n % 16);
    assert t == [HexDigit(n / 0x1000), HexDigit(n / 0x100 % 16), HexDigit(n / 16 % 16), HexDigit(n % 16)];
  }

  lemma HexDigitAscii(d: nat)
    requires d < 16
    ensures ' ' <= HexDigit(d) <= '~'
  {
    assert "0123456789abcdef"[d] == HexDigit(d);
  }

  lemma EscapeCharAscii(c: char)
    ensures PrintableAscii(EscapeChar(true, c))
  {
    if c == '"' || c == '\\' || c == '\n' || c == '\r' || c == '\t' || c == '\U{8}' || c == '\U{C}' {
    } else if c < ' ' || ('~' < c && c as int < 0x10000) {
      UnicodeEscapeAscii(c);
    } else if c as int >= 0x10000 {
      SurrogateEscapeAscii(c);
    }
  }

  lemma UnicodeEscapeAscii(c: char)
    requires c != '"' && c != '\\' && c != '\n' && c != '\r' && c != '\t' && c != '\U{8}' && c != '\U{C}'
    requires c < ' ' || ('~' < c && c as int < 0x10000)
    ensures PrintableAscii(EscapeChar(true, c))
  {
    HexTextAscii(c as int);
    assert EscapeChar(true, c) == "\\u" + Hex4Text(c as int);
    AsciiConcat("\\u", Hex4Text(c as int));
  }

  lemma SurrogateEscapeAscii(c: char)
    requires c as int >= 0x10000
    ensures PrintableAscii(EscapeChar(true, c))
  {
    var n := c as int - 0x10000;
    var hi, lo := 0xD800 + n / 0x400, 0xDC00 + n % 0x400;
    SurrogateHalves(c);
    PairTextAscii(hi, lo);
    assert SurrogateEscape(c) == PairText(hi, lo);
    EscapeCharSurrogate(c);
  }

  lemma PairTextAscii(hi: int, lo: int)
    requires 0 <= hi < 0x10000 && 0 <= lo < 0x10000
    ensures PrintableAscii(PairText(hi, lo))
  {
    HexTextAscii(hi);
    HexTextAscii(lo);
    AsciiConcat("\\u", Hex4Text(hi));
    AsciiConcat("\\u" + Hex4Text(hi), "\\u");
    AsciiConcat("\\u" + Hex4Text(hi) + "\\u", Hex4Text(lo));
  }

  lemma {:induction false} EscapeAllAscii(s: string)
    ensures PrintableAscii(EscapeAll(true, s))
  {
    if s != [] {
      EscapeCharAscii(s[0]);
      EscapeAllAscii(s[1..]);
      AsciiConcat(EscapeChar(true, s[0]), EscapeAll(true, s[1..]));
    }
  }

  lemma QuoteAscii(s: string)
    ensures PrintableAscii(Quote(true, s))
  {
    EscapeAllAscii(s);
  }

  lemma IntAscii(i: int)
    ensures PrintableAscii(IntToString(i))
  {
    var ds := NatToString(if i < 0 then -i else i);
    assert forall k :: 0 <= k < |ds| ==> IsDigit(ds[k]);
  }

  /** With `ensure_ascii` the whole text is printable ASCII, whatever the
      strings in the value hold. */
  lemma {:induction false} EncodeAscii(v: Json)
    ensures PrintableAscii(Encode(true, v))
    decreases v, 1
  {
    match v
    case JNull =>
    case JBool(b) =>
    case JInt(i) => IntAscii(i);
    case JStr(t) => QuoteAscii(t);
    case JArray(items) =>
      ItemsAscii(items);
      AsciiConcat("[" + EncodeItems(true, items), "]");
    case JObject(ms) =>
      MembersAscii(ms);
      AsciiConcat("{" + EncodeMembers(true, ms), "}");
  }

  lemma {:induction false} ItemsAscii(vs: seq<Json>)
    ensures PrintableAscii(EncodeItems(true, vs))
    decreases vs, 0
  {
    if vs != [] {
      EncodeAscii(vs[0]);
      if |vs| > 1 {
        ItemsAscii(vs[1..]);
        AsciiConcat(Encode(true, vs[0]) + ", ", EncodeItems(true, vs[1..]));
      }
    }
  }

  lemma {:induction false} MembersAscii(ms: seq<Member>)
    ensures PrintableAscii(EncodeMembers(true, ms))
    decreases ms, 0
  {
    if ms != [] {
      QuoteAscii(ms[0].key);
      EncodeAscii(ms[0].value);
      var m := Quote(true, ms[0].key) + ": " + Encode(true, ms[0].value);
      AsciiConcat(Quote(true, ms[0].key) + ": ", Encode(true, ms[0].value));
      if |ms| > 1 {
        MembersAscii(ms[1..]);
        AsciiConcat(m + ", ", EncodeMembers(true, ms[1..]));
      }
    }
  }

  /** `json.dumps` writes only printable ASCII; `ensure_ascii=False` keeps
      a non-ASCII character as it is. */
  lemma DumpsAscii(v: Json, c: char)
    requires '~' < c
    ensures PrintableAscii(Dumps(v))
    ensures DumpsUnicode(JStr([c])) == "\"" + [c] + "\""
    ensures Dumps(JStr([c])) != "\"" + [c] + "\""
  {
    EncodeAscii(v);
    assert EscapeAll(false, [c]) == [c];
    EncodeAscii(JStr([c]));
    assert ("\"" + [c] + "\"")[1] == c;
  }

  /** A text that is not JSON: the empty text. */
  lemma LoadsEmpty()
    ensures Loads("") == None
  {
  }
}
