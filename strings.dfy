/** Text helpers shared by both backends and the client: the decimal form of
    integers (Python `str(int)`, JavaScript `String(number)`), `sep.join` and
    `str.split` with a one-character separator, first-occurrence search,
    JavaScript `trim`, Python `str.strip()` and `int()`, ASCII lower-casing,
    and Python's ordering of `str`. */
module Strings {
  import opened Common

  // ---------------------------------------------------------------------------
  // Decimal digits

  predicate IsDigit(c: char) {
    '0' <= c <= '9'
  }

  predicate AllDigits(s: string) {
    forall i :: 0 <= i < |s| ==> IsDigit(s[i])
  }

  function DigitChar(d: nat): (c: char)
    requires d < 10
    ensures IsDigit(c) && c as int - '0' as int == d
  {
    ('0' as int + d) as char
  }

  /** The decimal form of a natural number: digits only, no leading zero. */
  function NatToString(n: nat): (s: string)
    ensures |s| > 0 && AllDigits(s)
    ensures s[0] == '0' ==> n == 0
    decreases n
  {
    if n < 10 then [DigitChar(n)] else NatToString(n / 10) + [DigitChar(n % 10)]
  }

  /** Python `str(i)` and JavaScript `String(i)` for an integer. */
  function IntToString(i: int): (s: string)
    ensures |s| > 0
    ensures i >= 0 ==> s == NatToString(i)
    ensures i < 0 ==> s == "-" + NatToString(-i)
  {
    if i < 0 then "-" + NatToString(-i) else NatToString(i)
  }

  /** The value of a run of decimal digits, read left to right. */
  function DigitsValue(ds: string): nat
    requires AllDigits(ds)
  {
    if ds == [] then 0
    else DigitsValue(ds[..|ds| - 1]) * 10 + (ds[|ds| - 1] as int - '0' as int)
  }

  lemma {:induction false} DigitsValueOfNatToString(n: nat)
    ensures DigitsValue(NatToString(n)) == n
    decreases n
  {
    if n >= 10 {
      var s := NatToString(n);
      assert s[..|s| - 1] == NatToString(n / 10);
      DigitsValueOfNatToString(n / 10);
    }
  }

  /** Distinct naturals have distinct decimal forms. */
  lemma NatToStringInjective(m: nat, n: nat)
    requires NatToString(m) == NatToString(n)
    ensures m == n
  {
    DigitsValueOfNatToString(m);
    DigitsValueOfNatToString(n);
  }

  // ---------------------------------------------------------------------------
  // Python `sep.join(parts)` and `s.split(sep)` for a one-character separator

  function Join(sep: string, parts: seq<string>): string {
    if parts == [] then ""
    else if |parts| == 1 then parts[0]
    else parts[0] + sep + Join(sep, parts[1..])
  }

  /** Python `s.split(sep)`: the pieces between separators, empty ones kept;
      `"".split(";")` is `[""]`. */
  function Split(s: string, sep: char): (parts: seq<string>)
    ensures |parts| > 0
  {
    if s == [] then [""]
    else
      var rest := Split(s[1..], sep);
      if s[0] == sep then [""] + rest else [[s[0]] + rest[0]] + rest[1..]
  }

  lemma {:induction false} SplitNoSeparator(x: string, sep: char)
    requires sep !in x
    ensures Split(x, sep) == [x]
  {
    if x != [] {
      SplitNoSeparator(x[1..], sep);
      assert [x[0]] + x[1..] == x;
    }
  }

  lemma {:induction false} SplitAtSeparator(x: string, sep: char, rest: string)
    requires sep !in x
    ensures Split(x + [sep] + rest, sep) == [x] + Split(rest, sep)
  {
    if x == [] {
      assert x + [sep] + rest == [sep] + rest;
      assert ([sep] + rest)[1..] == rest;
    } else {
      var s := x + [sep] + rest;
      assert s[1..] == x[1..] + [sep] + rest;
      SplitAtSeparator(x[1..], sep, rest);
      assert [x[0]] + x[1..] == x;
    }
  }

  /** Splitting a joined list gives the list back, as long as no piece holds
      the separator and the list is not empty. */
  lemma {:induction false} SplitJoin(parts: seq<string>, sep: char)
    requires parts != []
    requires forall i :: 0 <= i < |parts| ==> sep !in parts[i]
    ensures Split(Join([sep], parts), sep) == parts
  {
    if |parts| == 1 {
      SplitNoSeparator(parts[0], sep);
    } else {
      SplitJoin(parts[1..], sep);
      SplitAtSeparator(parts[0], sep, Join([sep], parts[1..]));
      assert [parts[0]] + parts[1..] == parts;
    }
  }

  // ---------------------------------------------------------------------------
  // First-occurrence search (JavaScript `includes`, `indexOf`)

  predicate MatchAt(s: string, pat: string, j: nat) {
    j + |pat| <= |s| && s[j..j + |pat|] == pat
  }

  /** The first index at or after `from` where `pat` occurs in `s`. */
  function IndexOfFrom(s: string, pat: string, from: nat): (r: Option<nat>)
    requires from <= |s|
    ensures r.Some? ==> from <= r.value && MatchAt(s, pat, r.value)
    ensures r.Some? ==> forall j :: from <= j < r.value ==> !MatchAt(s, pat, j)
    ensures r.None? ==> forall j :: from <= j ==> !MatchAt(s, pat, j)
    decreases |s| - from
  {
    if from + |pat| > |s| then None
    else if s[from..from + |pat|] == pat then Some(from)
    else if from == |s| then None
    else IndexOfFrom(s, pat, from + 1)
  }

  function IndexOf(s: string, pat: string): (r: Option<nat>)
    ensures r.Some? ==> MatchAt(s, pat, r.value)
    ensures r.Some? ==> forall j :: 0 <= j < r.value ==> !MatchAt(s, pat, j)
    ensures r.None? ==> forall j :: 0 <= j ==> !MatchAt(s, pat, j)
  {
    IndexOfFrom(s, pat, 0)
  }

  /** JavaScript `s.includes(pat)`. */
  predicate Contains(s: string, pat: string) {
    IndexOf(s, pat).Some?
  }

  lemma ContainsWitness(s: string, pat: string, j: nat)
    requires MatchAt(s, pat, j)
    ensures Contains(s, pat)
  {
  }

  lemma EmptyContained(s: string)
    ensures Contains(s, "")
  {
    assert MatchAt(s, "", 0);
  }

  // ---------------------------------------------------------------------------
  // JavaScript `trim`, Python `str.strip()` and `int()`, and `toLowerCase`

  /** Which language's notion of whitespace a trim uses. */
  datatype Space = JsSpace | PySpace

  /** The characters JavaScript's `trim` removes (WhiteSpace and LineTerminator). */
  predicate IsJsWhitespace(c: char) {
    || c == '\t' || c == '\n' || c == '\U{B}' || c == '\U{C}' || c == '\r' || c == ' '
    || c == '\U{A0}' || c == '\U{1680}' || ('\U{2000}' <= c <= '\U{200A}')
    || c == '\U{2028}' || c == '\U{2029}' || c == '\U{202F}' || c == '\U{205F}'
    || c == '\U{3000}' || c == '\U{FEFF}'
  }

  /** The characters for which Python's `str.isspace()` holds: the ones
      `str.strip()`, `int()` and the regular expression `\s` treat as
      whitespace. Unlike JavaScript, Python counts the separators U+001C to
      U+001F and U+0085, and not U+FEFF. */
  predicate IsPyWhitespace(c: char) {
    || ('\t' <= c <= '\r') || ('\U{1C}' <= c <= ' ') || c == '\U{85}'
    || c == '\U{A0}' || c == '\U{1680}' || ('\U{2000}' <= c <= '\U{200A}')
    || c == '\U{2028}' || c == '\U{2029}' || c == '\U{202F}' || c == '\U{205F}'
    || c == '\U{3000}'
  }

  predicate IsSpace(w: Space, c: char) {
    match w
    case JsSpace => IsJsWhitespace(c)
    case PySpace => IsPyWhitespace(c)
  }

  predicate AllSpace(w: Space, s: string) {
    forall i :: 0 <= i < |s| ==> IsSpace(w, s[i])
  }

  /** Text made only of JavaScript whitespace. */
  predicate AllWhitespace(s: string) {
    AllSpace(JsSpace, s)
  }

  function TrimStart(w: Space, s: string): (r: string)
    ensures |r| <= |s| && r == s[|s| - |r|..]
    ensures r != [] ==> !IsSpace(w, r[0])
    ensures AllSpace(w, s[..|s| - |r|])
  {
    if s != [] && IsSpace(w, s[0]) then
      var r := TrimStart(w, s[1..]);
      assert s[..|s| - |r|] == [s[0]] + s[1..][..|s| - 1 - |r|];
      r
    else s
  }

  function TrimEnd(w: Space, s: string): (r: string)
    ensures |r| <= |s| && r == s[..|r|]
    ensures r != [] ==> !IsSpace(w, r[|r| - 1])
    ensures AllSpace(w, s[|r|..])
  {
    if s != [] && IsSpace(w, s[|s| - 1]) then
      var r := TrimEnd(w, s[..|s| - 1]);
      assert s[|r|..] == s[..|s| - 1][|r|..] + [s[|s| - 1]];
      r
    else s
  }

  /** The text without the whitespace at either end. */
  function Strip(w: Space, s: string): string {
    TrimEnd(w, TrimStart(w, s))
  }

  /** JavaScript `s.trim()`. */
  function Trim(s: string): string {
    Strip(JsSpace, s)
  }

  /** Python `s.strip()`. */
  function PyStrip(s: string): string {
    Strip(PySpace, s)
  }

  /** Text with no whitespace at either end. */
  predicate StrippedOf(w: Space, s: string) {
    s == [] || (!IsSpace(w, s[0]) && !IsSpace(w, s[|s| - 1]))
  }

  /** Text with no JavaScript whitespace at either end. */
  predicate Trimmed(s: string) {
    StrippedOf(JsSpace, s)
  }

  /** The whitespace a strip drops at the start. */
  function Leading(w: Space, s: string): (r: string)
    ensures AllSpace(w, r)
  {
    s[..|s| - |TrimStart(w, s)|]
  }

  /** The whitespace a strip drops at the end. */
  function Trailing(w: Space, s: string): (r: string)
    ensures AllSpace(w, r)
  {
    TrimStart(w, s)[|Strip(w, s)|..]
  }

  /** A strip drops exactly the whitespace at both ends: the text is the
      whitespace it drops at the start, the result, and the whitespace it
      drops at the end. */
  lemma TrimShape(w: Space, s: string)
    ensures s == Leading(w, s) + Strip(w, s) + Trailing(w, s)
  {
    var t := TrimStart(w, s);
    SliceShape(s, |s| - |t|, |Strip(w, s)|);
  }

  /** Cutting a sequence at `k` and the rest again at `m` loses nothing. */
  lemma SliceShape(s: string, k: nat, m: nat)
    requires k <= |s| && m <= |s| - k
    ensures s == s[..k] + s[k..][..m] + s[k..][m..]
  {
    assert s[k..] == s[k..][..m] + s[k..][m..];
  }

  /** The stripped text has no whitespace at either of its ends. */
  lemma TrimEnds(w: Space, s: string)
    ensures StrippedOf(w, Strip(w, s))
  {
    var t := TrimStart(w, s);
    var r := TrimEnd(w, t);
    if r != [] {
      assert r[0] == t[0];
    }
  }

  /** The stripped text is empty exactly when the text is all whitespace. */
  lemma TrimEmptyIff(w: Space, s: string)
    ensures Strip(w, s) == [] <==> AllSpace(w, s)
  {
    var t := TrimStart(w, s);
    if Strip(w, s) == [] {
      assert s == s[..|s| - |t|] + t;
      assert t == t[|Strip(w, s)|..];
    }
  }

  /** A strip drops only whitespace: a character that is not whitespace
      occurs in the stripped text exactly when it occurs in the text. */
  lemma StripKeeps(w: Space, s: string, c: char)
    requires !IsSpace(w, c)
    ensures c in Strip(w, s) <==> c in s
  {
    TrimShape(w, s);
    var lead, trail := Leading(w, s), Trailing(w, s);
    assert forall i :: 0 <= i < |lead| ==> lead[i] != c;
    assert forall i :: 0 <= i < |trail| ==> trail[i] != c;
  }

  /** Text with no whitespace at its ends is its own strip. */
  lemma TrimOfTrimmed(w: Space, s: string)
    requires StrippedOf(w, s)
    ensures Strip(w, s) == s
  {
    assert TrimStart(w, s) == s;
  }

  /** Stripping whitespace-padded stripped text gives the text back. */
  lemma TrimAround(w: Space, pre: string, s: string, post: string)
    requires AllSpace(w, pre) && AllSpace(w, post) && StrippedOf(w, s)
    ensures Strip(w, pre + s + post) == s
  {
    assert pre + s + post == pre + (s + post);
    TrimStartPadded(w, pre, s + post);
    if s == [] {
      assert s + post == post;
    } else {
      assert (s + post)[0] == s[0];
      assert TrimStart(w, s + post) == s + post;
      TrimEndPadded(w, s, post);
    }
  }

  lemma {:induction false} TrimStartPadded(w: Space, pre: string, t: string)
    requires AllSpace(w, pre)
    ensures TrimStart(w, pre + t) == TrimStart(w, t)
  {
    if pre != [] {
      assert pre + t == [pre[0]] + (pre[1..] + t);
      assert IsSpace(w, pre[0]);
      TrimStartPadded(w, pre[1..], t);
    } else {
      assert pre + t == t;
    }
  }

  lemma {:induction false} TrimEndPadded(w: Space, s: string, post: string)
    requires AllSpace(w, post) && s != [] && !IsSpace(w, s[|s| - 1])
    ensures TrimEnd(w, s + post) == s
  {
    if post != [] {
      assert (s + post)[..|s + post| - 1] == s + post[..|post| - 1];
      TrimEndPadded(w, s, post[..|post| - 1]);
    } else {
      assert s + post == s;
    }
  }

  lemma TrimIdempotent(w: Space, s: string)
    ensures Strip(w, Strip(w, s)) == Strip(w, s)
  {
    TrimEnds(w, s);
    TrimOfTrimmed(w, Strip(w, s));
  }

  /** Decimal digits with single underscores between them, as Python's
      `int()` accepts them after the sign. */
  predicate UnderscoredDigits(s: string) {
    && s != [] && IsDigit(s[0]) && IsDigit(s[|s| - 1])
    && forall i :: 0 <= i < |s| ==> DigitOrJoin(s, i)
  }

  /** `s[i]` is a digit, or an underscore between `s[i - 1]` and a digit. */
  predicate DigitOrJoin(s: string, i: int)
    requires 0 <= i < |s|
  {
    IsDigit(s[i]) || (s[i] == '_' && 0 < i < |s| - 1 && IsDigit(s[i + 1]))
  }

  /** The digits of `s`, underscores dropped. */
  function DigitsOnly(s: string): (r: string)
    ensures AllDigits(r)
    ensures AllDigits(s) ==> r == s
  {
    if s == [] then []
    else (if IsDigit(s[0]) then [s[0]] else []) + DigitsOnly(s[1..])
  }

  /** Python `int(s)` for a `str`: surrounding whitespace, an optional sign,
      then decimal digits with single underscores between them; `None`
      where `int()` raises `ValueError`. */
  function PyInt(s: string): (r: Option<int>)
    ensures r.Some? ==> PyStrip(s) != []
  {
    SignedDigits(PyStrip(s))
  }

  /** `int()` on text without surrounding whitespace. */
  function SignedDigits(t: string): (r: Option<int>)
    ensures r.Some? ==> t != []
  {
    var neg := t != [] && t[0] == '-';
    var body := if t != [] && (t[0] == '-' || t[0] == '+') then t[1..] else t;
    if UnderscoredDigits(body) then
      var n: int := DigitsValue(DigitsOnly(body));
      Some(if neg then -n else n)
    else None
  }

  /** Plain digits are read as their value. */
  lemma DigitsRead(ds: string)
    requires ds != [] && AllDigits(ds)
    ensures UnderscoredDigits(ds) && DigitsOnly(ds) == ds
  {
  }

  /** `int()` reads the decimal form of an integer back as the integer. */
  lemma SignedDigitsOfString(i: int)
    ensures SignedDigits(IntToString(i)) == Some(i)
  {
    var s := IntToString(i);
    var n: nat := if i < 0 then -i else i;
    var ds := NatToString(n);
    DigitsValueOfNatToString(n);
    DigitsRead(ds);
    if i < 0 {
      assert s[1..] == ds;
    } else {
      assert s == ds && IsDigit(s[0]);
    }
  }

  /** `int(str(i)) == i`, also with whitespace around the text. */
  lemma PyIntOfString(pre: string, i: int, post: string)
    requires AllSpace(PySpace, pre) && AllSpace(PySpace, post)
    ensures PyInt(pre + IntToString(i) + post) == Some(i)
  {
    var s := IntToString(i);
    var n: nat := if i < 0 then -i else i;
    var ds := NatToString(n);
    assert s[|s| - 1] == ds[|ds| - 1];
    assert IsDigit(s[|s| - 1]);
    assert s[0] == '-' || IsDigit(s[0]);
    assert StrippedOf(PySpace, s);
    TrimAround(PySpace, pre, s, post);
    SignedDigitsOfString(i);
  }

  /** The decimal form of an integer neither starts nor ends with
      whitespace, so `strip()` keeps it. */
  lemma StripIntToString(i: int)
    ensures PyStrip(IntToString(i)) == IntToString(i)
  {
    var s := IntToString(i);
    var ds := NatToString(if i < 0 then -i else i);
    assert s[|s| - 1] == ds[|ds| - 1];
    assert s[0] == '-' || IsDigit(s[0]);
    TrimOfTrimmed(PySpace, s);
  }

  /** `int(str(i)) == i`. */
  lemma PyIntOfIntString(i: int)
    ensures PyInt(IntToString(i)) == Some(i)
  {
    StripIntToString(i);
    SignedDigitsOfString(i);
  }

  /** On text without surrounding whitespace `int()` reads the text as it is. */
  lemma PyIntStripped(t: string)
    requires StrippedOf(PySpace, t)
    ensures PyInt(t) == SignedDigits(t)
  {
    TrimOfTrimmed(PySpace, t);
  }

  /** `int()` takes a leading `+`. */
  lemma PyIntPlus(n: nat)
    ensures PyInt("+" + NatToString(n)) == Some(n)
  {
    var ds := NatToString(n);
    var t := "+" + ds;
    assert t[|t| - 1] == ds[|ds| - 1];
    PyIntStripped(t);
    assert t[1..] == ds;
    DigitsRead(ds);
    DigitsValueOfNatToString(n);
  }

  /** `int()` takes underscores between digits: `int("1_000") == 1000`. */
  lemma PyIntUnderscore()
    ensures PyInt("1_000") == Some(1000)
  {
    ThousandShape();
    ThousandValue();
    PyIntUnsigned("1_000");
  }

  lemma ThousandShape()
    ensures UnderscoredDigits("1_000") && DigitsOnly("1_000") == "1000"
  {
    var t := "1_000";
    assert t[1..] == "_000" && t[2..] == "000";
    assert DigitsOnly("000") == "000";
  }

  lemma ThousandValue()
    ensures DigitsValue("1000") == 1000
  {
    assert "1000"[..3] == "100" && "100"[..2] == "10" && "10"[..1] == "1";
  }

  /** `int()` refuses text without digits. */
  lemma PyIntRejectsEmpty(pre: string)
    requires AllSpace(PySpace, pre)
    ensures PyInt(pre) == None
  {
    TrimEmptyIff(PySpace, pre);
  }

  /** A character that is neither a digit nor an underscore between digits
      makes the text no underscored number. */
  lemma NotUnderscoredAt(s: string, i: int)
    requires 0 <= i < |s| && !IsDigit(s[i])
    requires s[i] != '_' || i == 0 || i == |s| - 1 || !IsDigit(s[i + 1])
    ensures !UnderscoredDigits(s)
  {
    assert !DigitOrJoin(s, i);
  }

  /** Unsigned text is read as its digits, when it is an underscored
      number. */
  lemma SignedDigitsUnsigned(t: string)
    requires t != [] && t[0] != '-' && t[0] != '+'
    ensures SignedDigits(t) == if UnderscoredDigits(t) then Some(DigitsValue(DigitsOnly(t))) else None
  {
  }

  /** Unsigned text without surrounding whitespace is read by its digits. */
  lemma PyIntUnsigned(t: string)
    requires StrippedOf(PySpace, t) && t != [] && t[0] != '-' && t[0] != '+' && UnderscoredDigits(t)
    ensures PyInt(t) == Some(DigitsValue(DigitsOnly(t)))
  {
    PyIntStripped(t);
    SignedDigitsUnsigned(t);
  }

  /** Unsigned text without surrounding whitespace is refused when one of
      its characters is neither a digit nor an underscore between digits. */
  lemma PyIntRefuses(t: string, i: int)
    requires StrippedOf(PySpace, t) && t != [] && t[0] != '-' && t[0] != '+'
    requires 0 <= i < |t| && !IsDigit(t[i])
    requires t[i] != '_' || i == 0 || i == |t| - 1 || !IsDigit(t[i + 1])
    ensures PyInt(t) == None
  {
    NotUnderscoredAt(t, i);
    PyIntStripped(t);
    SignedDigitsUnsigned(t);
  }

  /** `int()` refuses a doubled underscore. */
  lemma PyIntRejectsDoubled()
    ensures PyInt("1__0") == None
  {
    PyIntRefuses("1__0", 1);
  }

  /** `int()` refuses a leading or trailing underscore. */
  lemma PyIntRejectsEdges()
    ensures PyInt("_1") == None && PyInt("1_") == None
  {
    PyIntRefuses("_1", 0);
    PyIntRefuses("1_", 1);
  }

  /** Whether `s` is `0*\s*`: zeros, then whitespace. */
  predicate ZerosThenSpace(s: string) {
    if s == [] then true
    else if s[0] == '0' then ZerosThenSpace(s[1..])
    else AllSpace(PySpace, s)
  }

  /** `re.sub(r'\.0*\s*$', '', s)`: a final `.` followed only by zeros and
      whitespace is cut off, with what follows it. */
  function DecimalCut(s: string): (r: string)
    ensures |r| <= |s| && r == s[..|r|]
  {
    if s == [] then s
    else if s[0] == '.' && ZerosThenSpace(s[1..]) then []
    else [s[0]] + DecimalCut(s[1..])
  }

  /** Cutting after text without a dot keeps that text. */
  lemma {:induction false} DecimalCutNoDot(a: string, b: string)
    requires forall k :: 0 <= k < |a| ==> a[k] != '.'
    ensures DecimalCut(a + b) == a + DecimalCut(b)
  {
    if a != [] {
      assert (a + b)[1..] == a[1..] + b;
      DecimalCutNoDot(a[1..], b);
      assert [a[0]] + (a[1..] + DecimalCut(b)) == a + DecimalCut(b);
    } else {
      assert a + b == b;
    }
  }

  /** A dot followed by zeros and whitespace is cut off. */
  lemma {:induction false} ZerosThenSpaceOf(zeros: string, post: string)
    requires forall k :: 0 <= k < |zeros| ==> zeros[k] == '0'
    requires AllSpace(PySpace, post)
    ensures ZerosThenSpace(zeros + post)
  {
    if zeros != [] {
      assert (zeros + post)[1..] == zeros[1..] + post;
      ZerosThenSpaceOf(zeros[1..], post);
    } else {
      assert zeros + post == post;
    }
  }

  /** The `.000` ending and what follows it are cut off the text of an
      integer with whitespace in front. */
  lemma DecimalCutOfInt(pre: string, i: int, zeros: string, post: string)
    requires AllSpace(PySpace, pre) && AllSpace(PySpace, post)
    requires forall k :: 0 <= k < |zeros| ==> zeros[k] == '0'
    ensures DecimalCut(pre + IntToString(i) + "." + zeros + post) == pre + IntToString(i)
  {
    var a := pre + IntToString(i);
    var b := "." + zeros + post;
    DotSplit(a, zeros, post);
    NoDotInPaddedInt(pre, i);
    DecimalCutNoDot(a, b);
    ZerosThenSpaceOf(zeros, post);
    assert DecimalCut(b) == [];
    assert a + [] == a;
  }

  /** `int()` reads the text of an integer with whitespace around it once
      a `.000` ending is cut off. */
  lemma PyIntOfDecimal(pre: string, i: int, zeros: string, post: string)
    requires AllSpace(PySpace, pre) && AllSpace(PySpace, post)
    requires forall k :: 0 <= k < |zeros| ==> zeros[k] == '0'
    ensures PyInt(DecimalCut(pre + IntToString(i) + "." + zeros + post)) == Some(i)
  {
    DecimalCutOfInt(pre, i, zeros, post);
    PyIntOfPadded(pre, i);
  }

  lemma PyIntOfPadded(pre: string, i: int)
    requires AllSpace(PySpace, pre)
    ensures PyInt(pre + IntToString(i)) == Some(i)
  {
    PyIntOfString(pre, i, "");
    assert pre + IntToString(i) + "" == pre + IntToString(i);
  }

  /** How text around a dot splits into what precedes it and what follows. */
  lemma DotSplit(a: string, zeros: string, post: string)
    ensures a + ("." + zeros + post) == a + "." + zeros + post
    ensures ("." + zeros + post)[1..] == zeros + post
  {
  }

  /** Whitespace and the decimal form of an integer hold no dot. */
  /** The text of an integer has no dot, so the cut keeps it. */
  lemma DecimalCutOfIntString(i: int)
    ensures DecimalCut(IntToString(i)) == IntToString(i)
  {
    var s := IntToString(i);
    var ds := NatToString(if i < 0 then -i else i);
    forall k | 0 <= k < |s| ensures s[k] != '.' {
      if i < 0 && k > 0 { assert s[k] == ds[k - 1]; }
    }
    DecimalCutNoDot(s, "");
    assert s + "" == s;
  }

  lemma NoDotInPaddedInt(pre: string, i: int)
    requires AllSpace(PySpace, pre)
    ensures forall k :: 0 <= k < |pre + IntToString(i)| ==> (pre + IntToString(i))[k] != '.'
  {
    var s := IntToString(i);
    var ds := NatToString(if i < 0 then -i else i);
    var a := pre + s;
    forall k | 0 <= k < |a| ensures a[k] != '.' {
      if k < |pre| {
        assert a[k] == pre[k] && IsPyWhitespace(pre[k]);
      } else if i < 0 && k > |pre| {
        assert a[k] == ds[k - |pre| - 1];
      } else {
        assert a[k] == s[k - |pre|];
      }
    }
  }

  function LowerChar(c: char): char {
    if 'A' <= c <= 'Z' then (c as int + 32) as char else c
  }

  /** `toLowerCase` on the ASCII letters; other characters are kept. */
  function ToLower(s: string): (r: string)
    ensures |r| == |s|
    ensures forall i :: 0 <= i < |s| ==> r[i] == LowerChar(s[i])
  {
    seq(|s|, i requires 0 <= i < |s| => LowerChar(s[i]))
  }

  // ---------------------------------------------------------------------------
  // Python's ordering of `str` (code point by code point; a prefix is smaller)

  predicate LexLess(a: string, b: string) {
    if a == [] then b != []
    else if b == [] then false
    else if a[0] != b[0] then a[0] < b[0]
    else LexLess(a[1..], b[1..])
  }

  lemma {:induction false} LexLessIrreflexive(a: string)
    ensures !LexLess(a, a)
  {
    if a != [] { LexLessIrreflexive(a[1..]); }
  }

  lemma {:induction false} LexLessTotal(a: string, b: string)
    requires a != b
    ensures LexLess(a, b) || LexLess(b, a)
  {
    if a != [] && b != [] && a[0] == b[0] {
      assert a == [a[0]] + a[1..] && b == [b[0]] + b[1..];
      LexLessTotal(a[1..], b[1..]);
    }
  }

  lemma {:induction false} LexLessTransitive(a: string, b: string, c: string)
    requires LexLess(a, b) && LexLess(b, c)
    ensures LexLess(a, c)
  {
    if a != [] && b != [] && c != [] && a[0] == b[0] && b[0] == c[0] {
      LexLessTransitive(a[1..], b[1..], c[1..]);
    }
  }
}
