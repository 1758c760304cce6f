/**
 * The Python values the test runner handles: what `ast.literal_eval`, the
 * runner's own fallback parsing and a solution can produce, restricted to
 * None, booleans, integers, floats, strings and lists.  Their JSON rendering
 * follows Python's `json.dumps` with default settings (RFC 8259 text,
 * `ensure_ascii`, item separator `", "`); a decoder reads every float-free
 * rendering back, which is what makes comparing renderings a comparison of
 * values.
 */
module PyValues {

  import opened Wrappers
  import opened Text

  datatype PyValue =
    | PyNone
    | PyBool(b: bool)
    | PyInt(i: int)
    | PyFloat(repr: string)      // a float, carried as the text Python's `repr` gives it
    | PyStr(s: string)
    | PyList(items: seq<PyValue>)

  /** No float anywhere inside the value. */
  predicate FloatFree(v: PyValue)
  {
    match v
    case PyFloat(_) => false
    case PyList(items) => forall k | 0 <= k < |items| :: FloatFree(items[k])
    case _ => true
  }

  // ---------------------------------------------------------------- hexadecimal

  predicate IsHex(c: char)
  {
    ('0' <= c <= '9') || ('a' <= c <= 'f') || ('A' <= c <= 'F')
  }

  function HexValue(c: char): nat
    requires IsHex(c)
  {
    if '0' <= c <= '9' then (c as int) - ('0' as int)
    else if 'a' <= c <= 'f' then (c as int) - ('a' as int) + 10
    else (c as int) - ('A' as int) + 10
  }

  /** A lower-case hexadecimal digit, as Python's `'{0:04x}'` writes it. */
  function HexDigit(d: nat): (c: char)
    requires d < 16
    ensures IsHex(c) && HexValue(c) == d
    ensures ' ' <= c <= '~'
  {
    if d < 10 then (('0' as int) + d) as char else (('a' as int) + d - 10) as char
  }

  /** Four hexadecimal digits, most significant first. */
  function Hex4(n: nat): (r: string)
    requires n < 0x10000
    ensures |r| == 4
    ensures forall j | 0 <= j < 4 :: IsHex(r[j]) && ' ' <= r[j] <= '~'
  {
    [HexDigit(n / 0x1000), HexDigit(n / 0x100 % 16), HexDigit(n / 16 % 16), HexDigit(n % 16)]
  }

  /** The text has four hexadecimal digits starting at `i`. */
  predicate HexAt(t: string, i: nat)
  {
    i + 4 <= |t| && forall j | i <= j < i + 4 :: IsHex(t[j])
  }

  function Hex4Value(t: string, i: nat): nat
    requires HexAt(t, i)
  {
    HexValue(t[i]) * 0x1000 + HexValue(t[i + 1]) * 0x100 + HexValue(t[i + 2]) * 16 + HexValue(t[i + 3])
  }

  /** Reading four written digits back gives the number. */
  lemma Hex4RoundTrip(n: nat, p: string, u: string)
    requires n < 0x10000
    ensures HexAt(p + Hex4(n) + u, |p|)
    ensures Hex4Value(p + Hex4(n) + u, |p|) == n
  {
    var t := p + Hex4(n) + u;
    var h := Hex4(n);
    forall j | 0 <= j < 4 ensures t[|p| + j] == h[j] {
    }
    assert n / 0x100 == (n / 0x1000) * 16 + n / 0x100 % 16;
    assert n / 16 == (n / 0x100) * 16 + n / 16 % 16;
    assert n == (n / 16) * 16 + n % 16;
  }

  // ---------------------------------------------------------------- json.dumps

  /** One character as `json.dumps` writes it inside a string literal with `ensure_ascii`. */
  function EscapeChar(c: char): (r: string)
    ensures |r| >= 1 && r[0] != '"'
    ensures forall j | 0 <= j < |r| :: ' ' <= r[j] <= '~'
  {
    if c == '"' then "\\\""
    else if c == '\\' then "\\\\"
    else if c == '\n' then "\\n"
    else if c == '\r' then "\\r"
    else if c == '\t' then "\\t"
    else if c as int == 8 then "\\b"
    else if c as int == 12 then "\\f"
    else if ' ' <= c <= '~' then [c]
    else if (c as int) < 0x10000 then "\\u" + Hex4(c as int)
    else
      // a character outside the Basic Multilingual Plane becomes a UTF-16 surrogate pair
      var n := (c as int) - 0x10000;
      "\\u" + Hex4(0xD800 + n / 0x400) + "\\u" + Hex4(0xDC00 + n % 0x400)
  }

  /** The body of a JSON string literal; only printable ASCII comes out. */
  function EscapeString(s: string): (r: string)
    ensures forall j | 0 <= j < |r| :: ' ' <= r[j] <= '~'
  {
    if s == [] then ""
    else
      var a := EscapeChar(s[0]);
      var b := EscapeString(s[1..]);
      assert forall j | |a| <= j < |a + b| :: (a + b)[j] == b[j - |a|];
      a + b
  }

  /** A float inside a list: `json` writes NaN and the infinities in JavaScript's spelling. */
  function JsonFloat(repr: string): string
  {
    if repr == "nan" then "NaN"
    else if repr == "inf" then "Infinity"
    else if repr == "-inf" then "-Infinity"
    else repr
  }

  /** `json.dumps(v)` with default settings. */
  function Dumps(v: PyValue): (r: string)
  {
    match v
    case PyNone => "null"
    case PyBool(b) => if b then "true" else "false"
    case PyInt(i) => IntToString(i)
    case PyFloat(repr) => JsonFloat(repr)
    case PyStr(s) => "\"" + EscapeString(s) + "\""
    case PyList(items) => "[" + Join(seq(|items|, k requires 0 <= k < |items| => Dumps(items[k])), ", ") + "]"
  }

  /** The renderings of the items of a list, in order. */
  function ItemTexts(items: seq<PyValue>): (ts: seq<string>)
    ensures |ts| == |items|
    ensures forall k | 0 <= k < |items| :: ts[k] == Dumps(items[k])
  {
    seq(|items|, k requires 0 <= k < |items| => Dumps(items[k]))
  }

  lemma DumpsList(items: seq<PyValue>)
    ensures Dumps(PyList(items)) == "[" + Join(ItemTexts(items), ", ") + "]"
  {
    assert seq(|items|, k requires 0 <= k < |items| => Dumps(items[k])) == ItemTexts(items);
  }

  // ---------------------------------------------------------------- reading JSON back

  /** One character of a string literal body, escapes decoded; `t` does not start at the closing quote. */
  function ParseChar(t: string): (r: Option<(char, string)>)
    requires t != ""
    ensures r.Some? ==> |r.value.1| < |t|
  {
    if t[0] != '\\' then Some((t[0], t[1..]))
    else if |t| < 2 then None
    else if t[1] == '"' then Some(('"', t[2..]))
    else if t[1] == '\\' then Some(('\\', t[2..]))
    else if t[1] == '/' then Some(('/', t[2..]))
    else if t[1] == 'b' then Some((8 as char, t[2..]))
    else if t[1] == 'f' then Some((12 as char, t[2..]))
    else if t[1] == 'n' then Some(('\n', t[2..]))
    else if t[1] == 'r' then Some(('\r', t[2..]))
    else if t[1] == 't' then Some(('\t', t[2..]))
    else if t[1] == 'u' && HexAt(t, 2) then
      var h := Hex4Value(t, 2);
      if h < 0xD800 || 0xE000 <= h then Some((h as char, t[6..]))
      else if h < 0xDC00 && |t| >= 8 && t[6] == '\\' && t[7] == 'u' && HexAt(t, 8) then
        var l := Hex4Value(t, 8);
        if 0xDC00 <= l < 0xE000 then Some(((0x10000 + (h - 0xD800) * 0x400 + (l - 0xDC00)) as char, t[12..]))
        else None
      else None
    else None
  }

  /** A string literal body up to and including its closing quote: the decoded text and what follows. */
  function ParseChars(t: string): (r: Option<(string, string)>)
    ensures r.Some? ==> |r.value.1| < |t|
  {
    if t == "" then None
    else if t[0] == '"' then Some(("", t[1..]))
    else
      match ParseChar(t)
      case None => None
      case Some((c, u)) =>
        match ParseChars(u)
        case None => None
        case Some((s, w)) => Some(([c] + s, w))
  }

  /** A run of digits starting at `i`: its value and the text after it. */
  function ParseDigits(t: string, i: nat): (r: Option<(nat, string)>)
    requires i <= |t|
    ensures r.Some? ==> |r.value.1| < |t| - i
  {
    var j := Span(t, i, Digit);
    if j == i then None
    else
      assert forall k | 0 <= k < j - i :: t[i..j][k] == t[i + k];
      Some((DecimalValue(t[i..j]), t[j..]))
  }

  /** One JSON value at the front of `t`, and the text after it. */
  function ParseValue(t: string): (r: Option<(PyValue, string)>)
    ensures r.Some? ==> |r.value.1| < |t|
    decreases |t|, 0
  {
    if t == "" then None
    else if t[0] == 'n' then (if StartsWith(t, "null") then Some((PyNone, t[4..])) else None)
    else if t[0] == 't' then (if StartsWith(t, "true") then Some((PyBool(true), t[4..])) else None)
    else if t[0] == 'f' then (if StartsWith(t, "false") then Some((PyBool(false), t[5..])) else None)
    else if t[0] == '"' then
      match ParseChars(t[1..])
      case None => None
      case Some((s, u)) => Some((PyStr(s), u))
    else if t[0] == '[' then
      if |t| >= 2 && t[1] == ']' then Some((PyList([]), t[2..]))
      else
        match ParseElements(t[1..])
        case None => None
        case Some((items, u)) => Some((PyList(items), u))
    else if t[0] == '-' then
      match ParseDigits(t, 1)
      case None => None
      case Some((n, u)) => Some((PyInt(-(n as int)), u))
    else
      match ParseDigits(t, 0)
      case None => None
      case Some((n, u)) => Some((PyInt(n), u))
  }

  /** The items of a non-empty list after its `[`, and the text after its `]`. */
  function ParseElements(t: string): (r: Option<(seq<PyValue>, string)>)
    ensures r.Some? ==> |r.value.1| < |t|
    decreases |t|, 1
  {
    match ParseValue(t)
    case None => None
    case Some((x, u)) =>
      if StartsWith(u, "]") then Some(([x], u[1..]))
      else if StartsWith(u, ", ") then
        match ParseElements(u[2..])
        case None => None
        case Some((xs, w)) => Some(([x] + xs, w))
      else None
  }

  // ---------------------------------------------------------------- round trip

  lemma UnicodeEscapeRoundTrip(c: char, u: string)
    requires (c as int) < 0x10000
    ensures ParseChar("\\u" + Hex4(c as int) + u) == Some((c, u))
  {
    var t := "\\u" + Hex4(c as int) + u;
    Hex4RoundTrip(c as int, "\\u", u);
    assert t[0] == '\\' && t[1] == 'u';
    assert t[6..] == u;
  }

  lemma SurrogatePairRoundTrip(c: char, u: string)
    requires (c as int) >= 0x10000
    ensures var n := (c as int) - 0x10000;
            ParseChar("\\u" + Hex4(0xD800 + n / 0x400) + "\\u" + Hex4(0xDC00 + n % 0x400) + u) == Some((c, u))
  {
    var n := (c as int) - 0x10000;
    var low := "\\u" + Hex4(0xDC00 + n % 0x400) + u;
    var t := "\\u" + Hex4(0xD800 + n / 0x400) + low;
    assert t == "\\u" + Hex4(0xD800 + n / 0x400) + "\\u" + Hex4(0xDC00 + n % 0x400) + u;
    Hex4RoundTrip(0xD800 + n / 0x400, "\\u", low);
    var p := "\\u" + Hex4(0xD800 + n / 0x400) + "\\u";
    assert t == p + Hex4(0xDC00 + n % 0x400) + u;
    Hex4RoundTrip(0xDC00 + n % 0x400, p, u);
    assert t[0] == '\\' && t[1] == 'u' && t[6] == '\\' && t[7] == 'u';
    assert t[12..] == u;
    assert n == (n / 0x400) * 0x400 + n % 0x400;
  }

  /** Decoding an escaped character gives the character back. */
  lemma EscapeCharRoundTrip(c: char, u: string)
    ensures ParseChar(EscapeChar(c) + u) == Some((c, u))
  {
    var t := EscapeChar(c) + u;
    if c == '"' || c == '\\' || c == '\n' || c == '\r' || c == '\t' || c as int == 8 || c as int == 12 {
      assert t[0] == '\\' && t[2..] == u;
    } else if ' ' <= c <= '~' {
      assert t[0] == c && t[1..] == u;
    } else if (c as int) < 0x10000 {
      UnicodeEscapeRoundTrip(c, u);
    } else {
      SurrogatePairRoundTrip(c, u);
    }
  }

  /** Decoding an escaped string body and its closing quote gives the string back. */
  lemma {:induction false} EscapeStringRoundTrip(s: string, rest: string)
    ensures ParseChars(EscapeString(s) + "\"" + rest) == Some((s, rest))
  {
    var t := EscapeString(s) + "\"" + rest;
    if s == [] {
      assert t == "\"" + rest;
      assert t[1..] == rest;
    } else {
      var u := EscapeString(s[1..]) + "\"" + rest;
      assert t == EscapeChar(s[0]) + u;
      EscapeCharRoundTrip(s[0], u);
      EscapeStringRoundTrip(s[1..], rest);
      assert [s[0]] + s[1..] == s;
    }
  }

  /** The text after a value does not continue a number. */
  predicate Delimited(rest: string)
  {
    rest == "" || !IsDigit(rest[0])
  }

  /** The digits of a rendered number, followed by a delimiter, are read back as that number. */
  lemma DigitsRoundTrip(p: string, n: nat, rest: string)
    requires Delimited(rest)
    ensures ParseDigits(p + NatToString(n) + rest, |p|) == Some((n, rest))
  {
    DigitRunRoundTrip(p, NatToString(n), rest);
    DecimalRoundTrip(n);
  }

  lemma DigitRunRoundTrip(p: string, d: string, rest: string)
    requires d != [] && forall k | 0 <= k < |d| :: IsDigit(d[k])
    requires Delimited(rest)
    ensures ParseDigits(p + d + rest, |p|) == Some((DecimalValue(d), rest))
  {
    var t := p + d + rest;
    assert t[|p|..|p| + |d|] == d;
    assert t[|p| + |d|..] == rest;
    SpanExact(t, |p|, |p| + |d|, Digit);
  }

  lemma IntRoundTrip(i: int, rest: string)
    requires Delimited(rest)
    ensures ParseValue(IntToString(i) + rest) == Some((PyInt(i), rest))
  {
    if i < 0 {
      NegativeRoundTrip(-i, rest);
    } else {
      NonNegativeRoundTrip(i, rest);
    }
  }

  lemma NegativeRoundTrip(n: nat, rest: string)
    requires n > 0 && Delimited(rest)
    ensures ParseValue("-" + NatToString(n) + rest) == Some((PyInt(-(n as int)), rest))
  {
    DigitsRoundTrip("-", n, rest);
  }

  lemma NonNegativeRoundTrip(n: nat, rest: string)
    requires Delimited(rest)
    ensures ParseValue(NatToString(n) + rest) == Some((PyInt(n), rest))
  {
    DigitsRoundTrip("", n, rest);
    assert "" + NatToString(n) + rest == NatToString(n) + rest;
    LeadingDigit(NatToString(n) + rest, n, rest);
  }

  /** A text starting with a digit is read as a number. */
  lemma LeadingDigit(t: string, n: nat, rest: string)
    requires t != [] && IsDigit(t[0])
    requires ParseDigits(t, 0) == Some((n, rest))
    ensures ParseValue(t) == Some((PyInt(n), rest))
  {
  }

  lemma StrRoundTrip(s: string, rest: string)
    ensures ParseValue(Dumps(PyStr(s)) + rest) == Some((PyStr(s), rest))
  {
    var t := Dumps(PyStr(s)) + rest;
    assert t == "\"" + (EscapeString(s) + "\"" + rest);
    assert t[1..] == EscapeString(s) + "\"" + rest;
    EscapeStringRoundTrip(s, rest);
  }

  /** Reading back the rendering of a float-free value gives the value and leaves what followed it. */
  lemma {:induction false} DumpsRoundTrip(v: PyValue, rest: string)
    requires FloatFree(v)
    requires Delimited(rest)
    ensures ParseValue(Dumps(v) + rest) == Some((v, rest))
    decreases v
  {
    match v
    case PyNone =>
      var t := Dumps(v) + rest;
      assert t[..4] == "null" && t[4..] == rest;
    case PyBool(b) =>
      var t := Dumps(v) + rest;
      if b {
        assert t[..4] == "true" && t[4..] == rest;
      } else {
        assert t[..5] == "false" && t[5..] == rest;
      }
    case PyInt(i) =>
      IntRoundTrip(i, rest);
    case PyStr(s) =>
      StrRoundTrip(s, rest);
    case PyList(items) =>
      if items == [] {
        EmptyListRoundTrip(rest);
      } else {
        ElementsRoundTrip(v, 0, rest);
        ListRoundTrip(items, rest);
      }
  }

  lemma EmptyListRoundTrip(rest: string)
    ensures ParseValue(Dumps(PyList([])) + rest) == Some((PyList([]), rest))
  {
    var t := Dumps(PyList([])) + rest;
    DumpsList([]);
    assert t == "[]" + rest;
    assert t[2..] == rest;
  }

  /** A non-empty list is read back once its items are. */
  lemma ListRoundTrip(items: seq<PyValue>, rest: string)
    requires |items| > 0 && FloatFree(PyList(items))
    requires ParseElements(Join(ItemTexts(items)[0..], ", ") + "]" + rest) == Some((items[0..], rest))
    ensures ParseValue(Dumps(PyList(items)) + rest) == Some((PyList(items), rest))
  {
    var t := Dumps(PyList(items)) + rest;
    var body := Join(ItemTexts(items), ", ");
    DumpsList(items);
    assert ItemTexts(items)[0..] == ItemTexts(items) && items[0..] == items;
    assert t == "[" + (body + "]" + rest);
    assert t[1..] == body + "]" + rest;
    FirstItemNotClosing(items, rest);
  }

  /** A non-empty list's rendering does not start with `[]`. */
  lemma FirstItemNotClosing(items: seq<PyValue>, rest: string)
    requires |items| > 0 && FloatFree(PyList(items))
    ensures (Dumps(PyList(items)) + rest)[1] != ']'
  {
    var ts := ItemTexts(items);
    DumpsList(items);
    var first := Dumps(items[0]);
    if |ts| == 1 {
      assert Join(ts, ", ") == first;
    } else {
      assert Join(ts, ", ") == first + ", " + Join(ts[1..], ", ");
    }
    DumpsStart(items[0]);
    assert (Dumps(PyList(items)) + rest)[1] == first[0];
  }

  /** No rendering of a float-free value is empty or starts with `]`. */
  lemma DumpsStart(v: PyValue)
    requires FloatFree(v)
    ensures Dumps(v) != "" && Dumps(v)[0] != ']'
  {
    if v.PyInt? {
      if v.i < 0 {
        assert IntToString(v.i)[0] == '-';
      } else {
        assert IsDigit(NatToString(v.i)[0]);
      }
    }
  }

  lemma {:induction false} ElementsRoundTrip(v: PyValue, j: nat, rest: string)
    requires v.PyList? && FloatFree(v) && j < |v.items|
    ensures ParseElements(Join(ItemTexts(v.items)[j..], ", ") + "]" + rest) == Some((v.items[j..], rest))
    decreases v, |v.items| - j
  {
    var items := v.items;
    var ts := ItemTexts(items)[j..];
    var x := items[j];
    var d := Dumps(x);
    if j == |items| - 1 {
      assert Join(ts, ", ") == d;
      DumpsRoundTrip(x, "]" + rest);
      Regroup(d, "", "]", rest);
      LastElement(d + ("]" + rest), x, "]" + rest);
      assert items[j..] == [x];
    } else {
      var tail := Join(ts[1..], ", ");
      assert Join(ts, ", ") == d + ", " + tail;
      assert ts[1..] == ItemTexts(items)[j + 1..];
      var u := ", " + tail + "]" + rest;
      DumpsRoundTrip(x, u);
      ElementsRoundTrip(v, j + 1, rest);
      Regroup(d, tail, "]", rest);
      NextElement(d + u, x, u, items[j + 1..], rest);
      assert items[j..] == [x] + items[j + 1..];
    }
  }

  lemma Regroup(d: string, tail: string, close: string, rest: string)
    ensures tail == "" ==> d + close + rest == d + (close + rest) && (close + rest)[|close|..] == rest
    ensures tail != "" ==> var u := ", " + tail + close + rest;
              (d + ", " + tail) + close + rest == d + u && u[2..] == tail + close + rest
  {
  }

  /** A value followed by `]` ends the items. */
  lemma LastElement(t: string, x: PyValue, u: string)
    requires ParseValue(t) == Some((x, u))
    requires u != [] && u[0] == ']'
    ensures ParseElements(t) == Some(([x], u[1..]))
  {
    assert u[..1] == "]";
  }

  /** A value followed by `, ` is followed by more items. */
  lemma NextElement(t: string, x: PyValue, u: string, xs: seq<PyValue>, rest: string)
    requires ParseValue(t) == Some((x, u))
    requires |u| >= 2 && u[0] == ',' && u[1] == ' '
    requires ParseElements(u[2..]) == Some((xs, rest))
    ensures ParseElements(t) == Some(([x] + xs, rest))
  {
    assert !StartsWith(u, "]") by {
      assert u[..1][0] == ',';
    }
    assert u[..2] == ", ";
  }
}
