/**
 * String primitives that the TypeScript and Python sources take from their
 * runtime libraries: character classes, `includes`/`startsWith`, `split`,
 * `join`, `trim`/`strip`, the first-occurrence `replace`, and decimal
 * rendering of integers.  Strings are sequences of Unicode scalar values.
 */
module Text {

  import Wrappers

  /** The character classes the sources test against. */
  datatype CharClass =
    | JsSpace   // JavaScript `\s` and the set `String.prototype.trim` removes
    | PySpace   // Python `str.isspace`, the set `str.strip()` removes
    | Word      // JavaScript `\w`: ASCII letters, digits and `_`
    | Slash     // `/`
    | Quote     // the argument of Python `strip('"\'')`
    | Digit     // ASCII decimal digits
    | NonSlash  // the regular-expression class `[^/]`

  predicate In(c: char, k: CharClass)
  {
    var n := c as int;
    match k
    case JsSpace =>
      (9 <= n <= 13) || n == 0x20 || n == 0xA0 || n == 0x1680 || (0x2000 <= n <= 0x200A)
      || n == 0x2028 || n == 0x2029 || n == 0x202F || n == 0x205F || n == 0x3000 || n == 0xFEFF
    case PySpace =>
      (9 <= n <= 13) || (0x1C <= n <= 0x20) || n == 0x85 || n == 0xA0 || n == 0x1680
      || (0x2000 <= n <= 0x200A) || n == 0x2028 || n == 0x2029 || n == 0x202F || n == 0x205F || n == 0x3000
    case Word => ('a' <= c <= 'z') || ('A' <= c <= 'Z') || ('0' <= c <= '9') || c == '_'
    case Slash => c == '/'
    case Quote => c == '"' || c == '\''
    case Digit => IsDigit(c)
    case NonSlash => c != '/'
  }

  predicate AllIn(s: string, k: CharClass)
  {
    forall j | 0 <= j < |s| :: In(s[j], k)
  }

  // ---------------------------------------------------------------- search

  /** `p` occurs in `s` starting at index `i`. */
  predicate OccursAt(s: string, p: string, i: int)
  {
    0 <= i && i + |p| <= |s| && s[i..i + |p|] == p
  }

  /** JavaScript `s.includes(p)`. */
  predicate Contains(s: string, p: string)
  {
    exists i | 0 <= i <= |s| - |p| :: OccursAt(s, p, i)
  }

  /** JavaScript `s.startsWith(p)`, Python `s.startswith(p)`. */
  predicate StartsWith(s: string, p: string)
  {
    OccursAt(s, p, 0)
  }

  /** Python `s.endswith(p)`. */
  predicate EndsWith(s: string, p: string)
  {
    |p| <= |s| && s[|s| - |p|..] == p
  }

  /** An occurrence inside a part of a concatenation is an occurrence in the whole. */
  lemma OccursInMiddle(a: string, p: string, b: string)
    ensures OccursAt(a + p + b, p, |a|) && Contains(a + p + b, p)
  {
    assert (a + p + b)[|a|..|a| + |p|] == p;
    assert OccursAt(a + p + b, p, |a|);
  }

  /** Whatever contains `p + q` contains `p`, at the same place. */
  lemma ContainsPrefix(s: string, p: string, q: string, i: nat)
    requires OccursAt(s, p + q, i)
    ensures OccursAt(s, p, i) && Contains(s, p)
  {
    assert s[i..i + |p|] == (p + q)[..|p|];
    assert OccursAt(s, p, i);
  }

  /** Whatever contains `a + p + b` contains `p`, `|a|` places further on. */
  lemma OccursWithin(s: string, a: string, p: string, b: string, i: nat)
    requires OccursAt(s, a + p + b, i)
    ensures OccursAt(s, p, i + |a|) && Contains(s, p)
  {
    var w := a + p + b;
    assert s[i..i + |w|] == w;
    forall k | 0 <= k < |p|
      ensures s[i + |a| + k] == p[k]
    {
      assert s[i + |a| + k] == w[|a| + k];
    }
    assert s[i + |a|..i + |a| + |p|] == p;
    assert OccursAt(s, p, i + |a|);
  }

  /** A part appended last occurs at the end. */
  lemma OccursLast(a: string, p: string)
    ensures OccursAt(a + p, p, |a|)
  {
    assert (a + p)[|a|..|a| + |p|] == p;
  }

  /** Appending text keeps every occurrence where it was. */
  lemma OccursExtend(s: string, p: string, i: nat, t: string)
    requires OccursAt(s, p, i)
    ensures OccursAt(s + t, p, i) && Contains(s + t, p)
  {
    assert (s + t)[i..i + |p|] == s[i..i + |p|];
    assert OccursAt(s + t, p, i);
  }

  /** A text ends with its last part. */
  lemma EndsWithLast(x: string, p: string)
    ensures EndsWith(x + p, p)
  {
    assert (x + p)[|x + p| - |p|..] == p;
  }

  /** A text ending with `p` still ends with `p` after more text is put in front. */
  lemma EndsWithPrepend(x: string, s: string, p: string)
    requires EndsWith(s, p)
    ensures EndsWith(x + s, p)
  {
    assert (x + s)[|x + s| - |p|..] == s[|s| - |p|..];
  }

  /** A one-character pattern occurs exactly when the character is present. */
  lemma ContainsChar(s: string, c: char)
    ensures Contains(s, [c]) <==> c in s
  {
    if c in s {
      var i :| 0 <= i < |s| && s[i] == c;
      assert OccursAt(s, [c], i);
    }
    if Contains(s, [c]) {
      var i :| 0 <= i <= |s| - 1 && OccursAt(s, [c], i);
      assert s[i] == s[i..i + 1][0] == c;
    }
  }

  /** The first index at or after `i` holding `c`, if any. */
  function IndexOfChar(s: string, i: nat, c: char): (r: Wrappers.Option<nat>)
    requires i <= |s|
    ensures r.Some? ==> i <= r.value < |s| && s[r.value] == c && c !in s[i..r.value]
    ensures r.None? ==> c !in s[i..]
    decreases |s| - i
  {
    if i == |s| then Wrappers.None
    else if s[i] == c then Wrappers.Some(i)
    else
      var r := IndexOfChar(s, i + 1, c);
      assert s[i..] == [s[i]] + s[i + 1..];
      if r.Some? then assert s[i..r.value] == [s[i]] + s[i + 1..r.value]; r else r
  }

  /** When `c` first appears at `j` from `i` on, `IndexOfChar` finds it there. */
  lemma IndexOfCharExact(s: string, i: nat, j: nat, c: char)
    requires i <= j < |s| && s[j] == c && c !in s[i..j]
    ensures IndexOfChar(s, i, c) == Wrappers.Some(j)
  {
  }

  // ---------------------------------------------------------------- runs and trimming

  /** The end of the longest run of `k` characters starting at `i`. */
  function Span(s: string, i: nat, k: CharClass): (j: nat)
    requires i <= |s|
    ensures i <= j <= |s|
    ensures AllIn(s[i..j], k)
    ensures j == |s| || !In(s[j], k)
    decreases |s| - i
  {
    if i == |s| || !In(s[i], k) then i else Span(s, i + 1, k)
  }

  /** The start of the longest run of `k` characters ending at `j`. */
  function SpanBack(s: string, j: nat, k: CharClass): (i: nat)
    requires j <= |s|
    ensures i <= j
    ensures AllIn(s[i..j], k)
    ensures i == 0 || !In(s[i - 1], k)
  {
    if j == 0 || !In(s[j - 1], k) then j
    else
      var i := SpanBack(s, j - 1, k);
      assert s[i..j] == s[i..j - 1] + [s[j - 1]];
      i
  }

  /** A run that is all `k` and is not followed by `k` is the one `Span` finds. */
  lemma SpanExact(s: string, i: nat, j: nat, k: CharClass)
    requires i <= j <= |s|
    requires AllIn(s[i..j], k)
    requires j == |s| || !In(s[j], k)
    ensures Span(s, i, k) == j
  {
  }

  lemma {:induction false} SpanBackExact(s: string, i: nat, j: nat, k: CharClass)
    requires i <= j <= |s|
    requires AllIn(s[i..j], k)
    requires i == 0 || !In(s[i - 1], k)
    ensures SpanBack(s, j, k) == i
    decreases j - i
  {
    if i < j {
      assert s[i..j][j - 1 - i] == s[j - 1];
      assert s[i..j - 1] == s[i..j][..j - 1 - i];
      SpanBackExact(s, i, j - 1, k);
    }
  }

  /**
   * Removes every leading and every trailing character of class `k`:
   * JavaScript `trim()` for `JsSpace`, Python `strip()` for `PySpace`,
   * Python `strip('"\'')` for `Quote`, and the regular-expression replace
   * `/^\/+|\/+$/g` for `Slash`.
   */
  function Trim(s: string, k: CharClass): (r: string)
    ensures |r| <= |s|
    ensures r == "" || (!In(r[0], k) && !In(r[|r| - 1], k))
    ensures var a := Span(s, 0, k);
            a + |r| <= |s| && r == s[a..a + |r|] && AllIn(s[..a], k) && AllIn(s[a + |r|..], k)
  {
    var a := Span(s, 0, k);
    var t := s[a..];
    var b := SpanBack(t, |t|, k);
    assert t[b..|t|] == s[a + b..];
    assert AllIn(s[a + b..], k);
    assert t[..b] == s[a..a + b];
    assert s[..a] == s[0..a];
    assert AllIn(s[..a], k);
    assert b > 0 ==> t[..b][b - 1] == t[b - 1];
    t[..b]
  }

  /** Trimming twice is trimming once. */
  lemma TrimIdempotent(s: string, k: CharClass)
    ensures Trim(Trim(s, k), k) == Trim(s, k)
  {
    var r := Trim(s, k);
    if r != "" {
      SpanExact(r, 0, 0, k);
      assert r[0..] == r;
      SpanBackExact(r, |r|, |r|, k);
    }
  }

  /** A string with no class-`k` character at either end is its own trim. */
  lemma TrimNoop(s: string, k: CharClass)
    requires s == "" || (!In(s[0], k) && !In(s[|s| - 1], k))
    ensures Trim(s, k) == s
  {
    if s != "" {
      SpanExact(s, 0, 0, k);
      assert s[0..] == s;
      SpanBackExact(s, |s|, |s|, k);
    }
  }

  // ---------------------------------------------------------------- split and join

  /** JavaScript `s.split(sep)` and Python `s.split(sep)` with a one-character separator. */
  function Split(s: string, sep: char): (r: seq<string>)
    ensures |r| >= 1
    ensures forall j | 0 <= j < |r| :: sep !in r[j]
  {
    if s == [] then [""]
    else
      var rest := Split(s[1..], sep);
      if s[0] == sep then [""] + rest else [[s[0]] + rest[0]] + rest[1..]
  }

  /** JavaScript `xs.join(sep)`. */
  function Join(xs: seq<string>, sep: string): string
  {
    if |xs| == 0 then "" else if |xs| == 1 then xs[0] else xs[0] + sep + Join(xs[1..], sep)
  }

  /** Splitting loses nothing: joining the pieces back gives the original text. */
  lemma {:induction false} JoinSplit(s: string, sep: char)
    ensures Join(Split(s, sep), [sep]) == s
  {
    if s != [] {
      var rest := Split(s[1..], sep);
      JoinSplit(s[1..], sep);
      if s[0] == sep {
        assert Split(s, sep) == [""] + rest;
      } else {
        var r := Split(s, sep);
        assert r == [[s[0]] + rest[0]] + rest[1..];
        if |rest| == 1 {
          assert Join(rest, [sep]) == rest[0];
        } else {
          assert Join(rest, [sep]) == rest[0] + [sep] + Join(rest[1..], [sep]);
          assert r[1..] == rest[1..];
        }
      }
    }
  }

  /** A text holding the separator splits into at least two pieces. */
  lemma {:induction false} SplitAtSeparator(s: string, sep: char)
    requires sep in s
    ensures |Split(s, sep)| >= 2
  {
    if s[0] != sep {
      SplitAtSeparator(s[1..], sep);
    }
  }

  /** A trimmed text holds only characters of the original. */
  lemma TrimWithin(s: string, k: CharClass, c: char)
    requires c !in s
    ensures c !in Trim(s, k)
  {
  }

  /** A separator-free prefix followed by the separator becomes a piece of its own. */
  lemma {:induction false} SplitPrefix(p: string, sep: char, t: string)
    requires sep !in p
    ensures Split(p + [sep] + t, sep) == [p] + Split(t, sep)
  {
    if p != [] {
      assert (p + [sep] + t)[1..] == p[1..] + [sep] + t;
      SplitPrefix(p[1..], sep, t);
      assert [p[0]] + p[1..] == p;
    } else {
      assert p + [sep] + t == [sep] + t;
      assert ([sep] + t)[1..] == t;
    }
  }

  /** A separator-free text is one piece. */
  lemma {:induction false} SplitWhole(p: string, sep: char)
    requires sep !in p
    ensures Split(p, sep) == [p]
  {
    if p != [] {
      SplitWhole(p[1..], sep);
      assert [p[0]] + p[1..] == p;
    }
  }

  /** Joining separator-free pieces and splitting again gives the same pieces. */
  lemma {:induction false} SplitJoin(xs: seq<string>, sep: char)
    requires |xs| >= 1
    requires forall j | 0 <= j < |xs| :: sep !in xs[j]
    ensures Split(Join(xs, [sep]), sep) == xs
  {
    if |xs| == 1 {
      SplitWhole(xs[0], sep);
    } else {
      SplitJoin(xs[1..], sep);
      SplitPrefix(xs[0], sep, Join(xs[1..], [sep]));
    }
  }

  // ---------------------------------------------------------------- replace

  /** JavaScript `s.replace(pat, rep)` with a string pattern: only the first occurrence is replaced. */
  function ReplaceFirst(s: string, pat: string, rep: string): string
    requires pat != ""
  {
    if |s| < |pat| then s
    else if s[..|pat|] == pat then rep + s[|pat|..]
    else [s[0]] + ReplaceFirst(s[1..], pat, rep)
  }

  /** Occurrences in the tail are occurrences one position further in the whole. */
  lemma OccursShift(s: string, pat: string, j: nat)
    requires |s| > 0
    ensures OccursAt(s[1..], pat, j) <==> OccursAt(s, pat, j + 1)
  {
    if j + 1 + |pat| <= |s| {
      assert s[1..][j..j + |pat|] == s[j + 1..j + 1 + |pat|];
    }
  }

  /** The replacement happens at the first occurrence and nowhere else. */
  lemma {:induction false} ReplaceFirstAt(s: string, pat: string, rep: string, i: nat)
    requires pat != ""
    requires OccursAt(s, pat, i)
    requires forall j | 0 <= j < i :: !OccursAt(s, pat, j)
    ensures ReplaceFirst(s, pat, rep) == s[..i] + rep + s[i + |pat|..]
  {
    if i > 0 {
      var t := s[1..];
      assert !OccursAt(s, pat, 0);
      assert ReplaceFirst(s, pat, rep) == [s[0]] + ReplaceFirst(t, pat, rep);
      forall j | 0 <= j < i - 1
        ensures !OccursAt(t, pat, j)
      {
        OccursShift(s, pat, j);
      }
      OccursShift(s, pat, i - 1);
      ReplaceFirstAt(t, pat, rep, i - 1);
      assert t[..i - 1] == s[1..i] && t[i - 1 + |pat|..] == s[i + |pat|..];
      assert [s[0]] + s[1..i] == s[..i];
    }
  }

  /** Without an occurrence the text is returned unchanged. */
  lemma {:induction false} ReplaceFirstAbsent(s: string, pat: string, rep: string)
    requires pat != ""
    requires !Contains(s, pat)
    ensures ReplaceFirst(s, pat, rep) == s
  {
    if |s| >= |pat| {
      assert !OccursAt(s, pat, 0);
      forall j | 0 <= j <= |s[1..]| - |pat|
        ensures !OccursAt(s[1..], pat, j)
      {
        OccursShift(s, pat, j);
      }
      ReplaceFirstAbsent(s[1..], pat, rep);
    }
  }

  // ---------------------------------------------------------------- decimal numbers

  predicate IsDigit(c: char)
  {
    '0' <= c <= '9'
  }

  function DigitChar(d: nat): (c: char)
    requires d < 10
    ensures IsDigit(c) && (c as int) - ('0' as int) == d
  {
    (('0' as int) + d) as char
  }

  /** Decimal rendering of a natural number, as JavaScript template literals and Python `str` give it. */
  function NatToString(n: nat): (r: string)
    ensures |r| >= 1
    ensures forall j | 0 <= j < |r| :: IsDigit(r[j])
  {
    if n < 10 then [DigitChar(n)] else NatToString(n / 10) + [DigitChar(n % 10)]
  }

  /** Python `str(i)` for an integer. */
  function IntToString(i: int): string
  {
    if i < 0 then "-" + NatToString(-i) else NatToString(i)
  }

  /** The value of a string of decimal digits. */
  function DecimalValue(s: string): nat
    requires forall j | 0 <= j < |s| :: IsDigit(s[j])
  {
    if s == [] then 0
    else
      assert IsDigit(s[|s| - 1]);
      DecimalValue(s[..|s| - 1]) * 10 + ((s[|s| - 1] as int) - ('0' as int))
  }

  /** Reading back a rendered number gives the number. */
  lemma {:induction false} DecimalRoundTrip(n: nat)
    ensures DecimalValue(NatToString(n)) == n
  {
    if n >= 10 {
      var s := NatToString(n);
      assert s[..|s| - 1] == NatToString(n / 10);
      DecimalRoundTrip(n / 10);
    }
  }

  /** Distinct numbers render as distinct strings. */
  lemma NatToStringInjective(a: nat, b: nat)
    ensures NatToString(a) == NatToString(b) <==> a == b
  {
    if NatToString(a) == NatToString(b) {
      DecimalRoundTrip(a);
      DecimalRoundTrip(b);
    }
  }
}
