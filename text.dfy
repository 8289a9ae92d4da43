/**
 * The string and integer conventions of the Kotlin standard library that the
 * downloader relies on: `contains`, `removePrefix`, `toInt` / `toIntOrNull`,
 * `Int.toString()` and `isBlank`, plus the ASCII lower-casing that jsoup applies
 * before its `[attr*=value]` selectors compare.
 */
module Text {
  import opened Wrappers

  /** Kotlin `s.contains(t)`: `t` starts at some offset of `s` (the empty string occurs everywhere). */
  predicate Contains(s: string, t: string)
    decreases |s|
  {
    t <= s || (s != [] && Contains(s[1..], t))
  }

  /** `Contains` holds exactly when `t` begins at some offset of `s`. */
  lemma {:induction false} ContainsSpec(s: string, t: string)
    ensures Contains(s, t) <==> exists i :: 0 <= i <= |s| && t <= s[i..]
    decreases |s|
  {
    assert s[0..] == s;
    if s != [] {
      ContainsSpec(s[1..], t);
      if Contains(s[1..], t) {
        var i :| 0 <= i <= |s[1..]| && t <= s[1..][i..];
        assert s[1..][i..] == s[i + 1..];
      }
      if exists i :: 0 <= i <= |s| && t <= s[i..] {
        var i :| 0 <= i <= |s| && t <= s[i..];
        if i > 0 {
          assert s[1..][i - 1..] == s[i..];
        }
      }
    }
  }

  lemma ContainsAt(s: string, i: int, t: string)
    requires 0 <= i <= |s| && t <= s[i..]
    ensures Contains(s, t)
  {
    ContainsSpec(s, t);
  }

  /** Kotlin `s.removePrefix(p)`. */
  function RemovePrefix(s: string, p: string): (r: string)
    ensures |r| <= |s| && r == s[|s| - |r|..]
    ensures p <= s ==> p + r == s
    ensures !(p <= s) ==> r == s
  {
    if p <= s then s[|p|..] else s
  }

  lemma AppendDrop(a: string, b: string)
    ensures (a + b)[|a|..] == b
  {
  }

  lemma PrefixSplit(p: string, u: string)
    requires p <= u
    ensures u == p + u[|p|..]
  {
    assert u == u[..|p|] + u[|p|..];
  }

  /** Whatever occurs in a suffix of `s` occurs in `s`. */
  lemma ContainsInSuffix(s: string, k: nat, t: string)
    requires k <= |s|
    requires Contains(s[k..], t)
    ensures Contains(s, t)
  {
    ContainsSpec(s[k..], t);
    var i :| 0 <= i <= |s[k..]| && t <= s[k..][i..];
    assert s[k..][i..] == s[k + i..];
    ContainsAt(s, k + i, t);
  }

  // ---- ASCII lower-casing (jsoup compares attribute values in lower case) ----

  function LowerChar(c: char): char {
    if 'A' <= c <= 'Z' then (c as int + 32) as char else c
  }

  function LowerAscii(s: string): (r: string)
    ensures |r| == |s|
    ensures forall i :: 0 <= i < |s| ==> r[i] == LowerChar(s[i])
  {
    seq(|s|, i requires 0 <= i < |s| => LowerChar(s[i]))
  }

  /** Lower-casing leaves a string that has no upper-case letter unchanged where it occurs. */
  lemma LowerAsciiKeepsLowerSegment(s: string, t: string)
    requires forall i :: 0 <= i < |t| ==> LowerChar(t[i]) == t[i]
    requires Contains(s, t)
    ensures Contains(LowerAscii(s), t)
  {
    ContainsSpec(s, t);
    var i :| 0 <= i <= |s| && t <= s[i..];
    var l := LowerAscii(s);
    assert forall j :: 0 <= j < |t| ==> l[i..][j] == LowerChar(s[i + j]) == t[j];
    assert t <= l[i..];
    ContainsAt(l, i, t);
  }

  // ---- decimal digits ----

  predicate IsDigit(c: char) { '0' <= c <= '9' }

  predicate AllDigits(s: string) { forall i :: 0 <= i < |s| ==> IsDigit(s[i]) }

  function DigitChar(d: nat): (c: char)
    requires d < 10
    ensures IsDigit(c)
  {
    (d + '0' as int) as char
  }

  /** The value of a string of decimal digits, most significant first. */
  function DigitsValue(s: string): nat
    requires AllDigits(s)
  {
    if s == [] then 0 else DigitsValue(s[..|s| - 1]) * 10 + (s[|s| - 1] as int - '0' as int)
  }

  /** Kotlin `n.toString()` for a non-negative number: shortest decimal form. */
  function NatToString(n: nat): (r: string)
    ensures |r| > 0 && AllDigits(r)
  {
    if n < 10 then [DigitChar(n)] else NatToString(n / 10) + [DigitChar(n % 10)]
  }

  /** Kotlin `Int.toString()` / `Long.toString()`: a leading `-` for negatives. */
  function IntToString(n: int): (r: string)
    ensures |r| > 0
  {
    if n < 0 then "-" + NatToString(-n) else NatToString(n)
  }

  // ---- 32-bit integers ----

  const IntMin: int := -0x8000_0000
  const IntMax: int := 0x7fff_ffff

  predicate IsInt32(n: int) { IntMin <= n <= IntMax }

  /** Kotlin `Int` subtraction: the exact difference reduced to the 32-bit two's-complement range. */
  function Wrap32(n: int): (r: int)
    ensures IsInt32(r)
    ensures IsInt32(n) ==> r == n
    ensures (r - n) % 0x1_0000_0000 == 0
  {
    (n - IntMin) % 0x1_0000_0000 + IntMin
  }

  /**
   * Kotlin `String.toInt()` (which is `java.lang.Integer.parseInt`) and
   * `String.toIntOrNull()`: an optional `+` or `-`, then at least one decimal
   * digit, with the value inside the 32-bit range; anything else is `None`
   * (the exception or the `null`).
   */
  function ParseInt(s: string): (r: Option<int>)
    ensures r.Some? ==> IsInt32(r.value)
    ensures r.Some? ==> |s| > 0 && AllDigits(if s[0] == '-' || s[0] == '+' then s[1..] else s)
    ensures r.Some? ==> |s| > (if s[0] == '-' || s[0] == '+' then 1 else 0)
  {
    var signed := |s| > 0 && (s[0] == '-' || s[0] == '+');
    var body := if signed then s[1..] else s;
    if body == [] || !AllDigits(body) then None
    else
      var v: int := if signed && s[0] == '-' then -(DigitsValue(body) as int) else DigitsValue(body);
      if IsInt32(v) then Some(v) else None
  }

  lemma {:induction false} DigitsValueOfNatToString(n: nat)
    ensures DigitsValue(NatToString(n)) == n
  {
    if n >= 10 {
      var s := NatToString(n);
      assert s[..|s| - 1] == NatToString(n / 10);
      DigitsValueOfNatToString(n / 10);
    }
  }

  /**
   * An optional sign followed by a non-empty digit run parses to the run's
   * value, negated after `-`, whenever that value fits in an `Int`, and is
   * rejected when it does not; a leading `+` and leading zeros are accepted.
   */
  lemma ParseIntValue(sign: string, digits: string)
    requires sign == "" || sign == "+" || sign == "-"
    requires digits != [] && AllDigits(digits)
    ensures var v := if sign == "-" then -(DigitsValue(digits) as int) else DigitsValue(digits);
            ParseInt(sign + digits) == if IsInt32(v) then Some(v) else None
  {
    var s := sign + digits;
    if sign == "" {
      assert s == digits;
      assert IsDigit(s[0]);
    } else {
      assert s[0] == sign[0] && s[1..] == digits;
    }
  }

  /** `Int.toString()` followed by `toInt()` gives the number back. */
  lemma ParseIntToString(n: int)
    requires IsInt32(n)
    ensures ParseInt(IntToString(n)) == Some(n)
  {
    var s := IntToString(n);
    if n < 0 {
      var digits := NatToString(-n);
      assert s[0] == '-' && s[1..] == digits;
      DigitsValueOfNatToString(-n);
      assert -(DigitsValue(digits) as int) == n;
    } else {
      assert s == NatToString(n);
      assert IsDigit(s[0]);
      DigitsValueOfNatToString(n);
      assert DigitsValue(s) == n;
    }
  }

  /** The printed form starts with `-` exactly for a negative number. */
  lemma IntToStringSign(n: int)
    ensures IntToString(n)[0] == '-' <==> n < 0
  {
    if n >= 0 {
      assert IsDigit(NatToString(n)[0]);
    }
  }

  /** Different numbers print differently. */
  lemma IntToStringInjective(a: int, b: int)
    requires IntToString(a) == IntToString(b)
    ensures a == b
  {
    IntToStringSign(a);
    IntToStringSign(b);
    var s := IntToString(a);
    if a < 0 {
      assert s[1..] == NatToString(-a) == NatToString(-b);
      DigitsValueOfNatToString(-a);
      DigitsValueOfNatToString(-b);
    } else {
      DigitsValueOfNatToString(a);
      DigitsValueOfNatToString(b);
    }
  }

  // ---- blank strings ----

  /** Kotlin `Char.isWhitespace()` on the JVM: Java whitespace or a Unicode space separator. */
  predicate IsWhitespace(c: char) {
    || c == ' '
    || '\t' <= c <= '\r'
    || '\U{1C}' <= c <= '\U{1F}'
    || c == '\U{A0}' || c == '\U{1680}'
    || '\U{2000}' <= c <= '\U{200A}'
    || c == '\U{2028}' || c == '\U{2029}' || c == '\U{202F}' || c == '\U{205F}' || c == '\U{3000}'
  }

  /** Kotlin `s.isBlank()`: empty or whitespace only. */
  predicate IsBlank(s: string) {
    forall i :: 0 <= i < |s| ==> IsWhitespace(s[i])
  }

  /** Kotlin string template of a nullable exception message: `null` prints as "null". */
  function MessageText(message: Option<string>): string {
    match message
    case None => "null"
    case Some(m) => m
  }
}
