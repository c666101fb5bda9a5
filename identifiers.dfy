/**
  Identifier sanitising of the Highscore class: a namespace or a user id is
  coerced to a string when it is numeric, trimmed when it is a string, and
  rejected when it is not a non-empty string afterwards.
 */
module Identifiers {
  import opened Wrappers

  /**
    The PHP values a caller can hand to the sanitisers. Floats are not part of
    this model (their string form is PHP's float formatting); a numeric string
    is a `Str`, since casting a string to a string leaves it unchanged.
   */
  datatype Value =
    | Str(s: string)
    | Int(n: int)
    | Bool(b: bool)
    | Null
    | Array(items: seq<Value>)
    | Object

  /** The characters PHP's trim() strips by default: space, tab, line feed,
      carriage return, NUL and vertical tab. */
  predicate IsTrimChar(c: char) {
    c == ' ' || c == '\t' || c == '\n' || c == '\r' || c == '\0' || c == '\U{B}'
  }

  /** Every character of `s` is one trim() strips. */
  predicate IsBlank(s: string) {
    forall i :: 0 <= i < |s| ==> IsTrimChar(s[i])
  }

  /** Nothing for trim() to strip at either end. */
  predicate IsTrimmed(s: string) {
    s == [] || (!IsTrimChar(s[0]) && !IsTrimChar(s[|s| - 1]))
  }

  /** A valid namespace or user id: non-empty and already trimmed. */
  predicate IsKey(s: string) {
    s != [] && IsTrimmed(s)
  }

  /** Every character of `s` outside the window `[lo, hi)` is a trim character. */
  predicate BlankOutside(s: string, lo: nat, hi: nat)
    requires lo <= hi <= |s|
  {
    && (forall k :: 0 <= k < lo ==> IsTrimChar(s[k]))
    && (forall k :: hi <= k < |s| ==> IsTrimChar(s[k]))
  }

  /** Strips trim characters from the front: the result is a suffix of `s`
      that starts with a character trim() keeps. */
  function TrimLeft(s: string): (r: string)
    ensures |r| <= |s| && r == s[|s| - |r|..]
    ensures r == [] || !IsTrimChar(r[0])
  {
    if s != [] && IsTrimChar(s[0]) then TrimLeft(s[1..]) else s
  }

  /** Strips trim characters from the back: the result is a prefix of `s`
      that ends with a character trim() keeps. */
  function TrimRight(s: string): (r: string)
    ensures |r| <= |s| && r == s[..|r|]
    ensures r == [] || !IsTrimChar(r[|r| - 1])
  {
    if s != [] && IsTrimChar(s[|s| - 1]) then TrimRight(s[..|s| - 1]) else s
  }

  /** TrimLeft drops trim characters only. */
  lemma {:induction false} TrimLeftDropsBlanks(s: string)
    ensures BlankOutside(s, |s| - |TrimLeft(s)|, |s|)
  {
    if s != [] && IsTrimChar(s[0]) {
      TrimLeftDropsBlanks(s[1..]);
      assert forall k :: 1 <= k < |s| - |TrimLeft(s)| ==> s[k] == s[1..][k - 1];
    }
  }

  /** TrimRight drops trim characters only. */
  lemma {:induction false} TrimRightDropsBlanks(s: string)
    ensures BlankOutside(s, 0, |TrimRight(s)|)
  {
    if s != [] && IsTrimChar(s[|s| - 1]) {
      TrimRightDropsBlanks(s[..|s| - 1]);
      assert forall k :: |TrimRight(s)| <= k < |s| - 1 ==> s[k] == s[..|s| - 1][k];
    }
  }

  /** PHP's trim(): the result has nothing left to strip at either end. */
  function Trim(s: string): (r: string)
    ensures IsTrimmed(r)
  {
    TrimRight(TrimLeft(s))
  }

  /** trim() keeps a window of `s` and drops only trim characters around it. */
  lemma TrimIsWindow(s: string)
    ensures var r := Trim(s);
      exists i :: 0 <= i <= |s| - |r| && r == s[i..][..|r|] && BlankOutside(s, i, i + |r|)
  {
    var t := TrimLeft(s);
    var r := TrimRight(t);
    var i := |s| - |t|;
    TrimLeftDropsBlanks(s);
    TrimRightDropsBlanks(t);
    assert r == s[i..][..|r|];
    assert forall k :: i + |r| <= k < |s| ==> s[k] == t[k - i];
    assert BlankOutside(s, i, i + |r|);
  }

  /** trim() leaves nothing exactly when every character is a trim character. */
  lemma TrimEmptyIffBlank(s: string)
    ensures Trim(s) == [] <==> IsBlank(s)
  {
    TrimIsWindow(s);
  }

  /** A string that is already trimmed is left as it is. */
  lemma TrimKeepsTrimmed(s: string)
    requires IsTrimmed(s)
    ensures Trim(s) == s
  {
    assert TrimLeft(s) == s;
    assert TrimRight(s) == s;
  }

  /** The character of decimal digit `d`. */
  function DigitChar(d: nat): (c: char)
    requires d < 10
    ensures '0' <= c <= '9' && c as int - '0' as int == d
  {
    ('0' as int + d) as char
  }

  predicate IsDigits(s: string) {
    forall i :: 0 <= i < |s| ==> '0' <= s[i] <= '9'
  }

  /** The decimal form of a natural number, most significant digit first. */
  function NatToString(n: nat): (r: string)
    ensures r != [] && IsDigits(r)
    ensures n >= 10 ==> r[0] != '0'
  {
    if n < 10 then [DigitChar(n)] else NatToString(n / 10) + [DigitChar(n % 10)]
  }

  /** PHP's (string) cast of an integer: its decimal form, with a leading
      minus sign when it is negative. */
  function IntToString(n: int): (r: string)
    ensures r != [] && (r[0] == '-' || '0' <= r[0] <= '9') && IsDigits(r[1..])
    ensures (r[0] == '-') == (n < 0)
    ensures n == 0 ==> r == "0"
    ensures |r| > 1 ==> r[if n < 0 then 1 else 0] != '0'
  {
    if n < 0 then "-" + NatToString(-n) else NatToString(n)
  }

  /** The value of a string of decimal digits. */
  function DigitsValue(s: string): nat
    requires IsDigits(s)
  {
    if s == [] then 0 else DigitsValue(s[..|s| - 1]) * 10 + (s[|s| - 1] as int - '0' as int)
  }

  /** Reads back what IntToString writes. */
  function ParseInt(s: string): int
    requires s != [] && (s[0] == '-' || '0' <= s[0] <= '9') && IsDigits(s[1..])
  {
    var magnitude: int := if s[0] == '-' then DigitsValue(s[1..]) else DigitsValue(s);
    if s[0] == '-' then -magnitude else magnitude
  }

  lemma {:induction false} NatToStringRoundTrip(n: nat)
    ensures DigitsValue(NatToString(n)) == n
  {
    if n >= 10 {
      NatToStringRoundTrip(n / 10);
      var s := NatToString(n);
      assert s[..|s| - 1] == NatToString(n / 10);
    }
  }

  /** The integer-to-string coercion is inverted by ParseInt, so two different
      integers never become the same key. */
  lemma IntToStringRoundTrip(n: int)
    ensures ParseInt(IntToString(n)) == n
  {
    if n < 0 {
      NatToStringRoundTrip(-n);
      assert IntToString(n)[1..] == NatToString(-n);
    } else {
      NatToStringRoundTrip(n);
      var s := NatToString(n);
      assert '0' <= s[0] <= '9';
    }
  }

  lemma IntToStringInjective(a: int, b: int)
    requires IntToString(a) == IntToString(b)
    ensures a == b
  {
    IntToStringRoundTrip(a);
    IntToStringRoundTrip(b);
  }

  /** The decimal form of an integer has nothing for trim() to strip. */
  lemma IntToStringIsKey(n: int)
    ensures IsKey(IntToString(n))
  {
    var s := IntToString(n);
    if |s| > 1 {
      assert '0' <= s[1..][|s| - 2] <= '9';
    }
  }

  /**
    The sanitising rule of `_sanitizeNamespace` and `_sanitizeUserId`: an
    integer becomes its decimal string, a string is trimmed, and the outcome
    is accepted only when it is a non-empty string. Any accepted key is
    non-empty and trimmed.
   */
  function Normalize(v: Value): (r: Option<string>)
    ensures r.Some? ==> IsKey(r.value)
  {
    var trimmed := TrimString(Coerce(v));
    if trimmed.Str? && |trimmed.s| > 0 then Some(trimmed.s) else None
  }

  /** The first sanitising step: an integer becomes its decimal string. */
  function Coerce(v: Value): (r: Value)
    ensures !r.Int?
  {
    if v.Int? then Str(IntToString(v.n)) else v
  }

  /** The second sanitising step: a string is trimmed. */
  function TrimString(v: Value): (r: Value)
    ensures r.Str? == v.Str?
  {
    if v.Str? then Str(Trim(v.s)) else v
  }

  /** Which values are accepted: every integer, and every string that is not
      blank (the empty string included among the blank ones); booleans, null,
      arrays and objects are always rejected. */
  lemma NormalizeAccepts(v: Value)
    ensures Normalize(v).Some? <==> v.Int? || (v.Str? && !IsBlank(v.s))
  {
    if v.Int? {
      var s := IntToString(v.n);
      IntToStringIsKey(v.n);
      TrimKeepsTrimmed(s);
      assert TrimString(Coerce(v)) == Str(s);
    } else if v.Str? {
      TrimEmptyIffBlank(v.s);
      assert TrimString(Coerce(v)) == Str(Trim(v.s));
    }
  }

  /** A string that is not blank is accepted as its trimmed form. */
  lemma NormalizeTrims(s: string)
    requires !IsBlank(s)
    ensures Normalize(Str(s)) == Some(Trim(s))
  {
    TrimEmptyIffBlank(s);
  }

  /** An integer is accepted as its decimal string, which reads back as it. */
  lemma NormalizeInt(n: int)
    ensures Normalize(Int(n)) == Some(IntToString(n))
    ensures ParseInt(Normalize(Int(n)).value) == n
  {
    IntToStringIsKey(n);
    IntToStringRoundTrip(n);
  }

  /** An integer id and its decimal string are the same key, so `set(7, ...)`
      and `get('7')` address the same entry. */
  lemma NormalizeIntMatchesString(n: int)
    ensures Normalize(Int(n)) == Normalize(Str(IntToString(n)))
  {
    NormalizeInt(n);
    IntToStringIsKey(n);
    NormalizeKeepsKeys(IntToString(n));
  }

  /** A key that is already non-empty and trimmed comes back unchanged. */
  lemma NormalizeKeepsKeys(s: string)
    requires IsKey(s)
    ensures Normalize(Str(s)) == Some(s)
  {
    TrimKeepsTrimmed(s);
  }

  /** Sanitising a sanitised value changes nothing. */
  lemma NormalizeIdempotent(v: Value)
    requires Normalize(v).Some?
    ensures Normalize(Str(Normalize(v).value)) == Normalize(v)
  {
    NormalizeKeepsKeys(Normalize(v).value);
  }

  /** One space on each side of a key is stripped by trim(). */
  lemma TrimStripsSpaces(w: string)
    requires IsKey(w)
    ensures Trim(" " + w + " ") == w
  {
    var padded := " " + w + " ";
    assert padded[1..] == w + " ";
    assert TrimLeft(padded) == TrimLeft(w + " ") == w + " ";
    assert (w + " ")[..|w|] == w;
    assert TrimRight(w + " ") == TrimRight(w) == w;
  }

  /** A key padded with one space on each side is accepted as the key. */
  lemma NormalizeStripsSpaces(w: string)
    requires IsKey(w)
    ensures Normalize(Str(" " + w + " ")) == Some(w)
  {
    TrimStripsSpaces(w);
  }

  /** The example of HighscoreTest.php: `' trimmed '` becomes `'trimmed'`. */
  lemma NormalizeExampleTrimmed()
    ensures Normalize(Str(" trimmed ")) == Some("trimmed")
  {
    assert " " + "trimmed" + " " == " trimmed ";
    NormalizeStripsSpaces("trimmed");
  }

  /** The example of HighscoreTest.php: the integer 12 becomes `'12'`. */
  lemma NormalizeExampleInteger()
    ensures Normalize(Int(12)) == Some("12")
  {
    assert 12 / 10 == 1 && 12 % 10 == 2;
    assert DigitChar(1) == '1' && DigitChar(2) == '2';
    assert NatToString(1) == "1";
    assert IntToString(12) == "12";
    TrimKeepsTrimmed("12");
  }
}
