/**
 * The few JavaScript value rules the trail store and the trail editor rely on:
 * a JSON field that is a string, `null` or absent; truthiness of such a field
 * (`x || y`, `!x`); and `String.prototype.trim`.
 */
module JsText {

  datatype Option<+T> = None | Some(value: T)

  /** `!!x` for a string-or-null field: only a non-empty string is truthy. */
  predicate Truthy(x: Option<string>)
    ensures !Truthy(x) <==> x == None || x == Some("")
  {
    x.Some? && x.value != ""
  }

  /** `x || null`: keeps a non-empty string, turns "" and null into null. */
  function OrNull(x: Option<string>): (r: Option<string>)
    ensures r == None || r == x
    ensures r.Some? ==> r.value != ""
    ensures Truthy(x) <==> r.Some?
  {
    if Truthy(x) then x else None
  }

  /**
   * `x || fallback` for a string-or-null field and a string fallback: the
   * field when it is truthy, else the fallback. A non-empty fallback makes
   * the result non-empty whatever the field holds.
   */
  function OrElse(x: Option<string>, fallback: string): (r: string)
    ensures Truthy(x) ==> r == x.value
    ensures !Truthy(x) ==> r == fallback
    ensures r != "" <==> Truthy(x) || fallback != ""
  {
    if Truthy(x) then x.value else fallback
  }

  /**
   * The characters `trim` removes: ECMAScript's WhiteSpace (tab, vertical tab,
   * form feed, the space separators and the byte order mark) and LineTerminator.
   */
  predicate IsWhiteSpace(c: char) {
    || c == '\t' || c == '\n' || c == '\U{000B}' || c == '\U{000C}' || c == '\r'
    || c == ' ' || c == '\U{00A0}' || c == '\U{1680}'
    || ('\U{2000}' <= c <= '\U{200A}')
    || c == '\U{2028}' || c == '\U{2029}' || c == '\U{202F}' || c == '\U{205F}'
    || c == '\U{3000}' || c == '\U{FEFF}'
  }

  predicate AllWhiteSpace(s: string) {
    forall i :: 0 <= i < |s| ==> IsWhiteSpace(s[i])
  }

  /** Drops the leading white space: the result is the suffix of `s` that starts at its first other character. */
  function TrimStart(s: string): (r: string)
    ensures |r| <= |s| && r == s[|s| - |r|..]
    ensures r == [] || !IsWhiteSpace(r[0])
  {
    if s != [] && IsWhiteSpace(s[0]) then TrimStart(s[1..]) else s
  }

  /** Everything `TrimStart` drops is white space. */
  lemma {:induction false} TrimStartDropsWhiteSpace(s: string)
    ensures AllWhiteSpace(s[..|s| - |TrimStart(s)|])
  {
    if s != [] && IsWhiteSpace(s[0]) {
      TrimStartDropsWhiteSpace(s[1..]);
      var k := |s| - |TrimStart(s)|;
      forall i | 0 <= i < k ensures IsWhiteSpace(s[..k][i]) {
        if i > 0 {
          assert s[..k][i] == s[1..][..k - 1][i - 1];
        }
      }
    }
  }

  /** Drops the trailing white space: the result is the prefix of `s` that ends at its last other character. */
  function TrimEnd(s: string): (r: string)
    ensures |r| <= |s| && r == s[..|r|]
    ensures r == [] || !IsWhiteSpace(r[|r| - 1])
  {
    if s != [] && IsWhiteSpace(s[|s| - 1]) then TrimEnd(s[..|s| - 1]) else s
  }

  /** Everything `TrimEnd` drops is white space. */
  lemma {:induction false} TrimEndDropsWhiteSpace(s: string)
    ensures AllWhiteSpace(s[|TrimEnd(s)|..])
  {
    if s != [] && IsWhiteSpace(s[|s| - 1]) {
      var p := s[..|s| - 1];
      TrimEndDropsWhiteSpace(p);
      var k := |TrimEnd(s)|;
      forall i | k <= i < |s| ensures IsWhiteSpace(s[i]) {
        if i < |s| - 1 {
          assert p[k..][i - k] == s[i];
        }
      }
    }
  }

  lemma SuffixOfSuffix(s: string, a: nat, k: nat)
    requires a + k <= |s|
    ensures s[a..][k..] == s[a + k..]
  {
  }

  /**
   * `s.trim()`: white space removed at both ends. The result is never longer
   * than `s` and neither starts nor ends with white space.
   */
  function Trim(s: string): (r: string)
    ensures |r| <= |s|
    ensures r == [] || (!IsWhiteSpace(r[0]) && !IsWhiteSpace(r[|r| - 1]))
  {
    if s != [] && IsWhiteSpace(s[0]) then Trim(s[1..])
    else
      var r := TrimEnd(s);
      assert r == [] || r[0] == s[0];
      r
  }

  /** Trimming is cutting the leading white space, then the trailing white space. */
  lemma {:induction false} TrimIsStartThenEnd(s: string)
    ensures Trim(s) == TrimEnd(TrimStart(s))
  {
    if s != [] && IsWhiteSpace(s[0]) {
      TrimIsStartThenEnd(s[1..]);
    }
  }

  /** Cutting white space off the front, then off the back, leaves a slice with only white space cut at either end. */
  lemma CutBothEndsIsSlice(s: string, t: string, r: string)
    requires |t| <= |s| && t == s[|s| - |t|..] && AllWhiteSpace(s[..|s| - |t|])
    requires |r| <= |t| && r == t[..|r|] && AllWhiteSpace(t[|r|..])
    ensures exists a, b :: 0 <= a <= b <= |s| && r == s[a..b]
                           && AllWhiteSpace(s[..a]) && AllWhiteSpace(s[b..])
  {
    var a := |s| - |t|;
    var b := a + |r|;
    assert r == s[a..b];
    SuffixOfSuffix(s, a, |r|);
    assert s[b..] == t[|r|..];
  }

  /** The trimmed string is the slice `s[a..b]` left after cutting only white space off either end. */
  lemma TrimIsSlice(s: string)
    ensures exists a, b :: 0 <= a <= b <= |s| && Trim(s) == s[a..b]
                           && AllWhiteSpace(s[..a]) && AllWhiteSpace(s[b..])
  {
    var t := TrimStart(s);
    var r := Trim(s);
    TrimIsStartThenEnd(s);
    assert r == TrimEnd(t);
    TrimStartDropsWhiteSpace(s);
    TrimEndDropsWhiteSpace(t);
    CutBothEndsIsSlice(s, t, r);
  }

  /** `!s.trim()` holds exactly when `s` is empty or made only of white space. */
  lemma TrimEmptyIffBlank(s: string)
    ensures Trim(s) == [] <==> AllWhiteSpace(s)
  {
    TrimIsSlice(s);
    var r := Trim(s);
    var a, b :| 0 <= a <= b <= |s| && r == s[a..b] && AllWhiteSpace(s[..a]) && AllWhiteSpace(s[b..]);
    if r == [] {
      forall i | 0 <= i < |s| ensures IsWhiteSpace(s[i]) {
        if i < a { assert s[..a][i] == s[i]; } else { assert s[b..][i - b] == s[i]; }
      }
    } else {
      assert s[a] == r[0];
    }
  }

  /** The decimal digit character for `d`. */
  function DigitChar(d: nat): (c: char)
    requires d < 10
    ensures '0' <= c <= '9'
  {
    (48 + d) as char
  }

  /** `String(n)` for a non-negative integer: its decimal digits, no leading zero. */
  function NatText(n: nat): (s: string)
    ensures |s| >= 1
    ensures forall i :: 0 <= i < |s| ==> '0' <= s[i] <= '9'
    ensures |s| > 1 ==> s[0] != '0'
    decreases n
  {
    if n < 10 then [DigitChar(n)] else NatText(n / 10) + [DigitChar(n % 10)]
  }

  /** `Number(s)` for a string of decimal digits. */
  function ParseNat(s: string): (n: nat)
    requires forall i :: 0 <= i < |s| ==> '0' <= s[i] <= '9'
    ensures s != [] && s[0] != '0' ==> n > 0
    decreases |s|
  {
    if s == [] then 0 else ParseNat(s[..|s| - 1]) * 10 + (s[|s| - 1] as int - 48)
  }

  /** Reading back the digits `String(n)` writes gives `n`. */
  lemma {:induction false} NatTextRoundTrip(n: nat)
    ensures ParseNat(NatText(n)) == n
  {
    if n >= 10 {
      NatTextRoundTrip(n / 10);
      var s := NatText(n);
      assert s[..|s| - 1] == NatText(n / 10);
    }
  }
}
