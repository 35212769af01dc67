/**
 * The input masks of the registration pages: `handleCpfChange` (student page)
 * and `handleCnpjChange` (school page). Each strips every non-digit
 * (`replace(/\D/g, '')`), then, chosen by the number of digits left, applies
 * one regular expression anchored at both ends (`^...$`). An anchored pattern
 * only matches a digit string of exactly its own length, so the mask formats
 * at 6, 9 and 11 digits (CPF) or 5, 8, 12 and 14 digits (CNPJ) and returns
 * the bare digits at every other count.
 */
module DocumentMasks {

  /** `\d` in a regular expression without the `u` flag: an ASCII digit. */
  predicate IsDigit(c: char) {
    '0' <= c <= '9'
  }

  predicate AllDigits(s: string) {
    forall i :: 0 <= i < |s| ==> IsDigit(s[i])
  }

  /** `s.replace(/\D/g, '')`: the digits of `s`, in order. */
  function StripNonDigits(s: string): (d: string)
    ensures AllDigits(d)
    ensures |d| <= |s|
  {
    if s == [] then []
    else (if IsDigit(s[0]) then [s[0]] else []) + StripNonDigits(s[1..])
  }

  lemma {:induction false} StripAppend(a: string, b: string)
    ensures StripNonDigits(a + b) == StripNonDigits(a) + StripNonDigits(b)
  {
    if a == [] {
      assert a + b == b;
    } else {
      assert (a + b)[1..] == a[1..] + b;
      StripAppend(a[1..], b);
    }
  }

  lemma {:induction false} StripKeepsDigits(d: string)
    requires AllDigits(d)
    ensures StripNonDigits(d) == d
  {
    if d != [] {
      StripKeepsDigits(d[1..]);
    }
  }

  /** A separator the masks insert is not a digit, so stripping removes it and keeps both sides. */
  lemma StripAroundSeparator(x: string, c: char, y: string)
    requires !IsDigit(c)
    ensures StripNonDigits(x + [c] + y) == StripNonDigits(x) + StripNonDigits(y)
  {
    StripAppend(x + [c], y);
    StripAppend(x, [c]);
    assert [c][1..] == [];
    assert StripNonDigits([c]) == [];
    assert StripNonDigits(x + [c]) == StripNonDigits(x);
  }

  /** Stripping `x + [c] + b` for a separator `c` and a digit run `b` keeps what stripping `x` gives, then `b`. */
  lemma StripJoin(x: string, c: char, b: string)
    requires !IsDigit(c) && AllDigits(b)
    ensures StripNonDigits(x + [c] + b) == StripNonDigits(x) + b
  {
    StripAroundSeparator(x, c, b);
    StripKeepsDigits(b);
  }

  /** A digit string cut at `i`, a separator put in the cut: stripping gives the digits back. */
  lemma StripSplitOnce(d: string, i: nat, c: char)
    requires AllDigits(d) && i <= |d| && !IsDigit(c)
    ensures StripNonDigits(d[..i] + [c] + d[i..]) == d
  {
    StripJoin(d[..i], c, d[i..]);
    StripKeepsDigits(d[..i]);
    assert d[..i] + d[i..] == d;
  }

  lemma StripSplitTwice(d: string, i: nat, j: nat, c1: char, c2: char)
    requires AllDigits(d) && i <= j <= |d| && !IsDigit(c1) && !IsDigit(c2)
    ensures StripNonDigits(d[..i] + [c1] + d[i..j] + [c2] + d[j..]) == d
  {
    var p := d[..j];
    assert p[..i] == d[..i] && p[i..] == d[i..j];
    StripSplitOnce(p, i, c1);
    StripJoin(d[..i] + [c1] + d[i..j], c2, d[j..]);
    assert p + d[j..] == d;
  }

  lemma StripSplitThrice(d: string, i: nat, j: nat, k: nat, c1: char, c2: char, c3: char)
    requires AllDigits(d) && i <= j <= k <= |d| && !IsDigit(c1) && !IsDigit(c2) && !IsDigit(c3)
    ensures StripNonDigits(d[..i] + [c1] + d[i..j] + [c2] + d[j..k] + [c3] + d[k..]) == d
  {
    var p := d[..k];
    assert p[..i] == d[..i] && p[i..j] == d[i..j] && p[j..] == d[j..k];
    StripSplitTwice(p, i, j, c1, c2);
    StripJoin(d[..i] + [c1] + d[i..j] + [c2] + d[j..k], c3, d[k..]);
    assert p + d[k..] == d;
  }

  lemma StripSplitFourTimes(d: string, i: nat, j: nat, k: nat, l: nat, c1: char, c2: char, c3: char, c4: char)
    requires AllDigits(d) && i <= j <= k <= l <= |d|
    requires !IsDigit(c1) && !IsDigit(c2) && !IsDigit(c3) && !IsDigit(c4)
    ensures StripNonDigits(d[..i] + [c1] + d[i..j] + [c2] + d[j..k] + [c3] + d[k..l] + [c4] + d[l..]) == d
  {
    var p := d[..l];
    assert p[..i] == d[..i] && p[i..j] == d[i..j] && p[j..k] == d[j..k] && p[k..] == d[k..l];
    StripSplitThrice(p, i, j, k, c1, c2, c3);
    StripJoin(d[..i] + [c1] + d[i..j] + [c2] + d[j..k] + [c3] + d[k..l], c4, d[l..]);
    assert p + d[l..] == d;
  }

  // ---------------------------------------------------------------- CPF

  /** `value.replace(/^(\d{3})(\d{3})(\d{3})(\d{2})$/, '$1.$2.$3-$4')` */
  function CpfFull(value: string): (r: string)
    ensures r != value <==> |value| == 11 && AllDigits(value)
    ensures r != value ==> |r| == 14 && r[3] == '.' && r[7] == '.' && r[11] == '-'
  {
    if |value| == 11 && AllDigits(value)
    then value[..3] + "." + value[3..6] + "." + value[6..9] + "-" + value[9..]
    else value
  }

  /** `value.replace(/^(\d{3})(\d{3})(\d{3})$/, '$1.$2.$3')` */
  function CpfNine(value: string): (r: string)
    ensures r != value <==> |value| == 9 && AllDigits(value)
    ensures r != value ==> |r| == 11 && r[3] == '.' && r[7] == '.'
  {
    if |value| == 9 && AllDigits(value)
    then value[..3] + "." + value[3..6] + "." + value[6..]
    else value
  }

  /** `value.replace(/^(\d{3})(\d{3})$/, '$1.$2')` */
  function CpfSix(value: string): (r: string)
    ensures r != value <==> |value| == 6 && AllDigits(value)
    ensures r != value ==> |r| == 7 && r[3] == '.'
  {
    if |value| == 6 && AllDigits(value)
    then value[..3] + "." + value[3..]
    else value
  }

  /** Each CPF replacement keeps the digits of the value it formats. */
  lemma CpfFullKeepsDigits(value: string)
    requires AllDigits(value)
    ensures StripNonDigits(CpfFull(value)) == value
  {
    if CpfFull(value) != value {
      StripSplitThrice(value, 3, 6, 9, '.', '.', '-');
    } else {
      StripKeepsDigits(value);
    }
  }

  lemma CpfNineKeepsDigits(value: string)
    requires AllDigits(value)
    ensures StripNonDigits(CpfNine(value)) == value
  {
    if CpfNine(value) != value {
      StripSplitTwice(value, 3, 6, '.', '.');
    } else {
      StripKeepsDigits(value);
    }
  }

  lemma CpfSixKeepsDigits(value: string)
    requires AllDigits(value)
    ensures StripNonDigits(CpfSix(value)) == value
  {
    if CpfSix(value) != value {
      StripSplitOnce(value, 3, '.');
    } else {
      StripKeepsDigits(value);
    }
  }

  /**
   * The value `handleCpfChange` passes to `setCpf` for the text typed in the
   * field: formatted exactly at the digit counts an anchored pattern accepts.
   */
  function MaskCpf(input: string): (r: string)
    ensures var d := StripNonDigits(input);
            r != d <==> |d| == 6 || |d| == 9 || |d| == 11
  {
    var value := StripNonDigits(input);
    if |value| > 9 then CpfFull(value)
    else if |value| > 6 then CpfNine(value)
    else if |value| > 3 then CpfSix(value)
    else value
  }

  /** The formatted shape of a CPF: `DDD.DDD.DDD-DD`, fourteen characters, the field's `maxLength`. */
  lemma CpfFormatsEleven(input: string)
    requires |StripNonDigits(input)| == 11
    ensures var d := StripNonDigits(input);
            MaskCpf(input) == d[..3] + "." + d[3..6] + "." + d[6..9] + "-" + d[9..]
    ensures |MaskCpf(input)| == 14
  {
  }

  lemma CpfFormatsNineAndSix(input: string)
    ensures var d := StripNonDigits(input);
            |d| == 9 ==> MaskCpf(input) == d[..3] + "." + d[3..6] + "." + d[6..]
    ensures var d := StripNonDigits(input);
            |d| == 6 ==> MaskCpf(input) == d[..3] + "." + d[3..]
  {
  }

  /** The anchored patterns match no other digit count: the mask then returns the bare digits. */
  lemma CpfBareOtherwise(input: string)
    requires |StripNonDigits(input)| != 6 && |StripNonDigits(input)| != 9 && |StripNonDigits(input)| != 11
    ensures MaskCpf(input) == StripNonDigits(input)
  {
  }

  /** The digits of the masked value are exactly the digits typed, in order. */
  lemma CpfKeepsDigits(input: string)
    ensures StripNonDigits(MaskCpf(input)) == StripNonDigits(input)
  {
    var d := StripNonDigits(input);
    CpfFullKeepsDigits(d); CpfNineKeepsDigits(d); CpfSixKeepsDigits(d); StripKeepsDigits(d);
  }

  /** Typing into an already masked field and masking again changes nothing. */
  lemma CpfIdempotent(input: string)
    ensures MaskCpf(MaskCpf(input)) == MaskCpf(input)
  {
    CpfKeepsDigits(input);
  }

  /** The masked value holds only digits, `.` and `-`. */
  lemma CpfAlphabet(input: string)
    ensures forall c :: c in MaskCpf(input) ==> IsDigit(c) || c == '.' || c == '-'
  {
  }

  /** What the field accepts (at most `maxLength` = 14 characters) masks to at most 14 characters. */
  lemma CpfFitsField(input: string)
    requires |input| <= 14
    ensures |MaskCpf(input)| <= 14
  {
  }

  /**
   * The patterns are anchored and exact, so the mask undoes its own dot
   * while the user types: once six digits show as `DDD.DDD`, typing a seventh
   * digit leaves the field holding the seven bare digits (`123.456`, then
   * `7`, gives `1234567`).
   */
  lemma CpfTypingDropsDots(d: string, x: char)
    requires AllDigits(d) && |d| == 6 && IsDigit(x)
    ensures MaskCpf(d) == d[..3] + "." + d[3..]
    ensures MaskCpf(d[..3] + "." + d[3..] + [x]) == d + [x]
  {
    StripKeepsDigits(d);
    StripSplitOnce(d, 3, '.');
    StripAppendDigit(d[..3] + "." + d[3..], x);
  }

  /** The separator shown in front of the digit typed at 0-based position `n` of a CPF. */
  function CpfSeparatorBefore(n: nat): string {
    if n == 3 || n == 6 then "." else if n == 9 then "-" else ""
  }

  /**
   * The grouping the CPF branches evidently mean, with the last group of each
   * pattern allowed to be partial (`\d{1,2}`, `\d{1,3}`): up to 11 digits are
   * grouped as far as they go; more digits match no pattern and stay bare.
   */
  function CpfGroups(d: string): string {
    if |d| > 11 then d
    else if |d| > 9 then d[..3] + "." + d[3..6] + "." + d[6..9] + "-" + d[9..]
    else if |d| > 6 then d[..3] + "." + d[3..6] + "." + d[6..]
    else if |d| > 3 then d[..3] + "." + d[3..]
    else d
  }

  /** The CPF mask as evidently intended: strip, then group. */
  function MaskCpfTyped(input: string): string {
    CpfGroups(StripNonDigits(input))
  }

  lemma CpfGroupsAppendLast(d: string, x: char)
    requires 9 <= |d| < 11
    ensures CpfGroups(d + [x]) == CpfGroups(d) + CpfSeparatorBefore(|d|) + [x]
  {
    var e := d + [x];
    assert e[..3] == d[..3] && e[3..6] == d[3..6] && e[6..9] == d[6..9];
    if |d| == 9 {
      assert e[9..] == [x];
      assert d[6..] == d[6..9];
    } else {
      assert e[9..] == d[9..] + [x];
    }
  }

  lemma CpfGroupsAppendMiddle(d: string, x: char)
    requires 6 <= |d| < 9
    ensures CpfGroups(d + [x]) == CpfGroups(d) + CpfSeparatorBefore(|d|) + [x]
  {
    var e := d + [x];
    assert e[..3] == d[..3] && e[3..6] == d[3..6];
    if |d| == 6 {
      assert e[6..] == [x];
      assert d[3..] == d[3..6];
    } else {
      assert e[6..] == d[6..] + [x];
    }
  }

  lemma CpfGroupsAppendFirst(d: string, x: char)
    requires |d| < 6
    ensures CpfGroups(d + [x]) == CpfGroups(d) + CpfSeparatorBefore(|d|) + [x]
  {
    var e := d + [x];
    if |d| == 3 {
      assert e[..3] == d && e[3..] == [x];
    } else if |d| > 3 {
      assert e[..3] == d[..3] && e[3..] == d[3..] + [x];
    }
  }

  lemma CpfGroupsAppend(d: string, x: char)
    requires |d| < 11
    ensures CpfGroups(d + [x]) == CpfGroups(d) + CpfSeparatorBefore(|d|) + [x]
  {
    if |d| >= 9 {
      CpfGroupsAppendLast(d, x);
    } else if |d| >= 6 {
      CpfGroupsAppendMiddle(d, x);
    } else {
      CpfGroupsAppendFirst(d, x);
    }
  }

  /** A digit typed at the end of the field is a digit appended to the stripped value. */
  lemma StripAppendDigit(input: string, x: char)
    requires IsDigit(x)
    ensures StripNonDigits(input + [x]) == StripNonDigits(input) + [x]
  {
    StripAppend(input, [x]);
    assert StripNonDigits([x]) == [x] + StripNonDigits([]);
  }

  /** Typing one more digit of a CPF appends it to what the field shows, after the separator its group starts with. */
  lemma CpfTypedAppends(input: string, x: char)
    requires IsDigit(x) && |StripNonDigits(input)| < 11
    ensures MaskCpfTyped(input + [x]) == MaskCpfTyped(input) + CpfSeparatorBefore(|StripNonDigits(input)|) + [x]
  {
    StripAppendDigit(input, x);
    CpfGroupsAppend(StripNonDigits(input), x);
  }

  /** Where the exact patterns match, and below four digits, the intended mask shows what the code shows. */
  lemma CpfTypedAgrees(input: string)
    requires var n := |StripNonDigits(input)|; n <= 3 || n == 6 || n == 9 || n == 11
    ensures MaskCpfTyped(input) == MaskCpf(input)
  {
  }

  /** Stripping a grouped value whose groups are digit runs gives the digits back. */
  lemma CpfGroupsKeepsDigits(d: string)
    requires AllDigits(d)
    ensures StripNonDigits(CpfGroups(d)) == d
  {
    if |d| > 11 || |d| <= 3 {
      StripKeepsDigits(d);
    } else if |d| > 9 {
      StripSplitThrice(d, 3, 6, 9, '.', '.', '-');
    } else if |d| > 6 {
      StripSplitTwice(d, 3, 6, '.', '.');
    } else {
      StripSplitOnce(d, 3, '.');
    }
  }

  /** The intended mask also keeps exactly the digits typed. */
  lemma CpfTypedKeepsDigits(input: string)
    ensures StripNonDigits(MaskCpfTyped(input)) == StripNonDigits(input)
  {
    CpfGroupsKeepsDigits(StripNonDigits(input));
  }

  // ---------------------------------------------------------------- CNPJ

  /** `value.replace(/^(\d{2})(\d{3})(\d{3})(\d{4})(\d{2})$/, '$1.$2.$3/$4-$5')` */
  function CnpjFull(value: string): (r: string)
    ensures r != value <==> |value| == 14 && AllDigits(value)
    ensures r != value ==> |r| == 18 && r[2] == '.' && r[6] == '.' && r[10] == '/' && r[15] == '-'
  {
    if |value| == 14 && AllDigits(value)
    then value[..2] + "." + value[2..5] + "." + value[5..8] + "/" + value[8..12] + "-" + value[12..]
    else value
  }

  /** `value.replace(/^(\d{2})(\d{3})(\d{3})(\d{4})$/, '$1.$2.$3/$4')` */
  function CnpjTwelve(value: string): (r: string)
    ensures r != value <==> |value| == 12 && AllDigits(value)
    ensures r != value ==> |r| == 15 && r[2] == '.' && r[6] == '.' && r[10] == '/'
  {
    if |value| == 12 && AllDigits(value)
    then value[..2] + "." + value[2..5] + "." + value[5..8] + "/" + value[8..]
    else value
  }

  /** `value.replace(/^(\d{2})(\d{3})(\d{3})$/, '$1.$2.$3')` */
  function CnpjEight(value: string): (r: string)
    ensures r != value <==> |value| == 8 && AllDigits(value)
    ensures r != value ==> |r| == 10 && r[2] == '.' && r[6] == '.'
  {
    if |value| == 8 && AllDigits(value)
    then value[..2] + "." + value[2..5] + "." + value[5..]
    else value
  }

  /** `value.replace(/^(\d{2})(\d{3})$/, '$1.$2')` */
  function CnpjFive(value: string): (r: string)
    ensures r != value <==> |value| == 5 && AllDigits(value)
    ensures r != value ==> |r| == 6 && r[2] == '.'
  {
    if |value| == 5 && AllDigits(value)
    then value[..2] + "." + value[2..]
    else value
  }

  /** Each CNPJ replacement keeps the digits of the value it formats. */
  lemma CnpjFullKeepsDigits(value: string)
    requires AllDigits(value)
    ensures StripNonDigits(CnpjFull(value)) == value
  {
    if CnpjFull(value) != value {
      StripSplitFourTimes(value, 2, 5, 8, 12, '.', '.', '/', '-');
    } else {
      StripKeepsDigits(value);
    }
  }

  lemma CnpjTwelveKeepsDigits(value: string)
    requires AllDigits(value)
    ensures StripNonDigits(CnpjTwelve(value)) == value
  {
    if CnpjTwelve(value) != value {
      StripSplitThrice(value, 2, 5, 8, '.', '.', '/');
    } else {
      StripKeepsDigits(value);
    }
  }

  lemma CnpjEightKeepsDigits(value: string)
    requires AllDigits(value)
    ensures StripNonDigits(CnpjEight(value)) == value
  {
    if CnpjEight(value) != value {
      StripSplitTwice(value, 2, 5, '.', '.');
    } else {
      StripKeepsDigits(value);
    }
  }

  lemma CnpjFiveKeepsDigits(value: string)
    requires AllDigits(value)
    ensures StripNonDigits(CnpjFive(value)) == value
  {
    if CnpjFive(value) != value {
      StripSplitOnce(value, 2, '.');
    } else {
      StripKeepsDigits(value);
    }
  }

  /**
   * The value `handleCnpjChange` passes to `setCnpj` for the text typed in the
   * field: formatted exactly at the digit counts an anchored pattern accepts.
   */
  function MaskCnpj(input: string): (r: string)
    ensures var d := StripNonDigits(input);
            r != d <==> |d| == 5 || |d| == 8 || |d| == 12 || |d| == 14
  {
    var value := StripNonDigits(input);
    if |value| > 12 then CnpjFull(value)
    else if |value| > 8 then CnpjTwelve(value)
    else if |value| > 5 then CnpjEight(value)
    else if |value| > 2 then CnpjFive(value)
    else value
  }

  /** The formatted shape of a CNPJ: `DD.DDD.DDD/DDDD-DD`, eighteen characters, the field's `maxLength`. */
  lemma CnpjFormatsFourteen(input: string)
    requires |StripNonDigits(input)| == 14
    ensures var d := StripNonDigits(input);
            MaskCnpj(input) == d[..2] + "." + d[2..5] + "." + d[5..8] + "/" + d[8..12] + "-" + d[12..]
    ensures |MaskCnpj(input)| == 18
  {
  }

  lemma CnpjFormatsTwelve(input: string)
    requires |StripNonDigits(input)| == 12
    ensures var d := StripNonDigits(input);
            MaskCnpj(input) == d[..2] + "." + d[2..5] + "." + d[5..8] + "/" + d[8..]
  {
  }

  lemma CnpjFormatsEightAndFive(input: string)
    ensures var d := StripNonDigits(input);
            |d| == 8 ==> MaskCnpj(input) == d[..2] + "." + d[2..5] + "." + d[5..]
    ensures var d := StripNonDigits(input);
            |d| == 5 ==> MaskCnpj(input) == d[..2] + "." + d[2..]
  {
  }

  /** The anchored patterns match no other digit count: the mask then returns the bare digits. */
  lemma CnpjBareOtherwise(input: string)
    requires var n := |StripNonDigits(input)|; n != 5 && n != 8 && n != 12 && n != 14
    ensures MaskCnpj(input) == StripNonDigits(input)
  {
  }

  /** The digits of the masked value are exactly the digits typed, in order. */
  lemma CnpjKeepsDigits(input: string)
    ensures StripNonDigits(MaskCnpj(input)) == StripNonDigits(input)
  {
    var d := StripNonDigits(input);
    CnpjFullKeepsDigits(d); CnpjTwelveKeepsDigits(d); CnpjEightKeepsDigits(d); CnpjFiveKeepsDigits(d);
    StripKeepsDigits(d);
  }

  /** Masking an already masked value changes nothing. */
  lemma CnpjIdempotent(input: string)
    ensures MaskCnpj(MaskCnpj(input)) == MaskCnpj(input)
  {
    CnpjKeepsDigits(input);
  }

  /** The masked value holds only digits, `.`, `/` and `-`. */
  lemma CnpjAlphabet(input: string)
    ensures forall c :: c in MaskCnpj(input) ==> IsDigit(c) || c == '.' || c == '/' || c == '-'
  {
  }

  /** What the field accepts (at most `maxLength` = 18 characters) masks to at most 18 characters. */
  lemma CnpjFitsField(input: string)
    requires |input| <= 18
    ensures |MaskCnpj(input)| <= 18
  {
  }

  /**
   * As with the CPF: once five digits show as `DD.DDD`, typing a sixth digit
   * leaves the six bare digits (`12.345`, then `6`, gives `123456`).
   */
  lemma CnpjTypingDropsDots(d: string, x: char)
    requires AllDigits(d) && |d| == 5 && IsDigit(x)
    ensures MaskCnpj(d) == d[..2] + "." + d[2..]
    ensures MaskCnpj(d[..2] + "." + d[2..] + [x]) == d + [x]
  {
    StripKeepsDigits(d);
    StripSplitOnce(d, 2, '.');
    StripAppendDigit(d[..2] + "." + d[2..], x);
  }

  /** The separator shown in front of the digit typed at 0-based position `n` of a CNPJ. */
  function CnpjSeparatorBefore(n: nat): string {
    if n == 2 || n == 5 then "." else if n == 8 then "/" else if n == 12 then "-" else ""
  }

  /**
   * The grouping the CNPJ branches evidently mean, the last group of each
   * pattern allowed to be partial: up to 14 digits are grouped as far as they
   * go; more digits match no pattern and stay bare.
   */
  function CnpjGroups(d: string): string {
    if |d| > 14 then d
    else if |d| > 12 then d[..2] + "." + d[2..5] + "." + d[5..8] + "/" + d[8..12] + "-" + d[12..]
    else if |d| > 8 then d[..2] + "." + d[2..5] + "." + d[5..8] + "/" + d[8..]
    else if |d| > 5 then d[..2] + "." + d[2..5] + "." + d[5..]
    else if |d| > 2 then d[..2] + "." + d[2..]
    else d
  }

  /** The CNPJ mask as evidently intended: strip, then group. */
  function MaskCnpjTyped(input: string): string {
    CnpjGroups(StripNonDigits(input))
  }

  lemma CnpjGroupsAppendLast(d: string, x: char)
    requires 12 <= |d| < 14
    ensures CnpjGroups(d + [x]) == CnpjGroups(d) + CnpjSeparatorBefore(|d|) + [x]
  {
    var e := d + [x];
    assert e[..2] == d[..2] && e[2..5] == d[2..5] && e[5..8] == d[5..8] && e[8..12] == d[8..12];
    if |d| == 12 {
      assert e[12..] == [x];
      assert d[8..] == d[8..12];
    } else {
      assert e[12..] == d[12..] + [x];
    }
  }

  lemma CnpjGroupsAppendThird(d: string, x: char)
    requires 8 <= |d| < 12
    ensures CnpjGroups(d + [x]) == CnpjGroups(d) + CnpjSeparatorBefore(|d|) + [x]
  {
    var e := d + [x];
    assert e[..2] == d[..2] && e[2..5] == d[2..5] && e[5..8] == d[5..8];
    if |d| == 8 {
      assert e[8..] == [x];
      assert d[5..] == d[5..8];
    } else {
      assert e[8..] == d[8..] + [x];
    }
  }

  lemma CnpjGroupsAppendSecond(d: string, x: char)
    requires 5 <= |d| < 8
    ensures CnpjGroups(d + [x]) == CnpjGroups(d) + CnpjSeparatorBefore(|d|) + [x]
  {
    var e := d + [x];
    assert e[..2] == d[..2] && e[2..5] == d[2..5];
    if |d| == 5 {
      assert e[5..] == [x];
      assert d[2..] == d[2..5];
    } else {
      assert e[5..] == d[5..] + [x];
    }
  }

  lemma CnpjGroupsAppendFirst(d: string, x: char)
    requires |d| < 5
    ensures CnpjGroups(d + [x]) == CnpjGroups(d) + CnpjSeparatorBefore(|d|) + [x]
  {
    var e := d + [x];
    if |d| == 2 {
      assert e[..2] == d && e[2..] == [x];
    } else if |d| > 2 {
      assert e[..2] == d[..2] && e[2..] == d[2..] + [x];
    }
  }

  lemma CnpjGroupsAppend(d: string, x: char)
    requires |d| < 14
    ensures CnpjGroups(d + [x]) == CnpjGroups(d) + CnpjSeparatorBefore(|d|) + [x]
  {
    if |d| >= 12 {
      CnpjGroupsAppendLast(d, x);
    } else if |d| >= 8 {
      CnpjGroupsAppendThird(d, x);
    } else if |d| >= 5 {
      CnpjGroupsAppendSecond(d, x);
    } else {
      CnpjGroupsAppendFirst(d, x);
    }
  }

  /** Typing one more digit of a CNPJ appends it to what the field shows, after the separator its group starts with. */
  lemma CnpjTypedAppends(input: string, x: char)
    requires IsDigit(x) && |StripNonDigits(input)| < 14
    ensures MaskCnpjTyped(input + [x]) == MaskCnpjTyped(input) + CnpjSeparatorBefore(|StripNonDigits(input)|) + [x]
  {
    StripAppendDigit(input, x);
    CnpjGroupsAppend(StripNonDigits(input), x);
  }

  /** Where the exact patterns match, and below three digits, the intended mask shows what the code shows. */
  lemma CnpjTypedAgrees(input: string)
    requires var n := |StripNonDigits(input)|; n <= 2 || n == 5 || n == 8 || n == 12 || n == 14
    ensures MaskCnpjTyped(input) == MaskCnpj(input)
  {
  }

  /** Stripping a grouped value whose groups are digit runs gives the digits back. */
  lemma CnpjGroupsKeepsDigits(d: string)
    requires AllDigits(d)
    ensures StripNonDigits(CnpjGroups(d)) == d
  {
    if |d| > 14 || |d| <= 2 {
      StripKeepsDigits(d);
    } else if |d| > 12 {
      StripSplitFourTimes(d, 2, 5, 8, 12, '.', '.', '/', '-');
    } else if |d| > 8 {
      StripSplitThrice(d, 2, 5, 8, '.', '.', '/');
    } else if |d| > 5 {
      StripSplitTwice(d, 2, 5, '.', '.');
    } else {
      StripSplitOnce(d, 2, '.');
    }
  }

  /** The intended mask also keeps exactly the digits typed. */
  lemma CnpjTypedKeepsDigits(input: string)
    ensures StripNonDigits(MaskCnpjTyped(input)) == StripNonDigits(input)
  {
    CnpjGroupsKeepsDigits(StripNonDigits(input));
  }
}
