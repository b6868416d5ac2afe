/** set_code of ResponseParser: strtol on at most three characters. */
module StatusCode {
  import opened HttpSyntax

  /** What a C string ends at. */
  function CString(s: string): (t: string)
    ensures |t| <= |s|
  {
    if s == "" || s[0] == '\0' then "" else [s[0]] + CString(s[1..])
  }

  predicate IsBlank(c: char) { c == ' ' || '\t' <= c <= '\r' }

  function SkipBlanks(s: string): (t: string)
    ensures |t| <= |s|
  {
    if s != "" && IsBlank(s[0]) then SkipBlanks(s[1..]) else s
  }

  /** The number that the leading digits of s continue, and what follows them. */
  function ReadDigits(s: string, n: int): (int, string)
    decreases |s|
  {
    if s != "" && IsDigit(s[0]) then ReadDigits(s[1..], 10 * n + (s[0] as int - 48)) else (n, s)
  }

  datatype Number = Number(value: int, toEnd: bool)

  /** strtol in base 10; toEnd says that endptr stands at the end of the string. */
  function Strtol(s: string): Number {
    var t := SkipBlanks(CString(s));
    var minus := t != "" && t[0] == '-';
    var u := if t != "" && (t[0] == '-' || t[0] == '+') then t[1..] else t;
    if u == "" || !IsDigit(u[0]) then Number(0, CString(s) == "")
    else
      var (n, rest) := ReadDigits(u, 0);
      Number(if minus then -n else n, rest == "")
  }

  predicate Accepted(s: string) { Strtol(s).toEnd && 100 <= Strtol(s).value < 600 }

  function Power10(k: nat): nat { if k == 0 then 1 else 10 * Power10(k - 1) }

  lemma {:induction false} ReadDigitsBounded(s: string, n: nat)
    ensures 0 <= ReadDigits(s, n).0 < (n + 1) * Power10(|s|)
    decreases |s|
  {
    if s != "" && IsDigit(s[0]) {
      var d := s[0] as int - 48;
      ReadDigitsBounded(s[1..], 10 * n + d);
      NextDigit(n, d, Power10(|s| - 1));
    } else {
      PowerIsPositive(|s|);
      AtLeastOnce(n, Power10(|s|));
    }
  }

  lemma NextDigit(n: nat, d: nat, q: nat)
    requires d <= 9
    ensures (10 * n + d + 1) * q <= (n + 1) * (10 * q)
  {
    Scales(10 * n + d + 1, 10 * (n + 1), q);
    TimesTen(n + 1, q);
  }

  lemma TimesTen(m: nat, q: nat)
    ensures 10 * m * q == m * (10 * q)
  {
  }

  lemma AtLeastOnce(n: nat, p: nat)
    requires p >= 1
    ensures n < (n + 1) * p
  {
    Scales(1, p, n + 1);
  }

  lemma Scales(a: int, b: int, q: nat)
    requires a <= b
    ensures a * q <= b * q
  {
  }

  lemma {:induction false} PowerIsPositive(k: nat)
    ensures Power10(k) >= 1
  {
    if k > 0 {
      PowerIsPositive(k - 1);
    }
  }

  lemma Hundred()
    ensures Power10(0) == 1 && Power10(1) == 10 && Power10(2) == 100
  {
  }

  /** Fewer than three characters left for the digits: the number is below 100. */
  lemma ShortNumber(u: string)
    requires |u| <= 2
    ensures 0 <= ReadDigits(u, 0).0 < 100
  {
    Hundred();
    ReadDigitsBounded(u, 0);
  }

  lemma ThreeDigits(s: string)
    requires |s| == 3 && IsDigit(s[0])
    ensures ReadDigits(s, 0).1 == "" <==> IsDigit(s[1]) && IsDigit(s[2])
    ensures IsDigit(s[1]) && IsDigit(s[2]) ==>
              ReadDigits(s, 0).0 == (s[0] as int - 48) * 100 + (s[1] as int - 48) * 10 + (s[2] as int - 48)
  {
    var a, t := s[0] as int - 48, s[1..];
    assert t[0] == s[1] && t[1..][0] == s[2];
    assert ReadDigits(s, 0) == ReadDigits(t, a);
    if IsDigit(s[1]) {
      var b, u := 10 * a + (s[1] as int - 48), t[1..];
      assert ReadDigits(t, a) == ReadDigits(u, b);
      if IsDigit(s[2]) {
        assert u[1..] == "";
        assert ReadDigits(u, b) == ReadDigits("", 10 * b + (s[2] as int - 48));
      }
    }
  }

  lemma WholeCString(s: string)
    requires |s| == 3 && |CString(s)| == 3
    ensures CString(s) == s
  {
    var t, u := s[1..], s[2..];
    assert t[1..] == u && |CString(t)| == 2 && |CString(u)| == 1;
    assert u == [s[2]] && CString(u) == [s[2]] + CString(u[1..]);
    assert CString(s) == [s[0]] + ([s[1]] + CString(u));
  }

  /** Of the at most three characters that reach set_code, blanks, signs, NULs and letters are
      all refused: a code is accepted if and only if it is three digits from 100 to 599. */
  lemma AcceptedExactly(s: string)
    requires |s| <= 3
    ensures Accepted(s) <==> IsStatus(s)
    ensures Accepted(s) ==> Strtol(s).value == StatusOf(s)
  {
    hide CString, SkipBlanks, ReadDigits;
    var c := CString(s);
    var t := SkipBlanks(c);
    var signed := t != "" && (t[0] == '-' || t[0] == '+');
    var u := if signed then t[1..] else t;
    if |u| <= 2 {
      ShortNumber(u);
      if IsStatus(s) {
        StatusIsPlain(s);
      }
    } else {
      WholeCString(s);
      NoBlanks(c);
      if IsDigit(s[0]) {
        ThreeDigits(s);
      }
    }
  }

  lemma NoBlanks(c: string)
    requires |SkipBlanks(c)| == |c|
    ensures SkipBlanks(c) == c
  {
  }

  lemma StatusIsPlain(s: string)
    requires IsStatus(s)
    ensures CString(s) == s && SkipBlanks(CString(s)) == s
  {
    var t, u := s[1..], s[2..];
    assert t[1..] == u && u[1..] == "" && t[0] == s[1] && u[0] == s[2];
    assert CString(u) == [s[2]] && CString(t) == [s[1]] + CString(u) && CString(s) == [s[0]] + CString(t);
  }

  // ----- codes as decimal numbers --------------------------------------------------------------------

  function Decimal(n: nat): string
    requires 100 <= n < 1000
  {
    ['0' + (n / 100) as char, '0' + (n / 10 % 10) as char, '0' + (n % 10) as char]
  }

  /** The strings that are accepted are the decimal numbers from 100 to 599, with these as their codes. */
  lemma StatusExactly(s: string)
    ensures IsStatus(s) <==> exists n :: 100 <= n < 600 && s == Decimal(n)
    ensures IsStatus(s) ==> 100 <= StatusOf(s) < 600 && s == Decimal(StatusOf(s))
  {
    if IsStatus(s) {
      var a, b, c := s[0] as int - 48, s[1] as int - 48, s[2] as int - 48;
      DecimalDigits(a, b, c);
      var n := a * 100 + b * 10 + c;
      assert 100 <= n < 600 && n == StatusOf(s);
      assert s == [s[0], s[1], s[2]] && s == Decimal(n);
    }
    forall n | 100 <= n < 600 && s == Decimal(n)
      ensures IsStatus(s)
    {
      DecimalIsStatus(n);
    }
  }

  lemma DecimalIsStatus(n: nat)
    requires 100 <= n < 600
    ensures IsStatus(Decimal(n))
  {
    HundredsOf(n);
    var d := Decimal(n);
    assert '1' <= d[0] <= '5' && '0' <= d[1] <= '9' && '0' <= d[2] <= '9';
  }

  lemma DecimalDigits(a: nat, b: nat, c: nat)
    requires a < 10 && b < 10 && c < 10
    ensures var n := a * 100 + b * 10 + c; n / 100 == a && n / 10 % 10 == b && n % 10 == c
  {
  }

  lemma HundredsOf(n: nat)
    requires 100 <= n < 600
    ensures 1 <= n / 100 <= 5
  {
  }
}
