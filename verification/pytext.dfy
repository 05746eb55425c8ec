/**
 * The few pieces of Python string semantics the program relies on:
 * `str.strip()`, `str.split()` (no separator), `" ".join`, `str.lower()`,
 * `str.endswith`, `str.split(":")[0]`, `int(s)` and `str(n)`.
 */
module PyText {
  import opened Common

  /** The characters for which Python's `str.isspace()` holds; `split()` and `strip()` use them. */
  predicate IsSpace(c: char) {
    || c == ' '
    || ('\t' <= c <= '\r')
    || ('\U{1C}' <= c <= '\U{1F}')
    || c == '\U{85}' || c == '\U{A0}' || c == '\U{1680}'
    || ('\U{2000}' <= c <= '\U{200A}')
    || c == '\U{2028}' || c == '\U{2029}' || c == '\U{202F}' || c == '\U{205F}' || c == '\U{3000}'
  }

  /** A token of `str.split()`: non-empty and free of whitespace. */
  predicate IsWord(s: string) {
    |s| > 0 && forall i :: 0 <= i < |s| ==> !IsSpace(s[i])
  }

  function LStrip(s: string): (r: string)
    ensures |r| <= |s|
    ensures |r| > 0 ==> !IsSpace(r[0])
    decreases |s|
  {
    if |s| > 0 && IsSpace(s[0]) then LStrip(s[1..]) else s
  }

  function RStrip(s: string): (r: string)
    ensures |r| <= |s|
    ensures |r| > 0 ==> !IsSpace(r[|r| - 1])
    decreases |s|
  {
    if |s| > 0 && IsSpace(s[|s| - 1]) then RStrip(s[..|s| - 1]) else s
  }

  /** `s.strip()`. */
  function Strip(s: string): string {
    RStrip(LStrip(s))
  }

  /** Length of the leading run of non-whitespace characters. */
  function WordLen(s: string): (n: nat)
    ensures n <= |s|
    ensures forall i :: 0 <= i < n ==> !IsSpace(s[i])
    ensures n < |s| ==> IsSpace(s[n])
    decreases |s|
  {
    if |s| == 0 || IsSpace(s[0]) then 0 else 1 + WordLen(s[1..])
  }

  /** `s.split()`: the maximal runs of non-whitespace characters, in order. */
  function Split(s: string): (r: seq<string>)
    ensures forall i :: 0 <= i < |r| ==> IsWord(r[i])
    decreases |s|
  {
    var t := LStrip(s);
    if |t| == 0 then []
    else
      var n := WordLen(t);
      assert n > 0 by {
        assert !IsSpace(t[0]);
      }
      var w := t[..n];
      assert IsWord(w) by {
        forall i | 0 <= i < |w|
          ensures !IsSpace(w[i])
        {
          assert w[i] == t[i];
        }
      }
      var rest := Split(t[n..]);
      WordsCons(w, rest);
      [w] + rest
  }

  lemma WordsCons(w: string, ws: seq<string>)
    requires IsWord(w) && forall i :: 0 <= i < |ws| ==> IsWord(ws[i])
    ensures forall i :: 0 <= i < |ws| + 1 ==> IsWord(([w] + ws)[i])
  {
    forall i | 0 <= i < |ws| + 1
      ensures IsWord(([w] + ws)[i])
    {
      if i > 0 {
        assert ([w] + ws)[i] == ws[i - 1];
      }
    }
  }

  /** `" ".join(ts)`. */
  function Join(ts: seq<string>): string
    decreases |ts|
  {
    if |ts| == 0 then ""
    else if |ts| == 1 then ts[0]
    else ts[0] + " " + Join(ts[1..])
  }

  function LowerChar(c: char): char {
    if 'A' <= c <= 'Z' then (c as int + 32) as char else c
  }

  /** `s.lower()` on the ASCII letters. */
  function Lower(s: string): (r: string)
    ensures |r| == |s|
    ensures forall i :: 0 <= i < |s| ==> r[i] == LowerChar(s[i])
  {
    seq(|s|, i requires 0 <= i < |s| => LowerChar(s[i]))
  }

  predicate EndsWith(s: string, suffix: string) {
    |suffix| <= |s| && s[|s| - |suffix|..] == suffix
  }

  /** `s.split(c)[0]`: everything before the first c, or all of s. */
  function BeforeFirst(s: string, c: char): (r: string)
    ensures r <= s && c !in r
    decreases |s|
  {
    if |s| == 0 || s[0] == c then "" else [s[0]] + BeforeFirst(s[1..], c)
  }

  /** `(w + c + x).split(c)[0]` is w when w holds no c. */
  lemma {:induction false} BeforeFirstOf(w: string, c: char, x: string)
    requires c !in w
    ensures BeforeFirst(w + [c] + x, c) == w
    decreases |w|
  {
    var s := w + [c] + x;
    if |w| > 0 {
      assert s[0] == w[0] && s[1..] == w[1..] + [c] + x;
      BeforeFirstOf(w[1..], c, x);
    } else {
      assert s[0] == c;
    }
  }

  /**
   * The code point of the zero of the decimal-digit run (Unicode general
   * category Nd, Unicode 15.0) that holds code point x, or -1 when x is not a
   * decimal digit. Each run is ten consecutive code points worth 0 to 9, and
   * these are exactly the digits Python's `int()` reads: `int("٣") == 3`,
   * `int("１０") == 10`.
   */
  function DigitZero(x: int): (z: int)
    ensures z == -1 || (0x30 <= z <= x < z + 10)
  {
    if x < 0x30 then -1
    else if x < 0x3A then 0x30
    else if x < 0x660 then -1
    else if x < 0x66A then 0x660
    else if x < 0x6F0 then -1
    else if x < 0x6FA then 0x6F0
    else if x < 0x7C0 then -1
    else if x < 0x7CA then 0x7C0
    else if x < 0x966 then -1
    else if x < 0x970 then 0x966
    else if x < 0x9E6 then -1
    else if x < 0x9F0 then 0x9E6
    else if x < 0xA66 then -1
    else if x < 0xA70 then 0xA66
    else if x < 0xAE6 then -1
    else if x < 0xAF0 then 0xAE6
    else if x < 0xB66 then -1
    else if x < 0xB70 then 0xB66
    else if x < 0xBE6 then -1
    else if x < 0xBF0 then 0xBE6
    else if x < 0xC66 then -1
    else if x < 0xC70 then 0xC66
    else if x < 0xCE6 then -1
    else if x < 0xCF0 then 0xCE6
    else if x < 0xD66 then -1
    else if x < 0xD70 then 0xD66
    else if x < 0xDE6 then -1
    else if x < 0xDF0 then 0xDE6
    else if x < 0xE50 then -1
    else if x < 0xE5A then 0xE50
    else if x < 0xED0 then -1
    else if x < 0xEDA then 0xED0
    else if x < 0xF20 then -1
    else if x < 0xF2A then 0xF20
    else if x < 0x1040 then -1
    else if x < 0x104A then 0x1040
    else if x < 0x1090 then -1
    else if x < 0x109A then 0x1090
    else if x < 0x17E0 then -1
    else if x < 0x17EA then 0x17E0
    else if x < 0x1810 then -1
    else if x < 0x181A then 0x1810
    else if x < 0x1946 then -1
    else if x < 0x1950 then 0x1946
    else if x < 0x19D0 then -1
    else if x < 0x19DA then 0x19D0
    else if x < 0x1A80 then -1
    else if x < 0x1A8A then 0x1A80
    else if x < 0x1A90 then -1
    else if x < 0x1A9A then 0x1A90
    else if x < 0x1B50 then -1
    else if x < 0x1B5A then 0x1B50
    else if x < 0x1BB0 then -1
    else if x < 0x1BBA then 0x1BB0
    else if x < 0x1C40 then -1
    else if x < 0x1C4A then 0x1C40
    else if x < 0x1C50 then -1
    else if x < 0x1C5A then 0x1C50
    else if x < 0xA620 then -1
    else if x < 0xA62A then 0xA620
    else if x < 0xA8D0 then -1
    else if x < 0xA8DA then 0xA8D0
    else if x < 0xA900 then -1
    else if x < 0xA90A then 0xA900
    else if x < 0xA9D0 then -1
    else if x < 0xA9DA then 0xA9D0
    else if x < 0xA9F0 then -1
    else if x < 0xA9FA then 0xA9F0
    else if x < 0xAA50 then -1
    else if x < 0xAA5A then 0xAA50
    else if x < 0xABF0 then -1
    else if x < 0xABFA then 0xABF0
    else if x < 0xFF10 then -1
    else if x < 0xFF1A then 0xFF10
    else if x < 0x104A0 then -1
    else if x < 0x104AA then 0x104A0
    else if x < 0x10D30 then -1
    else if x < 0x10D3A then 0x10D30
    else if x < 0x11066 then -1
    else if x < 0x11070 then 0x11066
    else if x < 0x110F0 then -1
    else if x < 0x110FA then 0x110F0
    else if x < 0x11136 then -1
    else if x < 0x11140 then 0x11136
    else if x < 0x111D0 then -1
    else if x < 0x111DA then 0x111D0
    else if x < 0x112F0 then -1
    else if x < 0x112FA then 0x112F0
    else if x < 0x11450 then -1
    else if x < 0x1145A then 0x11450
    else if x < 0x114D0 then -1
    else if x < 0x114DA then 0x114D0
    else if x < 0x11650 then -1
    else if x < 0x1165A then 0x11650
    else if x < 0x116C0 then -1
    else if x < 0x116CA then 0x116C0
    else if x < 0x11730 then -1
    else if x < 0x1173A then 0x11730
    else if x < 0x118E0 then -1
    else if x < 0x118EA then 0x118E0
    else if x < 0x11950 then -1
    else if x < 0x1195A then 0x11950
    else if x < 0x11C50 then -1
    else if x < 0x11C5A then 0x11C50
    else if x < 0x11D50 then -1
    else if x < 0x11D5A then 0x11D50
    else if x < 0x11DA0 then -1
    else if x < 0x11DAA then 0x11DA0
    else if x < 0x11F50 then -1
    else if x < 0x11F5A then 0x11F50
    else if x < 0x16A60 then -1
    else if x < 0x16A6A then 0x16A60
    else if x < 0x16AC0 then -1
    else if x < 0x16ACA then 0x16AC0
    else if x < 0x16B50 then -1
    else if x < 0x16B5A then 0x16B50
    else if x < 0x1D7CE then -1
    else if x < 0x1D7D8 then 0x1D7CE
    else if x < 0x1D7D8 then -1
    else if x < 0x1D7E2 then 0x1D7D8
    else if x < 0x1D7E2 then -1
    else if x < 0x1D7EC then 0x1D7E2
    else if x < 0x1D7EC then -1
    else if x < 0x1D7F6 then 0x1D7EC
    else if x < 0x1D7F6 then -1
    else if x < 0x1D800 then 0x1D7F6
    else if x < 0x1E140 then -1
    else if x < 0x1E14A then 0x1E140
    else if x < 0x1E2F0 then -1
    else if x < 0x1E2FA then 0x1E2F0
    else if x < 0x1E4F0 then -1
    else if x < 0x1E4FA then 0x1E4F0
    else if x < 0x1E950 then -1
    else if x < 0x1E95A then 0x1E950
    else if x < 0x1FBF0 then -1
    else if x < 0x1FBFA then 0x1FBF0
    else -1
  }

  /** A Unicode decimal digit, the characters `str.isdecimal()` accepts. */
  predicate IsDigit(c: char) {
    DigitZero(c as int) >= 0
  }

  function DigitValue(c: char): (v: nat)
    requires IsDigit(c)
    ensures v < 10
  {
    c as int - DigitZero(c as int)
  }

  function DigitChar(d: nat): (c: char)
    requires d < 10
    ensures IsDigit(c) && DigitValue(c) == d
  {
    ('0' as int + d) as char
  }

  /** Python's digit grammar for `int()`: decimal digits, single underscores only between two digits. */
  predicate ValidDigits(t: string) {
    && |t| > 0
    && IsDigit(t[0])
    && IsDigit(t[|t| - 1])
    && forall i :: 0 < i < |t| - 1 ==> IsDigit(t[i]) || (t[i] == '_' && IsDigit(t[i - 1]) && IsDigit(t[i + 1]))
  }

  /** The decimal value of the digits of t, underscores ignored. */
  function DigitsValue(t: string): nat
    decreases |t|
  {
    if |t| == 0 then 0
    else if IsDigit(t[|t| - 1]) then 10 * DigitsValue(t[..|t| - 1]) + DigitValue(t[|t| - 1])
    else DigitsValue(t[..|t| - 1])
  }

  /**
   * `sys.int_info.default_max_str_digits`: from Python 3.11 on, `int(s)`
   * raises ValueError on a string of more decimal digits than this, and
   * `str(n)` on a value that has more.
   */
  const MaxStrDigits := 4300

  /** The number of decimal digits in t, underscores not counted: what `int()` checks against the limit. */
  function DigitCount(t: string): (c: nat)
    ensures c <= |t|
    decreases |t|
  {
    if |t| == 0 then 0 else DigitCount(t[..|t| - 1]) + (if IsDigit(t[|t| - 1]) then 1 else 0)
  }

  function ParseIntToken(t: string): Option<int> {
    if |t| > 0 && (t[0] == '+' || t[0] == '-') then
      if ValidDigits(t[1..]) && DigitCount(t[1..]) <= MaxStrDigits then
        Some(if t[0] == '-' then -(DigitsValue(t[1..]) as int) else DigitsValue(t[1..]))
      else None
    else if ValidDigits(t) && DigitCount(t) <= MaxStrDigits then Some(DigitsValue(t))
    else None
  }

  /** Python's `int(s)` on a string; `None` where Python raises ValueError, the digit limit included. */
  function PyInt(s: string): Option<int> {
    ParseIntToken(Strip(s))
  }

  function ShowNat(n: nat): (r: string)
    ensures |r| > 0
    ensures forall i :: 0 <= i < |r| ==> IsDigit(r[i])
  {
    if n < 10 then [DigitChar(n)] else ShowNat(n / 10) + [DigitChar(n % 10)]
  }

  /** The characters of Python's `str(n)` for an integer; `str` itself raises past the digit limit (see `StrFits`). */
  function ShowInt(n: int): string {
    if n < 0 then "-" + ShowNat(-n) else ShowNat(n)
  }

  /** `str(n)` does not raise: n has at most `MaxStrDigits` decimal digits, the sign not counted. */
  predicate StrFits(n: int) {
    |ShowNat(if n < 0 then -n else n)| <= MaxStrDigits
  }

  /** The decimal digits of n are a valid digit string worth n, each of them counting toward the limit. */
  lemma {:induction false} ShowNatValue(n: nat)
    ensures ValidDigits(ShowNat(n))
    ensures DigitsValue(ShowNat(n)) == n
    ensures DigitCount(ShowNat(n)) == |ShowNat(n)|
  {
    var r := ShowNat(n);
    if n >= 10 {
      ShowNatValue(n / 10);
      assert r[..|r| - 1] == ShowNat(n / 10);
    }
  }

  lemma ShowIntIsWord(n: int)
    ensures IsWord(ShowInt(n))
  {
    var r := ShowInt(n);
    forall i | 0 <= i < |r| ensures !IsSpace(r[i]) {
      if n < 0 && i > 0 {
        assert r[i] == ShowNat(-n)[i - 1];
      }
    }
  }

  /** `str` and `int` are inverse on integers within the digit limit, and `int` raises on the digits of any other. */
  lemma PyIntShowInt(n: int)
    ensures PyInt(ShowInt(n)) == if StrFits(n) then Some(n) else None
  {
    if n < 0 {
      PyIntNegative(n);
    } else {
      PyIntNatural(n);
    }
  }

  /** `int()` reads any decimal digits: an Arabic-Indic three and a full-width ten. */
  lemma PyIntUnicodeDigits()
    ensures PyInt("\U{0663}") == Some(3)
    ensures PyInt("\U{FF11}\U{FF10}") == Some(10)
  {
    var t := "\U{FF11}\U{FF10}";
    assert t[..1] == "\U{FF11}";
  }

  /** Digits of different scripts mix, a sign and single underscores are allowed, surrounding blanks are stripped. */
  lemma PyIntSignedUnderscored()
    ensures PyInt(" -1_0\U{0665} ") == Some(-105)
  {
    var u := "1_0\U{0665}";
    var padded := " -1_0\U{0665} ";
    assert padded[1..] == "-" + u + " ";
    assert LStrip(padded) == "-" + u + " ";
    assert ("-" + u + " ")[..|u| + 1] == "-" + u;
    assert Strip(padded) == "-" + u;
    assert ("-" + u)[1..] == u;
    assert u[..3] == "1_0" && u[..2] == "1_" && u[..1] == "1";
    assert "1_0"[..2] == "1_" && "1_"[..1] == "1" && "1"[..0] == "";
    assert DigitsValue("1_") == 1;
    assert DigitsValue("1_0") == 10;
    assert DigitsValue(u) == 105;
    assert ValidDigits(u);
  }

  /** Doubled, leading or trailing underscores and stray characters make `int()` raise. */
  lemma PyIntRejects()
    ensures PyInt("1__0") == None
    ensures PyInt("_1") == None
    ensures PyInt("\U{0663}.") == None
  {
    var a, b, c := "1__0", "_1", "\U{0663}.";
    assert IsWord(a) && IsWord(b) && IsWord(c);
    WordIsStripped(a);
    WordIsStripped(b);
    WordIsStripped(c);
    assert !IsDigit(a[1]) && !IsDigit(a[2]) && !IsDigit(b[0]) && !IsDigit(c[1]);
    assert !ValidDigits(a) && !ValidDigits(b) && !ValidDigits(c);
  }

  /** A digit string of `n` zeros. */
  function Zeros(n: nat): (r: string)
    ensures |r| == n
  {
    seq(n, _ => '0')
  }

  /** Zeros are worth 0, and every one of them counts toward the limit. */
  lemma {:induction false} ZerosValue(n: nat)
    ensures DigitsValue(Zeros(n)) == 0 && DigitCount(Zeros(n)) == n
  {
    if n > 0 {
      ZerosValue(n - 1);
      assert Zeros(n)[..n - 1] == Zeros(n - 1);
    }
  }

  /** `int()` reads 4300 digits, leading zeros included, and raises on one more: `int("1" + "0" * 4300)` fails. */
  lemma PyIntDigitLimit()
    ensures PyInt(Zeros(MaxStrDigits)) == Some(0)
    ensures PyInt(Zeros(MaxStrDigits + 1)) == None
    ensures PyInt("1" + Zeros(MaxStrDigits)) == None
  {
    ZerosAreDigits(MaxStrDigits);
    ZerosValue(MaxStrDigits);
    PyIntTooManyDigits(Zeros(MaxStrDigits + 1));
    var t := "1" + Zeros(MaxStrDigits);
    assert forall i :: 0 <= i < |t| ==> IsDigit(t[i]);
    PyIntTooManyDigits(t);
  }

  /** `int()` raises on a run of more than 4300 digits, whatever they are. */
  lemma PyIntTooManyDigits(t: string)
    requires |t| > MaxStrDigits && forall i :: 0 <= i < |t| ==> IsDigit(t[i])
    ensures PyInt(t) == None
  {
    DigitsAreWord(t);
    PyIntOfWord(t);
    AllDigitsCount(t);
  }

  lemma ZerosAreDigits(n: nat)
    requires n > 0
    ensures ValidDigits(Zeros(n)) && IsWord(Zeros(n)) && PyInt(Zeros(n)) == ParseIntToken(Zeros(n))
  {
    DigitsAreWord(Zeros(n));
    PyIntOfWord(Zeros(n));
  }

  /** A string of digits only counts every character. */
  lemma {:induction false} AllDigitsCount(t: string)
    requires forall i :: 0 <= i < |t| ==> IsDigit(t[i])
    ensures DigitCount(t) == |t|
    decreases |t|
  {
    if |t| > 0 {
      AllDigitsCount(t[..|t| - 1]);
    }
  }

  lemma {:induction false} PyIntNatural(n: int)
    requires n >= 0
    ensures PyInt(ShowInt(n)) == if StrFits(n) then Some(n) else None
  {
    var r := ShowNat(n);
    assert ShowInt(n) == r;
    DigitsAreWord(r);
    PyIntOfWord(r);
    ShowNatValue(n);
    ParseUnsigned(r);
  }

  lemma {:induction false} PyIntNegative(n: int)
    requires n < 0
    ensures PyInt(ShowInt(n)) == if StrFits(n) then Some(n) else None
  {
    var m: nat := -n;
    var r := "-" + ShowNat(m);
    assert ShowInt(n) == r;
    NegativeIsWord(m);
    PyIntOfWord(r);
    ShowNatValue(m);
    assert r[1..] == ShowNat(m);
    ParseSigned(r);
  }

  lemma DigitsAreWord(r: string)
    requires |r| > 0 && forall i :: 0 <= i < |r| ==> IsDigit(r[i])
    ensures IsWord(r)
  {
    forall i | 0 <= i < |r|
      ensures !IsSpace(r[i])
    {
      assert IsDigit(r[i]);
    }
  }

  lemma NegativeIsWord(m: nat)
    ensures IsWord("-" + ShowNat(m))
  {
    var d := ShowNat(m);
    var r := "-" + d;
    forall i | 0 <= i < |r|
      ensures !IsSpace(r[i])
    {
      if i > 0 {
        assert r[i] == d[i - 1];
        assert IsDigit(d[i - 1]);
      }
    }
  }

  lemma PyIntOfWord(w: string)
    requires IsWord(w)
    ensures PyInt(w) == ParseIntToken(w)
  {
    WordIsStripped(w);
  }

  lemma ParseSigned(t: string)
    requires |t| > 0 && t[0] == '-' && ValidDigits(t[1..])
    ensures ParseIntToken(t) == if DigitCount(t[1..]) <= MaxStrDigits then Some(-(DigitsValue(t[1..]) as int)) else None
  {
  }

  lemma ParseUnsigned(t: string)
    requires ValidDigits(t)
    ensures ParseIntToken(t) == if DigitCount(t) <= MaxStrDigits then Some(DigitsValue(t)) else None
  {
    assert IsDigit(t[0]);
  }

  lemma WordIsStripped(w: string)
    requires IsWord(w)
    ensures LStrip(w) == w && RStrip(w) == w && Strip(w) == w
  {
  }

  lemma {:induction false} LStripSpace(x: string)
    ensures LStrip(" " + x) == LStrip(x)
  {
    assert (" " + x)[1..] == x;
  }

  lemma {:induction false} SplitSpace(x: string)
    ensures Split(" " + x) == Split(x)
  {
    LStripSpace(x);
  }

  lemma {:induction false} WordLenOfWordThenSpace(w: string, x: string)
    requires IsWord(w)
    ensures WordLen(w + " " + x) == |w|
    decreases |w|
  {
    if |w| > 1 {
      assert (w + " " + x)[1..] == w[1..] + " " + x;
      WordLenOfWordThenSpace(w[1..], x);
    } else {
      assert (w + " " + x)[1..] == " " + x;
    }
  }

  lemma WordLenOfWord(w: string)
    requires IsWord(w)
    ensures WordLen(w) == |w|
  {
  }

  lemma SplitWordThen(w: string, x: string)
    requires IsWord(w)
    ensures Split(w + " " + x) == [w] + Split(x)
  {
    var s := w + " " + x;
    assert s[0] == w[0];
    assert LStrip(s) == s;
    WordLenOfWordThenSpace(w, x);
    assert s[..|w|] == w;
    assert s[|w|..] == " " + x;
    SplitSpace(x);
  }

  lemma SplitSingleWord(w: string)
    requires IsWord(w)
    ensures Split(w) == [w]
  {
    WordIsStripped(w);
    WordLenOfWord(w);
    assert w[..|w|] == w;
    assert w[|w|..] == "";
    assert Split("") == [];
  }

  /** Splitting the space-joined words gives the words back. */
  lemma {:induction false} SplitJoin(ts: seq<string>)
    requires forall i :: 0 <= i < |ts| ==> IsWord(ts[i])
    ensures Split(Join(ts)) == ts
    decreases |ts|
  {
    if |ts| == 1 {
      SplitSingleWord(ts[0]);
    } else if |ts| > 1 {
      SplitJoin(ts[1..]);
      SplitJoinStep(ts);
    }
  }

  lemma {:induction false} SplitJoinStep(ts: seq<string>)
    requires |ts| > 1 && forall i :: 0 <= i < |ts| ==> IsWord(ts[i])
    requires Split(Join(ts[1..])) == ts[1..]
    ensures Split(Join(ts)) == ts
  {
    var x := Join(ts[1..]);
    assert Join(ts) == ts[0] + " " + x;
    assert IsWord(ts[0]);
    SplitWordThen(ts[0], x);
    assert ts == [ts[0]] + ts[1..];
  }

  lemma {:induction false} JoinEnds(ts: seq<string>)
    requires |ts| > 0
    requires forall i :: 0 <= i < |ts| ==> IsWord(ts[i])
    ensures |Join(ts)| > 0
    ensures !IsSpace(Join(ts)[0])
    ensures !IsSpace(Join(ts)[|Join(ts)| - 1])
    decreases |ts|
  {
    assert IsWord(ts[0]);
    if |ts| > 1 {
      JoinEnds(ts[1..]);
    }
  }

  /** A line of space-joined words is unchanged by `strip()`. */
  lemma StripJoin(ts: seq<string>)
    requires |ts| > 0
    requires forall i :: 0 <= i < |ts| ==> IsWord(ts[i])
    ensures Strip(Join(ts)) == Join(ts)
  {
    JoinEnds(ts);
  }

  /** Two or more joined words contain a space, so they never equal a single word. */
  lemma JoinHasSpace(ts: seq<string>)
    requires |ts| >= 2
    ensures ' ' in Join(ts)
  {
    assert Join(ts)[|ts[0]|] == ' ';
  }

  lemma StripTrailingSpace(w: string)
    requires IsWord(w)
    ensures Strip(w + " ") == w
  {
    var s := w + " ";
    assert s[0] == w[0];
    assert LStrip(s) == s;
    assert IsSpace(s[|s| - 1]);
    assert s[..|s| - 1] == w;
    assert RStrip(s) == RStrip(w);
    WordIsStripped(w);
  }
}
