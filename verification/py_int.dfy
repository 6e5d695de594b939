/** Python's `int(s)` on a `str` in base 10, as used by a query-string
    argument read with `type=int`, and its inverse `str(n)`.

    The accepted text is: optional whitespace, an optional `+` or `-`, one
    or more ASCII digits where single underscores may separate digits, and
    optional whitespace. Anything else raises `ValueError`, modelled as
    `None`. Leading zeros are allowed in base 10. */
module PyInt {
  import opened Util

  predicate IsDigit(c: char) {
    '0' <= c <= '9'
  }

  /** ASCII characters `int()` skips around a number: tab through
      carriage return, and space. The separators 0x1C-0x1F, which
      `str.isspace()` accepts, are not among them: `int()` rejects them. */
  predicate IsSpace(c: char) {
    c == ' ' || 9 <= c as int <= 13
  }

  /** Drops leading whitespace. */
  function StripLeft(s: string): (r: string)
    ensures |r| <= |s| && r == s[|s| - |r|..]
    ensures |r| > 0 ==> !IsSpace(r[0])
  {
    if |s| > 0 && IsSpace(s[0]) then StripLeft(s[1..]) else s
  }

  /** What `StripLeft` drops is whitespace. */
  lemma {:induction false} StripLeftDropsSpaces(s: string)
    ensures forall i :: 0 <= i < |s| - |StripLeft(s)| ==> IsSpace(s[i])
  {
    if |s| > 0 && IsSpace(s[0]) {
      StripLeftDropsSpaces(s[1..]);
      assert forall i :: 1 <= i < |s| ==> s[i] == s[1..][i - 1];
    }
  }

  /** Drops trailing whitespace. */
  function StripRight(s: string): (r: string)
    ensures |r| <= |s| && r == s[..|r|]
    ensures |r| > 0 ==> !IsSpace(r[|r| - 1])
  {
    if |s| > 0 && IsSpace(s[|s| - 1]) then StripRight(s[..|s| - 1]) else s
  }

  /** What `StripRight` drops is whitespace. */
  lemma {:induction false} StripRightDropsSpaces(s: string)
    ensures forall i :: |StripRight(s)| <= i < |s| ==> IsSpace(s[i])
  {
    if |s| > 0 && IsSpace(s[|s| - 1]) {
      StripRightDropsSpaces(s[..|s| - 1]);
    }
  }

  function Strip(s: string): string {
    StripRight(StripLeft(s))
  }

  /** Digits, with single underscores allowed only between two digits. */
  predicate WellFormedDigits(t: string) {
    && |t| > 0
    && IsDigit(t[0])
    && IsDigit(t[|t| - 1])
    && (forall i :: 0 <= i < |t| ==> IsDigit(t[i]) || t[i] == '_')
    && (forall i :: 0 <= i < |t| - 1 && t[i] == '_' ==> t[i + 1] != '_')
  }

  function DigitValue(c: char): nat {
    if IsDigit(c) then c as int - '0' as int else 0
  }

  function DigitChar(d: nat): (c: char)
    requires d < 10
    ensures IsDigit(c) && DigitValue(c) == d
  {
    ('0' as int + d) as char
  }

  /** The value of a digit string read left to right; underscores are skipped. */
  function DigitsValue(t: string): nat {
    if |t| == 0 then 0
    else if IsDigit(t[|t| - 1]) then 10 * DigitsValue(t[..|t| - 1]) + DigitValue(t[|t| - 1])
    else DigitsValue(t[..|t| - 1])
  }

  /** The characters `int()` can accept at all: digits, whitespace, a sign
      and the underscore. */
  predicate IntChar(c: char) {
    IsDigit(c) || IsSpace(c) || c == '+' || c == '-' || c == '_'
  }

  /** `int(s)`: `Some(n)` when Python returns `n`, `None` when it raises.
      An accepted text holds at least one digit and no character outside
      digits, whitespace, sign and underscore. */
  function ParseInt(s: string): (r: Option<int>)
    ensures r.Some? ==> exists i :: 0 <= i < |s| && IsDigit(s[i])
    ensures r.Some? ==> forall i :: 0 <= i < |s| ==> IntChar(s[i])
  {
    AcceptedText(s);
    ParseStripped(Strip(s))
  }

  /** What `ParseInt` accepts has a digit and only integer characters. */
  lemma AcceptedText(s: string)
    ensures ParseStripped(Strip(s)).Some? ==>
      && (exists i :: 0 <= i < |s| && IsDigit(s[i]))
      && (forall i :: 0 <= i < |s| ==> IntChar(s[i]))
  {
    var t := Strip(s);
    if ParseStripped(t).Some? {
      StrippedAccepted(t);
      StripWindow(s);
      var off := |s| - |StripLeft(s)|;
      var j := off + |t| - 1;
      assert 0 <= j < |s| && s[j] == t[|t| - 1];
      assert IsDigit(s[j]);
      forall i | 0 <= i < |s|
        ensures IntChar(s[i])
      {
        if i < off {
          assert IsSpace(s[i]);
        } else if i < off + |t| {
          assert s[i] == t[i - off];
          assert IntChar(t[i - off]);
        } else {
          assert IsSpace(s[i]);
        }
      }
    }
  }

  /** `Strip(s)` is the window of `s` at offset `|s| - |StripLeft(s)|`, and
      everything of `s` outside that window is whitespace. */
  lemma StripWindow(s: string)
    ensures var off := |s| - |StripLeft(s)|;
            var t := Strip(s);
            && off + |t| <= |s|
            && (forall k :: 0 <= k < |t| ==> t[k] == s[off + k])
            && (forall k :: 0 <= k < off ==> IsSpace(s[k]))
            && (forall k :: off + |t| <= k < |s| ==> IsSpace(s[k]))
  {
    var l := StripLeft(s);
    var t := StripRight(l);
    var off := |s| - |l|;
    assert l == s[off..];
    assert t == l[..|t|];
    StripLeftDropsSpaces(s);
    StripRightDropsSpaces(l);
    forall k | 0 <= k < |t|
      ensures t[k] == s[off + k]
    {
      assert t[k] == l[k];
    }
    forall k | off + |t| <= k < |s|
      ensures IsSpace(s[k])
    {
      assert s[k] == l[k - off];
      assert IsSpace(l[k - off]);
    }
  }

  /** Reads an optional sign and a digit string with nothing around them. */
  function ParseStripped(t: string): Option<int> {
    if |t| > 0 && (t[0] == '+' || t[0] == '-') then
      var digits := t[1..];
      var v: int := DigitsValue(digits);
      if WellFormedDigits(digits) then Some(if t[0] == '-' then -v else v)
      else None
    else if WellFormedDigits(t) then Some(DigitsValue(t))
    else None
  }

  /** A stripped text that is read as an integer ends in a digit and
      holds only integer characters. */
  lemma StrippedAccepted(t: string)
    ensures ParseStripped(t).Some? ==>
      |t| > 0 && IsDigit(t[|t| - 1]) && forall k :: 0 <= k < |t| ==> IntChar(t[k])
  {
    if ParseStripped(t).Some? && |t| > 0 && (t[0] == '+' || t[0] == '-') {
      assert forall k :: 1 <= k < |t| ==> t[k] == t[1..][k - 1];
    }
  }

  /** Text that starts and ends with a non-space character has nothing
      to strip. */
  lemma StripKeepsUnpadded(s: string)
    requires |s| > 0 && !IsSpace(s[0]) && !IsSpace(s[|s| - 1])
    ensures Strip(s) == s
  {
    assert StripLeft(s) == s;
  }

  /** A leading zero does not change the value of a digit string. */
  lemma {:induction false} LeadingZeroValue(d: string)
    ensures DigitsValue("0" + d) == DigitsValue(d)
  {
    var z := "0" + d;
    if |d| == 0 {
      assert z[..|z| - 1] == "";
    } else {
      assert z[..|z| - 1] == "0" + d[..|d| - 1];
      assert z[|z| - 1] == d[|d| - 1];
      LeadingZeroValue(d[..|d| - 1]);
    }
  }

  /** An underscore does not change the value of a digit string. */
  lemma {:induction false} UnderscoreValue(a: string, b: string)
    ensures DigitsValue(a + "_" + b) == DigitsValue(a + b)
  {
    var x := a + "_" + b;
    var y := a + b;
    if |b| == 0 {
      assert x[..|x| - 1] == a;
      assert y == a;
    } else {
      assert x[..|x| - 1] == a + "_" + b[..|b| - 1];
      assert y[..|y| - 1] == a + b[..|b| - 1];
      assert x[|x| - 1] == b[|b| - 1] == y[|y| - 1];
      UnderscoreValue(a, b[..|b| - 1]);
    }
  }

  /** `int()` accepts every well-formed digit string, also behind a sign or
      an extra leading zero, and reads its digits as a decimal number. */
  lemma Accepts(d: string)
    requires WellFormedDigits(d)
    ensures ParseInt(d) == Some(DigitsValue(d))
    ensures ParseInt("+" + d) == Some(DigitsValue(d))
    ensures ParseInt("-" + d) == Some(-(DigitsValue(d) as int))
    ensures ParseInt("0" + d) == Some(DigitsValue(d))
  {
    AcceptsUnsigned(d);
    AcceptsSigned('+', d);
    AcceptsSigned('-', d);
    LeadingZeroWellFormed(d);
    AcceptsUnsigned("0" + d);
    LeadingZeroValue(d);
  }

  lemma LeadingZeroWellFormed(d: string)
    requires WellFormedDigits(d)
    ensures WellFormedDigits("0" + d)
  {
    var z := "0" + d;
    forall i | 0 <= i < |z|
      ensures IsDigit(z[i]) || z[i] == '_'
    {
      if i > 0 {
        assert z[i] == d[i - 1];
      }
    }
    forall i | 0 <= i < |z| - 1 && z[i] == '_'
      ensures z[i + 1] != '_'
    {
      assert z[i] == d[i - 1] && z[i + 1] == d[i];
    }
    assert z[|z| - 1] == d[|d| - 1];
  }

  /** Joining two well-formed digit strings, directly or with one
      underscore, gives a well-formed digit string. */
  lemma JoinWellFormed(a: string, b: string)
    requires WellFormedDigits(a) && WellFormedDigits(b)
    ensures WellFormedDigits(a + b)
    ensures WellFormedDigits(a + "_" + b)
  {
    var x := a + "_" + b;
    var y := a + b;
    forall i | 0 <= i < |x|
      ensures IsDigit(x[i]) || x[i] == '_'
    {
      if i < |a| {
        assert x[i] == a[i];
      } else if i > |a| {
        assert x[i] == b[i - |a| - 1];
      }
    }
    forall i | 0 <= i < |x| - 1 && x[i] == '_'
      ensures x[i + 1] != '_'
    {
      if i < |a| {
        assert x[i] == a[i];
        assert x[i + 1] == a[i + 1];
      } else if i == |a| {
        assert x[i + 1] == b[0];
      } else {
        assert x[i] == b[i - |a| - 1] && x[i + 1] == b[i - |a|];
      }
    }
    assert x[0] == a[0] && x[|x| - 1] == b[|b| - 1];
    forall i | 0 <= i < |y|
      ensures IsDigit(y[i]) || y[i] == '_'
    {
      if i < |a| {
        assert y[i] == a[i];
      } else {
        assert y[i] == b[i - |a|];
      }
    }
    forall i | 0 <= i < |y| - 1 && y[i] == '_'
      ensures y[i + 1] != '_'
    {
      if i < |a| {
        assert y[i] == a[i];
        assert y[i + 1] == a[i + 1];
      } else {
        assert y[i] == b[i - |a|] && y[i + 1] == b[i - |a| + 1];
      }
    }
    assert y[0] == a[0] && y[|y| - 1] == b[|b| - 1];
  }

  lemma AcceptsUnsigned(d: string)
    requires WellFormedDigits(d)
    ensures ParseInt(d) == Some(DigitsValue(d))
  {
    StripKeepsUnpadded(d);
  }

  lemma AcceptsSigned(sign: char, d: string)
    requires sign == '+' || sign == '-'
    requires WellFormedDigits(d)
    ensures ParseInt([sign] + d) == Some(if sign == '-' then -(DigitsValue(d) as int) else DigitsValue(d))
  {
    var s := [sign] + d;
    assert s[|s| - 1] == d[|d| - 1] && s[1..] == d;
    StripKeepsUnpadded(s);
  }

  /** The accepted texts are exactly those that, once stripped, are a
      well-formed digit string alone or behind one sign. So `"1__0"`,
      `"_1"`, `"1_"`, `"+-1"` and `"- 1"` are all rejected. */
  lemma AcceptedShape(s: string)
    ensures ParseInt(s).Some? <==>
      exists d :: WellFormedDigits(d) && (Strip(s) == d || Strip(s) == "+" + d || Strip(s) == "-" + d)
  {
    var t := Strip(s);
    assert ParseInt(s) == ParseStripped(t);
    StrippedShapeOnly(t);
    if exists d :: WellFormedDigits(d) && (t == d || t == "+" + d || t == "-" + d) {
      var d :| WellFormedDigits(d) && (t == d || t == "+" + d || t == "-" + d);
      StrippedShapeSuffices(t, d);
    }
  }

  lemma StrippedShapeOnly(t: string)
    ensures ParseStripped(t).Some? ==>
      exists d :: WellFormedDigits(d) && (t == d || t == "+" + d || t == "-" + d)
  {
    if ParseStripped(t).Some? {
      if |t| > 0 && (t[0] == '+' || t[0] == '-') {
        var d := t[1..];
        assert t == [t[0]] + d;
        assert WellFormedDigits(d) && (t == "+" + d || t == "-" + d);
      } else {
        assert WellFormedDigits(t);
      }
    }
  }

  lemma StrippedShapeSuffices(t: string, d: string)
    requires WellFormedDigits(d) && (t == d || t == "+" + d || t == "-" + d)
    ensures ParseStripped(t).Some?
  {
    if t == d {
      assert IsDigit(t[0]);
    } else {
      assert t[1..] == d;
    }
  }

  /** A separator 0x1C-0x1F anywhere makes `int()` raise, although
      `str.isspace()` counts it as whitespace. */
  lemma SeparatorRejected(c: char, s: string, i: nat)
    requires 28 <= c as int <= 31
    requires i <= |s|
    ensures ParseInt(s[..i] + [c] + s[i..]) == None
  {
    var u := s[..i] + [c] + s[i..];
    assert u[i] == c && !IntChar(c);
  }

  /** `int()` accepts a single underscore between two digit strings and
      reads the same number as without it. */
  lemma AcceptsUnderscore(a: string, b: string)
    requires WellFormedDigits(a) && WellFormedDigits(b)
    ensures ParseInt(a + "_" + b) == ParseInt(a + b) == Some(DigitsValue(a + b))
  {
    JoinWellFormed(a, b);
    AcceptsUnsigned(a + "_" + b);
    AcceptsUnsigned(a + b);
    UnderscoreValue(a, b);
  }

  /** `str(n)` for a non-negative integer: its shortest decimal form. */
  function NatToDecimal(n: nat): (r: string)
    ensures |r| > 0
    ensures forall i :: 0 <= i < |r| ==> IsDigit(r[i])
    ensures |r| > 1 ==> r[0] != '0'
  {
    if n < 10 then [DigitChar(n)] else NatToDecimal(n / 10) + [DigitChar(n % 10)]
  }

  /** `str(n)` for any integer. */
  function IntToDecimal(n: int): string {
    if n < 0 then "-" + NatToDecimal(-n) else NatToDecimal(n)
  }

  lemma {:induction false} DigitsValueOfDecimal(n: nat)
    ensures DigitsValue(NatToDecimal(n)) == n
  {
    var r := NatToDecimal(n);
    if n >= 10 {
      assert r[..|r| - 1] == NatToDecimal(n / 10);
      DigitsValueOfDecimal(n / 10);
    }
  }

  /** A decimal rendering is a well-formed digit string that does not
      start with a sign. */
  lemma DecimalIsWellFormed(n: nat)
    ensures WellFormedDigits(NatToDecimal(n))
    ensures NatToDecimal(n)[0] != '+' && NatToDecimal(n)[0] != '-'
  {
  }

  /** `str(n)` has no whitespace to strip. */
  lemma DecimalIsStripped(n: int)
    ensures Strip(IntToDecimal(n)) == IntToDecimal(n)
  {
    var s := IntToDecimal(n);
    var d := NatToDecimal(if n < 0 then -n else n);
    assert IsDigit(d[0]) && IsDigit(d[|d| - 1]);
    if n < 0 {
      assert s == "-" + d;
      assert s[|s| - 1] == d[|d| - 1];
    } else {
      assert s == d;
    }
    assert !IsSpace(s[0]) && !IsSpace(s[|s| - 1]);
    assert StripLeft(s) == s;
  }

  /** `int(str(n)) == n` for every integer `n`. */
  lemma ParseIntRoundTrip(n: int)
    ensures ParseInt(IntToDecimal(n)) == Some(n)
  {
    DecimalIsStripped(n);
    assert ParseInt(IntToDecimal(n)) == ParseStripped(IntToDecimal(n));
    if n < 0 {
      NegativeRoundTrip(-n);
    } else {
      NatRoundTrip(n);
    }
  }

  lemma NatRoundTrip(m: nat)
    ensures ParseStripped(NatToDecimal(m)) == Some(m)
  {
    DecimalIsWellFormed(m);
    DigitsValueOfDecimal(m);
  }

  lemma NegativeRoundTrip(m: nat)
    requires m > 0
    ensures ParseStripped("-" + NatToDecimal(m)) == Some(-(m as int))
  {
    var d := NatToDecimal(m);
    DecimalIsWellFormed(m);
    DigitsValueOfDecimal(m);
    assert ("-" + d)[1..] == d;
  }

  /** Leading whitespace never changes what `int()` returns. */
  lemma ParseIntIgnoresLeadingSpace(c: char, s: string)
    requires IsSpace(c)
    ensures ParseInt([c] + s) == ParseInt(s)
  {
    assert ([c] + s)[1..] == s;
    assert Strip([c] + s) == Strip(s);
  }

  lemma {:induction false} StripLeftTrailingSpace(s: string, c: char)
    requires IsSpace(c)
    ensures StripRight(StripLeft(s + [c])) == StripRight(StripLeft(s))
  {
    var sc := s + [c];
    if |s| == 0 {
      assert StripLeft(sc) == StripLeft([c]) == StripLeft([]);
    } else if IsSpace(s[0]) {
      assert sc[0] == s[0];
      assert sc[1..] == s[1..] + [c];
      assert StripLeft(sc) == StripLeft(s[1..] + [c]);
      StripLeftTrailingSpace(s[1..], c);
    } else {
      assert sc[0] == s[0];
      assert StripLeft(sc) == sc;
      assert StripLeft(s) == s;
      assert sc[|sc| - 1] == c;
      assert sc[..|sc| - 1] == s;
      assert StripRight(sc) == StripRight(s);
    }
  }

  /** Trailing whitespace never changes what `int()` returns. */
  lemma ParseIntIgnoresTrailingSpace(s: string, c: char)
    requires IsSpace(c)
    ensures ParseInt(s + [c]) == ParseInt(s)
  {
    StripLeftTrailingSpace(s, c);
    assert Strip(s + [c]) == Strip(s);
  }

  /** Text with no digit at all is never an integer (the empty string,
      words, a lone sign). */
  lemma NoDigitNoInt(s: string)
    requires forall i :: 0 <= i < |s| ==> !IsDigit(s[i])
    ensures ParseInt(s) == None
  {
    var t := StripLeft(s);
    var u := StripRight(t);
    assert forall i :: 0 <= i < |u| ==> u[i] == s[|s| - |t| + i];
    StrippedAccepted(u);
  }
}
