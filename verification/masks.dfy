/** The input masks of the person wizard: the CPF document number
    (`ddd.ddd.ddd-dd`) and Brazilian phone numbers (`(dd)dddd-dddd` for a
    landline, `(dd)ddddd-dddd` for a mobile). Both strip every non-digit
    first and then insert separators, so their output depends only on the
    digits typed. */
module Masks {
  import opened Text
  import opened Schema

  function Min(a: int, b: int): int {
    if a <= b then a else b
  }

  /** How many separators the CPF mask puts around `n` digits. */
  function CpfSeparators(n: nat): nat {
    if n <= 3 then 0 else if n <= 6 then 1 else if n <= 9 then 2 else 3
  }

  /** `formatCPF`. For ten or more digits the unanchored replace rewrites the
      first eleven as `ddd.ddd.ddd-dd` (or `ddd.ddd.ddd-d` for ten) and leaves
      any later digits trailing, directly after the last group. */
  function FormatCpf(value: string): (r: string)
    ensures |r| == |Digits(value)| + CpfSeparators(|Digits(value)|)
  {
    var d := Digits(value);
    if |d| <= 3 then d
    else if |d| <= 6 then d[..3] + "." + d[3..]
    else if |d| <= 9 then d[..3] + "." + d[3..6] + "." + d[6..]
    else d[..3] + "." + d[3..6] + "." + d[6..9] + "-" + d[9..]
  }

  /** How many digits a phone mask keeps. */
  function PhoneCap(isMobile: bool): nat {
    if isMobile then 11 else 10
  }

  /** `formatPhone`: an opening parenthesis, the two-digit area code, then the
      number split by a hyphen after its fifth (mobile) or fourth (landline)
      digit; digits past 11 (mobile) or 10 (landline) are dropped. */
  function FormatPhone(value: string, isMobile: bool): (r: string)
    ensures |r| > 0 && r[0] == '('
  {
    var d := Digits(value);
    if |d| <= 2 then "(" + d
    else if |d| <= 6 then "(" + d[..2] + ")" + d[2..]
    else if isMobile then
      if |d| <= 11 then "(" + d[..2] + ")" + d[2..7] + "-" + d[7..]
      else "(" + d[..2] + ")" + d[2..7] + "-" + d[7..11]
    else
      if |d| <= 10 then "(" + d[..2] + ")" + d[2..6] + "-" + d[6..]
      else "(" + d[..2] + ")" + d[2..6] + "-" + d[6..10]
  }

  /** A separator contributes no digits to what it joins. */
  lemma DigitsAround(a: string, sep: string, b: string)
    requires forall i :: 0 <= i < |sep| ==> !IsDigit(sep[i])
    ensures Digits(a + sep + b) == Digits(a) + Digits(b)
  {
    DigitsAppend(a + sep, b);
    DigitsAppend(a, sep);
    DigitsOfNonDigits(sep);
    assert Digits(a) + [] == Digits(a);
  }

  /** A slice of a digit string is a digit string. */
  lemma SliceDigits(d: string, i: int, j: int)
    requires AllDigits(d)
    requires 0 <= i <= j <= |d|
    ensures Digits(d[i..j]) == d[i..j]
  {
    DigitsOfDigits(d[i..j]);
  }

  /** Digits of `ddd.` followed by the rest. */
  lemma DigitsOfCpf2(d: string)
    requires AllDigits(d) && 3 < |d|
    ensures Digits(d[..3] + "." + d[3..]) == d
  {
    DigitsAround(d[..3], ".", d[3..]);
    SliceDigits(d, 0, 3);
    SliceDigits(d, 3, |d|);
    assert d[3..|d|] == d[3..];
    assert d[..3] + d[3..] == d;
  }

  /** Digits of `ddd.ddd.` followed by the rest. */
  lemma DigitsOfCpf3(d: string)
    requires AllDigits(d) && 6 < |d|
    ensures Digits(d[..3] + "." + d[3..6] + "." + d[6..]) == d
  {
    DigitsAround(d[..3] + "." + d[3..6], ".", d[6..]);
    DigitsOfCpf2(d[..6]);
    assert d[..6][..3] == d[..3] && d[..6][3..] == d[3..6];
    SliceDigits(d, 6, |d|);
    assert d[6..|d|] == d[6..];
    assert d[..6] + d[6..] == d;
  }

  /** Digits of `ddd.ddd.ddd-` followed by the rest. */
  lemma DigitsOfCpf4(d: string)
    requires AllDigits(d) && 9 < |d|
    ensures Digits(d[..3] + "." + d[3..6] + "." + d[6..9] + "-" + d[9..]) == d
  {
    DigitsAround(d[..3] + "." + d[3..6] + "." + d[6..9], "-", d[9..]);
    DigitsOfCpf3(d[..9]);
    assert d[..9][..3] == d[..3] && d[..9][3..6] == d[3..6] && d[..9][6..] == d[6..9];
    SliceDigits(d, 9, |d|);
    assert d[9..|d|] == d[9..];
    assert d[..9] + d[9..] == d;
  }

  /** The CPF mask keeps exactly the digits of its input, in order, even
      beyond the eleventh. */
  lemma CpfKeepsDigits(value: string)
    ensures Digits(FormatCpf(value)) == Digits(value)
  {
    var d := Digits(value);
    if |d| <= 3 {
      DigitsOfDigits(d);
    } else if |d| <= 6 {
      DigitsOfCpf2(d);
    } else if |d| <= 9 {
      DigitsOfCpf3(d);
    } else {
      DigitsOfCpf4(d);
    }
  }

  /** Masking a masked CPF changes nothing. */
  lemma CpfIdempotent(value: string)
    ensures FormatCpf(FormatCpf(value)) == FormatCpf(value)
  {
    CpfKeepsDigits(value);
  }

  /** The masked CPF passes the CPF pattern exactly when eleven digits were typed. */
  lemma CpfAcceptedIffEleven(value: string)
    ensures Matches(CpfPattern, FormatCpf(value)) <==> |Digits(value)| == 11
  {
    var d := Digits(value);
    var r := FormatCpf(value);
    if |d| == 11 {
      assert r == d[..3] + "." + d[3..6] + "." + d[6..9] + "-" + d[9..];
      assert forall i :: 0 <= i < 3 ==> r[i] == d[i];
      assert forall i :: 4 <= i < 7 ==> r[i] == d[i - 1];
      assert forall i :: 8 <= i < 11 ==> r[i] == d[i - 2];
      assert forall i :: 12 <= i < 14 ==> r[i] == d[i - 3];
    }
  }

  /** Eleven digits are grouped as `ddd.ddd.ddd-dd`. */
  lemma CpfOfEleven(d: string)
    requires AllDigits(d) && |d| == 11
    ensures FormatCpf(d) == d[..3] + "." + d[3..6] + "." + d[6..9] + "-" + d[9..]
  {
    DigitsOfDigits(d);
  }

  /** The worked example: "12345678900" becomes "123.456.789-00". */
  lemma CpfExample(v: string)
    requires v == "12345678900"
    ensures FormatCpf(v) == "123.456.789-00"
  {
    assert AllDigits(v);
    CpfOfEleven(v);
    assert v[..3] == "123" && v[3..6] == "456" && v[6..9] == "789" && v[9..] == "00";
  }

  /** The digits of `(` + the first two + `)` + the rest, for up to six digits. */
  lemma DigitsOfShortPhone(d: string)
    requires AllDigits(d)
    requires 2 < |d|
    ensures Digits("(" + d[..2] + ")" + d[2..]) == d
  {
    DigitsAround("(" + d[..2], ")", d[2..]);
    DigitsAround([], "(", d[..2]);
    assert [] + "(" + d[..2] == "(" + d[..2];
    SliceDigits(d, 0, 2);
    SliceDigits(d, 2, |d|);
    assert d[2..|d|] == d[2..];
    assert d[..2] + d[2..] == d;
  }

  /** The digits of a fully punctuated phone whose groups end at `cut` and `k`. */
  lemma DigitsOfLongPhone(d: string, cut: int, k: int)
    requires AllDigits(d)
    requires 2 < cut <= k <= |d|
    ensures Digits("(" + d[..2] + ")" + d[2..cut] + "-" + d[cut..k]) == d[..k]
  {
    var head := d[..cut];
    DigitsAround("(" + d[..2] + ")" + d[2..cut], "-", d[cut..k]);
    DigitsOfShortPhone(head);
    assert head[..2] == d[..2] && head[2..] == d[2..cut];
    SliceDigits(d, cut, k);
    assert head + d[cut..k] == d[..k];
  }

  /** The phone mask keeps the first 11 (mobile) or 10 (landline) digits of
      its input, in order, and nothing else. */
  lemma PhoneKeepsDigits(value: string, isMobile: bool)
    ensures Digits(FormatPhone(value, isMobile)) == Digits(value)[..Min(|Digits(value)|, PhoneCap(isMobile))]
  {
    var d := Digits(value);
    var n := |d|;
    var k := Min(n, PhoneCap(isMobile));
    if n <= 2 {
      DigitsAround([], "(", d);
      DigitsOfDigits(d);
      assert [] + "(" + d == "(" + d;
      assert d[..k] == d;
    } else if n <= 6 {
      DigitsOfShortPhone(d);
      assert d[..k] == d;
    } else {
      var cut := if isMobile then 7 else 6;
      assert FormatPhone(value, isMobile) == "(" + d[..2] + ")" + d[2..cut] + "-" + d[cut..k];
      DigitsOfLongPhone(d, cut, k);
    }
  }

  /** For a fixed kind of number, masking a masked phone changes nothing. */
  lemma PhoneIdempotent(value: string, isMobile: bool)
    ensures FormatPhone(FormatPhone(value, isMobile), isMobile) == FormatPhone(value, isMobile)
  {
    PhoneKeepsDigits(value, isMobile);
    var d := Digits(value);
    var k := Min(|d|, PhoneCap(isMobile));
    var e := d[..k];
    assert Digits(FormatPhone(value, isMobile)) == e;
    if |d| > 6 {
      if isMobile {
        assert e[..2] == d[..2] && e[2..7] == d[2..7] && e[7..] == d[7..k];
      } else {
        assert e[..2] == d[..2] && e[2..6] == d[2..6] && e[6..] == d[6..k];
      }
    } else {
      assert e == d;
    }
  }

  /** Once eleven digits are typed a mobile number reads `(dd)ddddd-dddd`,
      and once ten are typed a landline reads `(dd)dddd-dddd`; further digits
      are dropped, so longer inputs give the same shape. */
  lemma PhoneFullShape(value: string, isMobile: bool)
    requires |Digits(value)| >= PhoneCap(isMobile)
    ensures var r := FormatPhone(value, isMobile);
      var dash := if isMobile then 9 else 8;
      && |r| == PhoneCap(isMobile) + 3
      && r[0] == '(' && r[3] == ')' && r[dash] == '-'
      && forall i :: 0 <= i < |r| && i != 0 && i != 3 && i != dash ==> IsDigit(r[i])
  {
  }
}
