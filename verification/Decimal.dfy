/** The token amount printer of `account-decoder-client-types/src/token.rs`. */
module Decimal {

  function Pow10(k: nat): (p: nat)
    ensures p >= 1
  {
    if k == 0 then 1 else 10 * Pow10(k - 1)
  }

  // ---------------------------------------------------------------- printing

  function Digit(d: nat): char
    requires d < 10
  {
    ('0' as int + d) as char
  }

  function ToString(n: nat): (s: string)
    ensures s != []
  {
    if n < 10 then [Digit(n)] else ToString(n / 10) + [Digit(n % 10)]
  }

  function Zeros(k: nat): string { seq(k, _ => '0') }

  /** Left-pads with zeros to the given width. */
  function Pad(s: string, width: nat): (r: string)
    ensures |r| >= width
  {
    if |s| >= width then s else Zeros(width - |s|) + s
  }

  /** Inserts a point before the last `d` characters. */
  function InsertPoint(s: string, d: nat): string
    requires d <= |s|
  {
    s[..|s| - d] + "." + s[|s| - d..]
  }

  function RealNumberString(amount: nat, decimals: nat): string {
    if decimals > 0 then InsertPoint(Pad(ToString(amount), decimals + 1), decimals) else ToString(amount)
  }

  function TrimEnd(s: string, c: char): string {
    if s != [] && s[|s| - 1] == c then TrimEnd(s[..|s| - 1], c) else s
  }

  function RealNumberStringTrimmed(amount: nat, decimals: nat): string {
    var s := RealNumberString(amount, decimals);
    if decimals > 0 then TrimEnd(TrimEnd(s, '0'), '.') else s
  }

  // ---------------------------------------------------------------- reading

  predicate IsDigit(c: char) { '0' <= c <= '9' }

  predicate AllDigits(s: string) { forall i :: 0 <= i < |s| ==> IsDigit(s[i]) }

  /** The number that the digits spell, whatever else stands between them. */
  function Mantissa(s: string): nat {
    if s == [] then 0
    else
      var m, c := Mantissa(s[..|s| - 1]), s[|s| - 1];
      if IsDigit(c) then 10 * m + (c as int - '0' as int) else m
  }

  /** How many characters follow the last point; none when there is no point. */
  function Places(s: string): nat {
    if '.' !in s || s[|s| - 1] == '.' then 0 else 1 + Places(s[..|s| - 1])
  }

  /** `s` denotes the rational number `amount / 10^decimals`. */
  predicate Denotes(s: string, amount: nat, decimals: nat) {
    Mantissa(s) * Pow10(decimals) == amount * Pow10(Places(s))
  }

  /** A plain decimal numeral: digits, or digits, one point and more digits. */
  ghost predicate Numeral(s: string) {
    || (s != [] && AllDigits(s))
    || (exists x, y :: x != [] && y != [] && AllDigits(x) && AllDigits(y) && s == x + "." + y)
  }

  lemma {:induction false} ReadDigits(n: nat)
    ensures AllDigits(ToString(n)) && Mantissa(ToString(n)) == n
  {
    if n >= 10 {
      ReadDigits(n / 10);
      assert ToString(n)[..|ToString(n)| - 1] == ToString(n / 10);
    }
  }

  lemma {:induction false} LeadingZeros(k: nat, s: string)
    ensures Mantissa(Zeros(k) + s) == Mantissa(s)
    decreases k + |s|
  {
    var t := Zeros(k) + s;
    if s != [] {
      LeadingZeros(k, s[..|s| - 1]);
      assert t[..|t| - 1] == Zeros(k) + s[..|s| - 1];
    } else if k > 0 {
      LeadingZeros(k - 1, s);
      assert t[..|t| - 1] == Zeros(k - 1) + s;
    }
  }

  lemma {:induction false} ReadPoint(x: string, y: string)
    requires AllDigits(x) && AllDigits(y)
    ensures Mantissa(x + "." + y) == Mantissa(x + y) && Places(x + "." + y) == |y|
  {
    var t := x + "." + y;
    if y == [] {
      assert t[..|t| - 1] == x && x + y == x && t[|t| - 1] == '.';
    } else {
      var z := y[..|y| - 1];
      ReadPoint(x, z);
      assert t[..|t| - 1] == x + "." + z && (x + y)[..|x + y| - 1] == x + z;
      assert t[|x|] == '.';
    }
  }

  /** The digits of the full form, split at the point. */
  lemma FullForm(a: nat, d: nat)
    requires d > 0
    ensures var s := Pad(ToString(a), d + 1);
            && |s| > d && AllDigits(s[..|s| - d]) && AllDigits(s[|s| - d..]) && Mantissa(s) == a
            && s[..|s| - d] + s[|s| - d..] == s
  {
    hide ToString, Mantissa;
    ReadDigits(a);
    var s := ToString(a);
    if |s| < d + 1 {
      LeadingZeros(d + 1 - |s|, s);
    }
    assert AllDigits(Pad(s, d + 1));
  }

  /** The full form denotes the amount. */
  lemma FullDenotes(a: nat, d: nat)
    ensures Denotes(RealNumberString(a, d), a, d) && Places(RealNumberString(a, d)) == d
  {
    if d > 0 {
      var s := Pad(ToString(a), d + 1);
      FullForm(a, d);
      ReadPoint(s[..|s| - d], s[|s| - d..]);
    } else {
      ReadDigits(a);
    }
  }

  /** Dropping a zero after the point divides mantissa and scale by ten. */
  lemma DropZero(x: string, y: string, a: nat, d: nat)
    requires AllDigits(x) && AllDigits(y) && y != [] && y[|y| - 1] == '0' && Denotes(x + "." + y, a, d)
    ensures Denotes(x + "." + y[..|y| - 1], a, d)
  {
    var z := y[..|y| - 1];
    ReadPoint(x, y);
    ReadPoint(x, z);
    assert (x + y)[..|x + y| - 1] == x + z;
    assert Mantissa(x + y) == 10 * Mantissa(x + z);
    CancelTen(Mantissa(x + z), Pow10(d), a, Pow10(|z|));
  }

  /** Trimming zeros stops at the point at the latest, and keeps the number. */
  lemma {:induction false} TrimZeros(x: string, y: string, a: nat, d: nat) returns (z: string)
    requires AllDigits(x) && AllDigits(y) && Denotes(x + "." + y, a, d)
    ensures AllDigits(z) && TrimEnd(x + "." + y, '0') == x + "." + z
    ensures (z == [] || z[|z| - 1] != '0') && Denotes(x + "." + z, a, d)
    decreases |y|
  {
    hide Denotes;
    var t := x + "." + y;
    if y != [] && y[|y| - 1] == '0' {
      var w := y[..|y| - 1];
      assert t[..|t| - 1] == x + "." + w && t[|t| - 1] == '0';
      DropZero(x, y, a, d);
      z := TrimZeros(x, w, a, d);
    } else {
      assert t[|t| - 1] == if y == [] then '.' else y[|y| - 1];
      z := y;
    }
  }

  lemma CancelTen(m: nat, p: nat, a: nat, q: nat)
    requires (10 * m) * p == a * (10 * q)
    ensures m * p == a * q
  {
    assert (10 * m) * p == 10 * (m * p) && a * (10 * q) == 10 * (a * q);
  }

  /** The trimmed form denotes the amount too, as a numeral with no trailing zero after a point. */
  lemma TrimmedDenotes(a: nat, d: nat)
    ensures Denotes(RealNumberStringTrimmed(a, d), a, d) && Numeral(RealNumberStringTrimmed(a, d))
    ensures var s := RealNumberStringTrimmed(a, d); '.' in s ==> s[|s| - 1] != '0' && s[|s| - 1] != '.'
  {
    FullDenotes(a, d);
    hide ToString, Pad, Mantissa, Pow10, TrimEnd;
    if d > 0 {
      var s := Pad(ToString(a), d + 1);
      FullForm(a, d);
      var x := s[..|s| - d];
      var z := TrimZeros(x, s[|s| - d..], a, d);
      TrimPoint(x, z);
      TrimmedShape(x, z, a, d);
    } else {
      ReadDigits(a);
    }
  }

  lemma TrimmedShape(x: string, z: string, a: nat, d: nat)
    requires x != [] && AllDigits(x) && AllDigits(z) && Denotes(x + "." + z, a, d) && (z == [] || z[|z| - 1] != '0')
    ensures var s := if z == [] then x else x + "." + z;
            Denotes(s, a, d) && Numeral(s) && ('.' in s ==> s[|s| - 1] != '0' && s[|s| - 1] != '.')
  {
    hide Mantissa, Pow10;
    ReadPoint(x, z);
    if z == [] {
      assert x + z == x;
    }
  }

  lemma TrimPoint(x: string, z: string)
    requires x != [] && AllDigits(x) && AllDigits(z)
    ensures TrimEnd(x + "." + z, '.') == if z == [] then x else x + "." + z
  {
    var t := x + "." + z;
    if z == [] {
      assert t[..|t| - 1] == x && t[|t| - 1] == '.';
    } else {
      assert t[|t| - 1] == z[|z| - 1];
    }
  }

  // ---------------------------------------------------------------- canonicity

  /** Ten times the amount at one more decimal prints one more zero. */
  lemma PadTimesTen(a: nat, d: nat)
    ensures Pad(ToString(10 * a), d + 2) == Pad(ToString(a), d + 1) + "0"
  {
    if a == 0 {
      assert Zeros(d + 1) + "0" == Zeros(d) + "0" + "0";
    } else {
      assert ToString(10 * a) == ToString(a) + "0";
      var k := d + 1 - |ToString(a)|;
      if k > 0 {
        assert Zeros(k) + (ToString(a) + "0") == Zeros(k) + ToString(a) + "0";
      }
    }
  }

  lemma FullTimesTen(a: nat, d: nat)
    ensures RealNumberString(10 * a, d + 1) == (if d > 0 then RealNumberString(a, d) else ToString(a) + ".") + "0"
  {
    hide ToString, Pad, InsertPoint;
    var s := Pad(ToString(a), d + 1);
    PadTimesTen(a, d);
    InsertShift(s, d);
    if d == 0 {
      PadOne(a);
    }
  }

  lemma InsertShift(s: string, d: nat)
    requires d <= |s|
    ensures InsertPoint(s + "0", d + 1) == InsertPoint(s, d) + "0" && InsertPoint(s, 0) == s + "."
  {
    var t := s + "0";
    assert t[..|t| - (d + 1)] == s[..|s| - d] && t[|t| - (d + 1)..] == s[|s| - d..] + "0";
  }

  lemma DropLast(s: string, c: char)
    ensures TrimEnd(s + [c], c) == TrimEnd(s, c)
  {
    assert (s + [c])[..|s|] == s;
  }

  lemma TrimmedTimesTen(a: nat, d: nat)
    ensures RealNumberStringTrimmed(10 * a, d + 1) == RealNumberStringTrimmed(a, d)
  {
    hide ToString, RealNumberString;
    FullTimesTen(a, d);
    if d > 0 {
      DropLast(RealNumberString(a, d), '0');
    } else {
      PadOne(a);
      DropLast(ToString(a) + ".", '0');
      DropLast(ToString(a), '.');
      assert RealNumberString(a, 0) == ToString(a) by { PlainForm(a); }
    }
  }

  lemma PlainForm(a: nat)
    ensures RealNumberString(a, 0) == ToString(a)
  {
  }

  lemma PadOne(a: nat)
    ensures Pad(ToString(a), 1) == ToString(a) && AllDigits(ToString(a))
  {
    ReadDigits(a);
  }

  lemma {:induction false} TrimmedScales(a: nat, d: nat, k: nat)
    ensures RealNumberStringTrimmed(a * Pow10(k), d + k) == RealNumberStringTrimmed(a, d)
  {
    hide RealNumberStringTrimmed;
    if k > 0 {
      TrimmedScales(a, d, k - 1);
      TrimmedTimesTen(a * Pow10(k - 1), d + k - 1);
      TimesTen(a, Pow10(k - 1));
    }
  }

  lemma TimesTen(a: nat, p: nat)
    ensures a * (10 * p) == 10 * (a * p)
  {
  }

  lemma {:induction false} Pow10Add(m: nat, n: nat)
    ensures Pow10(m + n) == Pow10(m) * Pow10(n)
  {
    if m > 0 {
      Pow10Add(m - 1, n);
      assert 10 * (Pow10(m - 1) * Pow10(n)) == (10 * Pow10(m - 1)) * Pow10(n);
    }
  }

  lemma Cancel(x: nat, y: nat, p: nat)
    requires p >= 1 && x * p == y * p
    ensures x == y
  {
    assert (x - y) * p == 0;
  }

  lemma CrossMultiply(a: nat, b: nat, m: nat, p: nat, q: nat, r: nat)
    requires m * p == a * r && m * q == b * r && r >= 1
    ensures a * q == b * p
  {
    assert (a * q) * r == (a * r) * q == (m * p) * q;
    assert (b * p) * r == (b * r) * p == (m * q) * p;
    assert (m * p) * q == (m * q) * p;
    Cancel(a * q, b * p, r);
  }

  /** Two amounts print the same trimmed form exactly when they are the same rational number. */
  lemma TrimmedIsCanonical(a: nat, d: nat, b: nat, e: nat)
    ensures RealNumberStringTrimmed(a, d) == RealNumberStringTrimmed(b, e) <==> a * Pow10(e) == b * Pow10(d)
  {
    if a * Pow10(e) == b * Pow10(d) {
      if d <= e { SameNumberSameForm(a, d, b, e); } else { SameNumberSameForm(b, e, a, d); }
    }
    if RealNumberStringTrimmed(a, d) == RealNumberStringTrimmed(b, e) {
      SameFormSameNumber(a, d, b, e);
    }
  }

  lemma SameNumberSameForm(a: nat, d: nat, b: nat, e: nat)
    requires d <= e && a * Pow10(e) == b * Pow10(d)
    ensures RealNumberStringTrimmed(a, d) == RealNumberStringTrimmed(b, e)
  {
    hide RealNumberStringTrimmed, Pow10;
    var k := e - d;
    Pow10Add(d, k);
    MoveFactor(a, Pow10(d), Pow10(k));
    Cancel(a * Pow10(k), b, Pow10(d));
    TrimmedScales(a, d, k);
  }

  lemma MoveFactor(a: nat, p: nat, q: nat)
    ensures a * (p * q) == (a * q) * p
  {
  }

  lemma SameFormSameNumber(a: nat, d: nat, b: nat, e: nat)
    requires RealNumberStringTrimmed(a, d) == RealNumberStringTrimmed(b, e)
    ensures a * Pow10(e) == b * Pow10(d)
  {
    hide RealNumberStringTrimmed, Pow10, Mantissa, Places;
    TrimmedDenotes(a, d);
    TrimmedDenotes(b, e);
    var s := RealNumberStringTrimmed(a, d);
    CrossMultiply(a, b, Mantissa(s), Pow10(d), Pow10(e), Pow10(Places(s)));
  }

  // ---------------------------------------------------------------- no superfluous zeros

  /** The integer part is a single zero, or does not start with one. */
  predicate NoLeadingZero(s: string) { s != [] && (s[0] == '0' && |s| > 1 ==> s[1] == '.') }

  lemma {:induction false} FirstDigit(n: nat)
    ensures ToString(n)[0] == '0' <==> n == 0
  {
    if n >= 10 {
      FirstDigit(n / 10);
    }
  }

  lemma FullHasNoLeadingZero(a: nat, d: nat)
    ensures NoLeadingZero(RealNumberString(a, d))
  {
    hide ToString;
    FirstDigit(a);
    assert ToString(0) == "0" by { ZeroDigit(); }
    var s := Pad(ToString(a), d + 1);
    if d > 0 && |ToString(a)| <= d {
      assert |s| == d + 1;
      assert InsertPoint(s, d)[1] == '.';
    } else if d > 0 {
      assert InsertPoint(s, d)[0] == ToString(a)[0];
    }
  }

  lemma ZeroDigit()
    ensures ToString(0) == "0"
  {
  }

  lemma {:induction false} TrimIsPrefix(s: string, c: char)
    ensures TrimEnd(s, c) <= s
  {
    if s != [] && s[|s| - 1] == c {
      TrimIsPrefix(s[..|s| - 1], c);
    }
  }

  /** Neither form has a superfluous leading zero. */
  lemma NoSuperfluousZero(a: nat, d: nat)
    ensures NoLeadingZero(RealNumberString(a, d)) && NoLeadingZero(RealNumberStringTrimmed(a, d))
  {
    hide RealNumberString, TrimEnd;
    FullHasNoLeadingZero(a, d);
    TrimmedDenotes(a, d);
    TrimIsPrefix(RealNumberString(a, d), '0');
    TrimIsPrefix(TrimEnd(RealNumberString(a, d), '0'), '.');
  }
}
