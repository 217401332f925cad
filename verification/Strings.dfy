/** src/kernel/libc/string.c: numbers as text. */
module Strings {
  import opened Bits

  const TWO_63: nat := 0x8000_0000_0000_0000

  type Radix = r: nat | 2 <= r <= 36 witness 10

  function Char(digit: nat): char
    requires digit < 36
  {
    if digit < 10 then '0' + digit as char else 'A' + (digit - 10) as char
  }

  /** The value of one digit character. */
  function Digit(c: char): nat {
    if '0' <= c <= '9' then (c - '0') as nat else if 'A' <= c <= 'Z' then (c - 'A') as nat + 10 else 0
  }

  /** The digits of n, most significant first. */
  function Text(n: nat, radix: Radix): (s: string)
    ensures s != []
  {
    (if n < radix then [] else Text(n / radix, radix)) + [Char(n % radix)]
  }

  /** What a string of digits denotes. */
  function Value(s: string, radix: Radix): nat {
    if s == [] then 0 else Value(s[..|s| - 1], radix) * radix + Digit(s[|s| - 1])
  }

  function Pow(radix: Radix, n: nat): nat {
    if n == 0 then 1 else Pow(radix, n - 1) * radix
  }

  function Reversed(s: string): (r: string)
    ensures |r| == |s| && forall i :: 0 <= i < |s| ==> r[i] == s[|s| - 1 - i]
  {
    seq(|s|, i requires 0 <= i < |s| => s[|s| - 1 - i])
  }

  lemma ReversedTwice(s: string)
    ensures Reversed(Reversed(s)) == s
  {}

  // ---- Text and value -----------------------------------------------------------------------------

  lemma LastDigit(s: string, c: char, radix: Radix)
    ensures Value(s + [c], radix) == Value(s, radix) * radix + Digit(c)
  {
    assert (s + [c])[..|s|] == s;
  }

  lemma TextIs(n: nat, radix: Radix)
    ensures n < radix ==> Text(n, radix) == [Char(n)]
    ensures n >= radix ==> Text(n, radix) == Text(n / radix, radix) + [Char(n % radix)]
  {
    if n < radix { assert n % radix == n; }
  }

  lemma CharDigit(d: nat)
    requires d < 36
    ensures Char(d) == "0123456789ABCDEFGHIJKLMNOPQRSTUVWXYZ"[d]
    ensures Digit(Char(d)) == d && (Char(d) == '0' <==> d == 0) && Char(d) != '-'
  {}

  /** Evaluating the digits of a number gives it back. */
  lemma {:induction false} ValueOfText(n: nat, radix: Radix)
    ensures Value(Text(n, radix), radix) == n
    decreases n
  {
    TextIs(n, radix);
    hide Text, Char, Digit, Value;
    if n < radix {
      LastDigit([], Char(n), radix);
      CharDigit(n);
      assert [] + [Char(n)] == [Char(n)];
      assert Value([], radix) == 0 by { ValueOfNone(radix); }
    } else {
      Smaller(n, radix);
      ValueOfText(n / radix, radix);
      CharDigit(n % radix);
      LastDigit(Text(n / radix, radix), Char(n % radix), radix);
    }
  }

  lemma ValueOfNone(radix: Radix)
    ensures Value([], radix) == 0
  {}

  lemma Smaller(n: nat, radix: Radix)
    requires n >= radix
    ensures 0 < n / radix < n && n == n / radix * radix + n % radix
  {}

  /** No number but 0 starts with the digit 0. */
  lemma {:induction false} NoLeadingZero(n: nat, radix: Radix)
    ensures Text(n, radix)[0] == '0' <==> n == 0
    ensures n == 0 ==> Text(n, radix) == "0"
    decreases n
  {
    if n >= radix {
      Smaller(n, radix);
      NoLeadingZero(n / radix, radix);
    }
  }

  /** A number has at most w digits exactly when it is below the radix to the power w. */
  lemma {:induction false} LengthIs(n: nat, radix: Radix, w: nat)
    requires w > 0
    ensures |Text(n, radix)| <= w <==> n < Pow(radix, w)
    decreases n
  {
    if n < radix {
      PowGrows(radix, w);
    } else if w == 1 {
      assert Pow(radix, 1) == radix;
    } else {
      Smaller(n, radix);
      LengthIs(n / radix, radix, w - 1);
      Carry(n, radix, Pow(radix, w - 1));
    }
  }

  lemma Carry(n: nat, radix: Radix, p: nat)
    ensures n / radix < p <==> n < p * radix
  {
    var q := n / radix;
    if q < p {
      assert (q + 1) * radix <= p * radix;
    } else {
      assert p * radix <= q * radix;
    }
  }

  lemma {:induction false} PowGrows(radix: Radix, w: nat)
    requires w > 0
    ensures Pow(radix, w) >= radix
  {
    if w == 1 {
      assert Pow(radix, 1) == radix;
    } else {
      PowGrows(radix, w - 1);
      assert Pow(radix, w - 1) * radix >= radix * 1;
    }
  }

  lemma {:induction false} PowOfTwo(radix: Radix, w: nat)
    ensures Pow(radix, w) >= Pow(2, w)
  {
    if w > 0 {
      PowStep(radix, w);
      PowStep(2, w);
      PowOfTwo(radix, w - 1);
      hide Pow;
      calc {
        Pow(radix, w);
      ==
        Pow(radix, w - 1) * radix;
      >= { MulMonotone(Pow(radix, w - 1), Pow(2, w - 1), radix, 2); }
        Pow(2, w - 1) * 2;
      ==
        Pow(2, w);
      }
    }
  }

  lemma PowStep(radix: Radix, w: nat)
    requires w > 0
    ensures Pow(radix, w) == Pow(radix, w - 1) * radix
  {}

  lemma MulMonotone(a: nat, b: nat, c: nat, d: nat)
    requires a >= b && c >= d
    ensures a * c >= b * d
  {
    calc {
      a * c;
    ==
      b * c + (a - b) * c;
    >=
      b * c;
    ==
      b * d + b * (c - d);
    >=
      b * d;
    }
  }

  lemma PowValues()
    ensures Pow(2, 64) == TWO_64 && Pow(10, 19) == 10_000_000_000_000_000_000
  {
    assert Pow(2, 8) == 0x100;
    PowAdds(2, 8, 8);
    PowAdds(2, 16, 16);
    PowAdds(2, 32, 32);
    assert Pow(10, 5) == 100_000 && Pow(10, 4) == 10_000;
    PowAdds(10, 5, 5);
    PowAdds(10, 10, 5);
    PowAdds(10, 15, 4);
  }

  lemma {:induction false} PowAdds(radix: Radix, a: nat, b: nat)
    ensures Pow(radix, a + b) == Pow(radix, a) * Pow(radix, b)
    decreases b
  {
    if b > 0 {
      PowStep(radix, a + b);
      PowStep(radix, b);
      PowAdds(radix, a, b - 1);
      hide Pow;
      var x, y := Pow(radix, a), Pow(radix, b - 1);
      calc {
        Pow(radix, a + b);
      ==
        (x * y) * radix;
      == { MulAssociates(x, y, radix); }
        x * (y * radix);
      ==
        x * Pow(radix, b);
      }
    } else {
      assert Pow(radix, 0) == 1;
    }
  }

  lemma MulAssociates(x: nat, y: nat, z: nat)
    ensures (x * y) * z == x * (y * z)
  {}

  /** 64 digits are enough for every 64-bit number, in every radix. */
  lemma AtMost64(n: nat, radix: Radix)
    requires n < TWO_64
    ensures |Text(n, radix)| <= 64
  {
    PowValues();
    PowOfTwo(radix, 64);
    LengthIs(n, radix, 64);
  }

  lemma OneMoreDigit(v: nat, p: nat, d: nat, radix: Radix)
    requires v < p && d < radix
    ensures v * radix + d < p * radix
  {
    assert (v + 1) * radix <= p * radix;
  }

  /** What digits denote is below the radix to the power of their number. */
  lemma {:induction false} ValueBound(s: string, radix: Radix)
    requires forall c :: c in s ==> Digit(c) < radix
    ensures Value(s, radix) < Pow(radix, |s|)
  {
    if s != [] {
      var r, c := s[..|s| - 1], s[|s| - 1];
      assert forall x :: x in r ==> x in s;
      assert c in s;
      assert s == r + [c];
      LastDigit(r, c, radix);
      assert Pow(radix, |s|) == Pow(radix, |r|) * radix;
      ValueBound(r, radix);
      hide Value, Pow, Digit;
      OneMoreDigit(Value(r, radix), Pow(radix, |r|), Digit(c), radix);
    }
  }

  lemma {:induction false} DigitsSmall(n: nat, radix: Radix)
    ensures forall c :: c in Text(n, radix) ==> Digit(c) < radix && c != '-'
    decreases n
  {
    if n >= radix {
      Smaller(n, radix);
      DigitsSmall(n / radix, radix);
    }
  }

  // ---- itoa as a function -------------------------------------------------------------------------

  function Abs(num: int): nat { if num < 0 then -num else num }

  /** The text itoa leaves for a buffer length of at least 2: a number whose digits do not fit is left
      as its low digits, backwards and without a sign. */
  function Itoa(num: int, len: nat, radix: Radix): string
    requires len >= 2
  {
    var digits := Text(Abs(num), radix);
    if |digits| <= len - 1 then (if num < 0 then "-" else "") + digits
    else Reversed(digits)[..len - 1]
  }

  function Parse(s: string, radix: Radix): int {
    if s != [] && s[0] == '-' then 0 - Value(s[1..], radix) else Value(s, radix)
  }

  /** itoa keeps sign and value exactly when the digits fit in len - 1. */
  lemma ItoaRoundTrips(num: int, len: nat, radix: Radix)
    requires len >= 2
    ensures Parse(Itoa(num, len, radix), radix) == num <==> |Text(Abs(num), radix)| <= len - 1
  {
    var digits := Text(Abs(num), radix);
    DigitsSmall(Abs(num), radix);
    hide Text, Value, Digit, Pow;
    if |digits| <= len - 1 {
      ValueOfText(Abs(num), radix);
      assert digits[0] in digits;
      assert ("-" + digits)[1..] == digits && "" + digits == digits;
    } else {
      var low := Reversed(digits)[..len - 1];
      assert forall c :: c in low ==> c in digits;
      assert low[0] in low;
      ValueBound(low, radix);
      LengthIs(Abs(num), radix, len - 1);
    }
  }

  /** Base 10 and a length of 21, as printf uses it, are always enough. */
  lemma DecimalFits(num: int)
    requires 0 - TWO_63 < num < TWO_63
    ensures Parse(Itoa(num, 21, 10), 10) == num
  {
    PowValues();
    LengthIs(Abs(num), 10, 19);
    ItoaRoundTrips(num, 21, 10);
  }

  // ---- The code -----------------------------------------------------------------------------------

  method StrRev(str: array<char>, len: nat)
    requires len <= str.Length
    modifies str
    ensures str[..len] == Reversed(old(str[..len])) && str[len..] == old(str[len..])
  {
    var i, j := 0, len - 1;
    while i < j
      invariant 0 <= i <= len && j == len - 1 - i && i <= j + 1
      invariant forall k :: 0 <= k < len && (k < i || k > j) ==> str[k] == old(str[len - 1 - k])
      invariant forall k :: i <= k <= j ==> str[k] == old(str[k])
      invariant forall k :: len <= k < str.Length ==> str[k] == old(str[k])
    {
      str[i], str[j] := str[j], str[i];
      i, j := i + 1, j - 1;
    }
    assert forall k :: 0 <= k < len ==> str[..len][k] == Reversed(old(str[..len]))[k];
    assert str[len..] == old(str[len..]);
  }

  lemma Quotient(n: nat, radix: Radix)
    ensures n / radix == 0 <==> n < radix
  {}

  /** The digits of num that the loop has produced, backwards, and the number still to do. */
  ghost predicate Produced(num: nat, radix: Radix, rest: nat, written: string) {
    Text(num, radix) == (if rest == 0 then [] else Text(rest, radix)) + Reversed(written)
  }

  lemma Shrinks(n: nat, radix: Radix)
    ensures n / radix < n || n / radix == 0
  {
    if n >= radix { Smaller(n, radix); }
  }

  lemma ProducedMore(num: nat, radix: Radix, rest: nat, next: nat, was: string, now: string)
    requires now == was + [Char(rest % radix)] && next == rest / radix
    requires if was == [] then rest == num else rest != 0 && Produced(num, radix, rest, was)
    ensures Produced(num, radix, next, now)
  {
    TextIs(rest, radix);
    Quotient(rest, radix);
    if rest >= radix { Smaller(rest, radix); }
    hide Text, Char;
    assert Reversed(now) == [Char(rest % radix)] + Reversed(was);
    if rest < radix { assert rest % radix == rest; }
    if was == [] {
      assert Reversed(was) == [];
    }
  }

  lemma ProducedLength(num: nat, radix: Radix, rest: nat, written: string)
    requires Produced(num, radix, rest, written)
    ensures |written| + (if rest == 0 then 0 else 1) <= |Text(num, radix)|
    ensures rest == 0 ==> Reversed(written) == Text(num, radix) && |written| == |Text(num, radix)|
    ensures written == Reversed(Text(num, radix))[..|written|]
  {
    hide Text;
    if rest != 0 { assert |Text(rest, radix)| >= 1; }
    assert Reversed(Text(num, radix))[..|written|] == Reversed(Reversed(written));
    ReversedTwice(written);
    if rest == 0 { assert [] + Reversed(written) == Reversed(written); }
  }

  /** One digit of either loop: the lowest of what is left, behind those already there. */
  method PutDigit(ghost num: nat, base: Radix, rest: nat, str: array<char>, i: nat) returns (next: nat)
    requires i < str.Length && if i == 0 then rest == num else rest != 0 && Produced(num, base, rest, str[..i])
    modifies str
    ensures (next == 0 || next < rest) && Produced(num, base, next, str[..i + 1])
    ensures str[i + 1..] == old(str[i + 1..])
    ensures i == 0 ==> str[0] == Char(num % base)
  {
    hide *;
    ghost var was := str[..i];
    var c := Char(rest % base);
    next := rest / base;
    Shrinks(rest, base);
    str[i] := c;
    assert str[..i + 1] == was + [c];
    ProducedMore(num, base, rest, next, was, str[..i + 1]);
  }

  /** The digits of num, at the start of str; nothing else of it changes. */
  method Ultoa(num: nat, str: array<char>, radix: Radix) returns (strLoc: nat)
    requires num < TWO_64 && |Text(num, radix)| <= str.Length
    modifies str
    ensures strLoc == |Text(num, radix)| && str[..strLoc] == Text(num, radix)
    ensures str[strLoc..] == old(str[strLoc..])
  {
    hide *;
    var temp := new char[65];
    var tempLoc: nat, n: nat := 0, num;
    AtMost64(num, radix);
    while true
      invariant tempLoc < 65 && if tempLoc == 0 then n == num else n != 0 && Produced(num, radix, n, temp[..tempLoc])
      invariant str[..] == old(str[..])
      decreases n
    {
      n := PutDigit(num, radix, n, temp, tempLoc);
      tempLoc := tempLoc + 1;
      ProducedLength(num, radix, n, temp[..tempLoc]);
      if n == 0 {
        break;
      }
    }
    strLoc := CopyBack(temp, tempLoc, str);
  }

  /** The second loop of ultoa. */
  method CopyBack(temp: array<char>, tempLoc: nat, str: array<char>) returns (strLoc: nat)
    requires tempLoc <= temp.Length && tempLoc <= str.Length && temp != str
    modifies str
    ensures strLoc == tempLoc && str[..strLoc] == Reversed(temp[..tempLoc])
    ensures str[strLoc..] == old(str[strLoc..])
  {
    strLoc := 0;
    var loc := tempLoc - 1;
    while loc >= 0
      invariant -1 <= loc < tempLoc && strLoc == tempLoc - 1 - loc
      invariant forall k :: 0 <= k < strLoc ==> str[k] == temp[tempLoc - 1 - k]
      invariant forall k :: strLoc <= k < str.Length ==> str[k] == old(str[k])
    {
      str[strLoc] := temp[loc];
      strLoc, loc := strLoc + 1, loc - 1;
    }
  }

  /** The digit loop of itoa. */
  method WriteDigits(num: nat, str: array<char>, len: int, base: Radix) returns (i: nat, sum: nat)
    requires str.Length >= 1 && str.Length >= len
    modifies str
    ensures 1 <= i <= str.Length && Produced(num, base, sum, str[..i]) && str[i..] == old(str[i..])
    ensures len >= 2 ==> i <= len - 1 && (sum != 0 ==> i == len - 1)
    ensures len < 2 ==> i == 1
    ensures i == 1 ==> str[0] == Char(num % base)
  {
    hide *;
    i, sum := 0, num;
    while true
      invariant i < str.Length && (i == 0 || i < len - 1)
      invariant if i == 0 then sum == num else sum != 0 && Produced(num, base, sum, str[..i])
      invariant str[i..] == old(str[i..])
      decreases sum
    {
      sum := PutDigit(num, base, sum, str, i);
      i := i + 1;
      if !(sum != 0 && i < len - 1) {
        break;
      }
    }
  }

  /** The end of itoa: the sign, and the digits the right way round. */
  method SignAndReverse(num: int, str: array<char>, digits: nat) returns (i: nat)
    requires digits < str.Length || (num >= 0 && digits == str.Length)
    modifies str
    ensures i == (if num < 0 then digits + 1 else digits) <= str.Length
    ensures str[..i] == (if num < 0 then "-" else "") + Reversed(old(str[..digits]))
    ensures str[i..] == old(str[i..])
  {
    hide Reversed;
    i := digits;
    if num < 0 {
      str[i] := '-';
      i := i + 1;
      assert str[..i] == old(str[..digits]) + ['-'];
      ReversedSign(old(str[..digits]));
    }
    StrRev(str, i);
  }

  lemma ReversedSign(s: string)
    ensures Reversed(s + ['-']) == "-" + Reversed(s)
  {}

  lemma LaterTail(x: string, y: string, i: nat, j: nat)
    requires |x| == |y| && i <= j <= |x| && x[i..] == y[i..]
    ensures x[j..] == y[j..]
  {
    assert x[j..] == x[i..][j - i..] && y[j..] == y[i..][j - i..];
  }

  lemma TailOf(a: array<char>, i: nat)
    requires i <= a.Length
    ensures a[i..] == a[..][i..]
  {}

  /** The number with its sign, when its digits fit in len - 1.  A length below 2 leaves only the last
      digit. */
  method ItoaInto(num: int, str: array<char>, len: int, base: Radix) returns (i: nat)
    requires 0 - TWO_63 < num < TWO_63
    requires len != 0 ==> str.Length >= 2 && str.Length >= len
    modifies str
    ensures len == 0 ==> i == 0 && str[..] == old(str[..])
    ensures len >= 2 ==> i == |Itoa(num, len, base)| <= str.Length && str[..i] == Itoa(num, len, base)
    ensures len < 0 || len == 1 ==> i <= 2 && str[..i] == (if num < 0 then "-" else "") + [Char(Abs(num) % base)]
    ensures i <= str.Length && str[i..] == old(str[i..])
  {
    hide Text, Char, Produced, Reversed;
    ghost var was := str[..];
    if len == 0 {
      return 0;
    }
    var sum;
    i, sum := WriteDigits(Abs(num), str, len, base);
    ProducedLength(Abs(num), base, sum, str[..i]);
    if i == len - 1 && sum != 0 {
      return i;
    }
    ghost var digits, mid := i, str[..];
    if len < 2 { OneReversed(str[..i]); }
    TailOf(str, i);
    assert mid[digits..] == was[digits..];
    i := SignAndReverse(num, str, i);
    LaterTail(mid, was, digits, i);
    assert str[i..] == mid[i..] == was[i..];
  }

  lemma OneReversed(s: string)
    requires |s| == 1
    ensures Reversed(s) == s
  {}
}
