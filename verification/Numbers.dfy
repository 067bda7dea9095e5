/** The C library's reading of decimal numbers. */
module Numbers {
  import opened XmlText

  predicate IsDigit(c: char) {
    '0' <= c <= '9'
  }

  function Digits(s: string, n: nat): nat {
    if s == [] || !IsDigit(s[0]) then n else Digits(s[1..], 10 * n + (s[0] as int - '0' as int))
  }

  /** `atoi`, for numbers in the range of `int`. */
  function Atoi(s: string): int {
    var t := DropSpace(s);
    if t != [] && t[0] == '-' then -(Digits(t[1..], 0) as int)
    else if t != [] && t[0] == '+' then Digits(t[1..], 0)
    else Digits(t, 0)
  }
  /** `n` in decimal. */
  function ToDecimal(n: nat): (s: string)
    ensures s != []
  {
    if n < 10 then ['0' + n as char] else ToDecimal(n / 10) + ['0' + (n % 10) as char]
  }

  lemma {:induction false} DigitsOfJoined(s: string, c: char, x: string, m: nat)
    requires (forall i :: 0 <= i < |s| ==> IsDigit(s[i])) && IsDigit(c) && (x == [] || !IsDigit(x[0]))
    ensures Digits(s + [c] + x, m) == 10 * Digits(s, m) + (c as int - '0' as int)
    decreases |s|
  {
    if s == [] {
      assert s + [c] + x == [c] + x && ([c] + x)[1..] == x;
    } else {
      assert (s + [c] + x)[1..] == s[1..] + [c] + x;
      DigitsOfJoined(s[1..], c, x, 10 * m + (s[0] as int - '0' as int));
    }
  }

  lemma {:induction false} DecimalIsDecimal(n: nat, x: string)
    requires x == [] || !IsDigit(x[0])
    ensures (forall i :: 0 <= i < |ToDecimal(n)| ==> IsDigit(ToDecimal(n)[i])) && Digits(ToDecimal(n) + x, 0) == n
    decreases n
  {
    if n < 10 {
      assert (ToDecimal(n) + x)[1..] == x;
    } else {
      DecimalIsDecimal(n / 10, "");
      assert ToDecimal(n / 10) + "" == ToDecimal(n / 10);
      DigitsOfJoined(ToDecimal(n / 10), '0' + (n % 10) as char, x, 0);
    }
  }

  lemma SignedDigits(d: string)
    requires d != [] && IsDigit(d[0])
    ensures Atoi(d) == Digits(d, 0) && Atoi("-" + d) == -(Digits(d, 0) as int) && Atoi("+" + d) == Digits(d, 0)
  {
    hide Digits;
    assert ("-" + d)[1..] == d && ("+" + d)[1..] == d;
  }

  /** `atoi` undoes writing a number in decimal, with a sign or without, whatever follows its digits. */
  lemma AtoiOfDecimal(n: nat, x: string)
    requires x == [] || !IsDigit(x[0])
    ensures Atoi(ToDecimal(n) + x) == n && Atoi("-" + ToDecimal(n) + x) == -(n as int)
    ensures Atoi("+" + ToDecimal(n) + x) == n
  {
    hide *;
    var w := ToDecimal(n);
    DecimalIsDecimal(n, x);
    assert (w + x)[0] == w[0];
    SignedDigits(w + x);
    assert "-" + w + x == "-" + (w + x) && "+" + w + x == "+" + (w + x);
  }

  lemma {:induction false} DecimalHasValue(n: nat)
    ensures AreDecimalDigits(ToDecimal(n)) && DecimalValue(ToDecimal(n)) == n
    decreases n
  {
    var d := ToDecimal(n);
    if n < 10 {
      assert d[..0] == [] && DecimalValue([]) == 0;
    } else {
      DecimalHasValue(n / 10);
      assert d[..|d| - 1] == ToDecimal(n / 10);
    }
  }

  /** A character reference in decimal is read as its number. */
  lemma DecimalReferenceRoundTrip(n: nat, rest: string)
    requires n < UINT_RANGE
    ensures GetEntity("&#" + ToDecimal(n) + ";" + rest) == Reference(n, rest)
  {
    hide GetEntity, ToDecimal;
    DecimalHasValue(n);
    DecimalReferenceIsRead(ToDecimal(n), rest);
  }
}
