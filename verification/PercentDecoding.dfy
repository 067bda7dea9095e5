/** Percent decoding of paths and queries. */
module PercentDecoding {
  import opened Options
  import opened XmlText

  const DIGITS := "0123456789ABCDEF"

  function ByteString(v: nat): string
    requires v < 256
  {
    if v == 0 then [] else [v as char]
  }

  function Prepend(s: string, rest: Option<string>): Option<string> {
    if rest.Some? then Some(s + rest.value) else None
  }

  /** Past the escape at the front of `s`: three characters, or fewer at the end. */
  function EscapeEnd(s: string): (n: nat)
    requires s != []
    ensures 1 <= n <= |s| && n <= 3
  {
    if |s| < 3 then |s| else 3
  }

  /** A NUL among the decoded bytes disappears; a cut escape counts the digits there are. */
  function Decode(s: string): Option<string>
    decreases |s|
  {
    if s == [] then Some([])
    else if s[0] != '%' then Prepend([s[0]], Decode(s[1..]))
    else
      var hex := s[1..EscapeEnd(s)];
      if IsHexDigits(hex) then Prepend(ByteString(ShortValue(hex)), Decode(s[EscapeEnd(s)..])) else None
  }

  function ShortValue(hex: string): (v: nat)
    requires IsHexDigits(hex) && |hex| <= 2
    ensures v < 256
  {
    ShortIsSmall(hex);
    HexValue(hex)
  }

  lemma ShortIsSmall(hex: string)
    requires IsHexDigits(hex) && |hex| <= 2
    ensures HexValue(hex) < 256
  {
    if hex != [] {
      var init := hex[..|hex| - 1];
      assert init != [] ==> HexValue(init) == DigitOf(init[0], 16);
    }
  }

  // ---------- The code ----------

  function Upper(c: char): char {
    if 'a' <= c <= 'f' then (c as int - 'a' as int + 'A' as int) as char else c
  }

  lemma TableIs(t: nat)
    requires t < 16
    ensures DIGITS[t] as int == if t < 10 then '0' as int + t else 'A' as int + t - 10
  {
  }

  lemma DigitIs(c: char, t: nat)
    requires t < 16
    ensures DIGITS[t] == Upper(c) <==> DigitOf(c, 16) == t
  {
    TableIs(t);
  }

  /** The table search of `hex_to_char`. */
  method FindDigit(c: char) returns (t: int)
    ensures t == DigitOf(c, 16)
  {
    var cur := Upper(c);
    t := 0;
    while t < 16 && DIGITS[t] != cur
      invariant 0 <= t <= 16 && (DigitOf(c, 16) < 0 || DigitOf(c, 16) >= t)
    {
      DigitIs(c, t);
      t := t + 1;
    }
    if t < 16 {
      DigitIs(c, t);
    } else {
      t := -1;
    }
  }

  const BYTE: int := 256

  /** What a 32-bit `int` keeps of a result. */
  function Wrap(x: int): int {
    (x + 0x8000_0000) % 0x1_0000_0000 - 0x8000_0000
  }

  lemma WrapIs(x: int) returns (k: int)
    ensures Wrap(x) == x + BYTE * k
  {
    k := -(0x100_0000 * ((x + 0x8000_0000) / 0x1_0000_0000));
  }

  /** One turn of the digit loop, up to multiples of 256. */
  lemma TurnKeeps(value: int, res: int, power: int, t: int, rest: nat, m: int) returns (m': int)
    requires value == res + power * (16 * rest + t) + BYTE * m
    ensures value == Wrap(res + Wrap(t * power)) + Wrap(power * 16) * rest + BYTE * m'
  {
    hide Wrap;
    var a := WrapIs(t * power);
    var b := WrapIs(res + Wrap(t * power));
    var c := WrapIs(power * 16);
    m' := m - a - b - c * rest;
    Expand(power, rest, t, c);
  }

  lemma Expand(power: int, rest: int, t: int, c: int)
    ensures power * (16 * rest + t) == power * 16 * rest + t * power
    ensures (power * 16 + BYTE * c) * rest == power * 16 * rest + BYTE * (c * rest)
  {
  }

  lemma OneMoreDigit(source: string, i: nat)
    requires i < |source| && IsHexDigits(source)
    ensures IsHexDigits(source[..i + 1]) && IsHexDigits(source[..i])
    ensures HexValue(source[..i + 1]) == 16 * HexValue(source[..i]) + DigitOf(source[i], 16)
  {
    hide HexValue;
    assert source[..i + 1][..i] == source[..i];
    HexValueOfLast(source[..i + 1]);
  }

  lemma NoDigitsLeft(source: string)
    ensures IsHexDigits(source[..0]) && HexValue(source[..0]) == 0
    ensures forall i :: 0 <= i <= |source| && IsHexDigits(source) ==> IsHexDigits(source[..i])
    ensures (forall j :: 0 <= j < |source| ==> DigitOf(source[j], 16) >= 0) <==> IsHexDigits(source)
  {
  }

  lemma LowByte(value: nat, res: int, m: int)
    requires value == res + BYTE * m
    ensures res % BYTE == value % BYTE
  {
  }

  /** The digits are summed from the last one backwards in an `int`, which wraps; the byte stored is the low byte of
      the value all the same. */
  method HexToChar(source: string) returns (ok: bool, dest: nat)
    ensures ok <==> IsHexDigits(source)
    ensures ok ==> dest == HexValue(source) % BYTE
  {
    hide HexValue, IsHexDigits, Wrap;
    var res, power := 0, 1;
    var i := |source| - 1;
    NoDigitsLeft(source);
    assert source[..i + 1] == source;
    ghost var m := 0;
    while i != -1
      invariant -1 <= i < |source|
      invariant forall j :: i < j < |source| ==> DigitOf(source[j], 16) >= 0
      invariant IsHexDigits(source) ==> HexValue(source) == res + power * HexValue(source[..i + 1]) + BYTE * m
      decreases i + 1
    {
      var t := FindDigit(source[i]);
      if t < 0 {
        return false, 0;
      }
      if IsHexDigits(source) {
        OneMoreDigit(source, i);
        m := TurnKeeps(HexValue(source), res, power, t, HexValue(source[..i]), m);
      }
      res := Wrap(res + Wrap(t * power));
      power := Wrap(power * 16);
      i := i - 1;
    }
    LowByte(HexValue(source), res, m);
    return true, res % BYTE;
  }

  /** `unconvert_hexa`: the string is replaced only if all of it can be decoded. */
  method UnconvertHexa(str: string) returns (ok: bool, decoded: string)
    ensures match Decode(str)
            case Some(d) => ok && decoded == d
            case None => !ok && decoded == str
  {
    hide Decode, IsHexDigits, HexValue, ByteString, ShortValue, Prepend;
    var ret := "";
    var i := 0;
    NothingDecoded(str);
    while i < |str|
      invariant 0 <= i
      invariant Prepend(ret, Decode(if i <= |str| then str[i..] else [])) == Decode(str)
    {
      DecodeStep(str[i..], ret);
      EscapeAt(str, i);
      if str[i] == '%' {
        var end := if i + 3 <= |str| then i + 3 else |str|;
        var hex := str[i + 1..end];
        var digits, value := HexToChar(hex);
        if !digits {
          return false, str;
        }
        ShortIs(hex);
        ret := ret + ByteString(value);
        i := i + 2;
      } else {
        ret := ret + [str[i]];
      }
      i := i + 1;
    }
    assert i == |str| ==> str[i..] == [];
    AllDecoded(ret);
    return true, ret;
  }

  lemma NothingDecoded(str: string)
    ensures Prepend("", Decode(str[0..])) == Decode(str)
  {
    hide Decode;
    assert str[0..] == str && forall s: string :: "" + s == s;
  }

  lemma AllDecoded(ret: string)
    ensures Prepend(ret, Decode([])) == Some(ret)
  {
    assert ret + [] == ret;
  }

  lemma EscapeAt(str: string, i: nat)
    requires i < |str|
    ensures str[i..] != [] && str[i..][0] == str[i] && str[i..][1..] == str[i + 1..]
    ensures var end, n := if i + 3 <= |str| then i + 3 else |str|, EscapeEnd(str[i..]);
            end == i + n && str[i + 1..end] == str[i..][1..n] && str[end..] == str[i..][n..]
  {
  }

  lemma ShortIs(hex: string)
    requires IsHexDigits(hex) && |hex| <= 2
    ensures HexValue(hex) < BYTE && ShortValue(hex) == HexValue(hex)
  {
    ShortIsSmall(hex);
  }

  lemma DecodeStep(s: string, ret: string)
    requires s != []
    ensures Prepend(ret, Decode(s))
         == if s[0] != '%' then Prepend(ret + [s[0]], Decode(s[1..]))
            else
              var hex := s[1..EscapeEnd(s)];
              if IsHexDigits(hex) then Prepend(ret + ByteString(ShortValue(hex)), Decode(s[EscapeEnd(s)..])) else None
  {
    var rest := if s[0] != '%' then Decode(s[1..]) else Decode(s[EscapeEnd(s)..]);
    if rest.Some? {
      if s[0] != '%' {
        assert ret + ([s[0]] + rest.value) == ret + [s[0]] + rest.value;
      } else if IsHexDigits(s[1..EscapeEnd(s)]) {
        var b := ByteString(ShortValue(s[1..EscapeEnd(s)]));
        assert ret + (b + rest.value) == ret + b + rest.value;
      }
    }
  }

  // ---------- Encodings ----------

  /** `e` writes each byte of `s` as itself, unless it is '%', or as '%' and two digits in any case. */
  predicate IsEncoding(e: string, s: string)
    decreases |e|
  {
    if e == [] then s == []
    else if e[0] == '%' then
      && |e| >= 3 && IsHexDigits(e[1..3]) && s != [] && s[0] as int == ShortValue(e[1..3])
      && IsEncoding(e[3..], s[1..])
    else s != [] && s[0] == e[0] && IsEncoding(e[1..], s[1..])
  }

  /** Some escape has a character that is no digit. */
  predicate BadEscape(e: string)
    decreases |e|
  {
    if e == [] then false
    else if e[0] == '%' then !IsHexDigits(e[1..EscapeEnd(e)]) || BadEscape(e[EscapeEnd(e)..])
    else BadEscape(e[1..])
  }

  /** Every escape has two digits that are not both zero. */
  predicate Whole(e: string)
    decreases |e|
  {
    if e == [] then true
    else if e[0] == '%' then |e| >= 3 && IsHexDigits(e[1..3]) && ShortValue(e[1..3]) != 0 && Whole(e[3..])
    else Whole(e[1..])
  }

  /** The characters and escapes of `e`. */
  function Units(e: string): nat
    decreases |e|
  {
    if e == [] then 0 else 1 + Units(if e[0] == '%' then e[EscapeEnd(e)..] else e[1..])
  }

  lemma {:induction false} EncodedLength(e: string, s: string)
    requires IsEncoding(e, s)
    ensures |s| == Units(e) && !BadEscape(e)
    decreases |e|
  {
    if e != [] {
      EncodedLength(e[if e[0] == '%' then 3 else 1..], s[1..]);
    }
  }

  lemma {:induction false} BadEscapesFail(e: string)
    ensures BadEscape(e) <==> Decode(e).None?
    decreases |e|
  {
    if e != [] {
      BadEscapesFail(if e[0] == '%' then e[EscapeEnd(e)..] else e[1..]);
    }
  }

  /** What a text without bad escapes decodes to is what it encodes exactly if its escapes are whole. */
  lemma {:induction false} DecodedIsEncoded(e: string)
    requires !BadEscape(e)
    ensures Decode(e).Some? && |Decode(e).value| <= Units(e)
    ensures IsEncoding(e, Decode(e).value) <==> Whole(e)
    decreases |e|
  {
    if e != [] {
      var escape := e[0] == '%';
      var rest := if escape then e[EscapeEnd(e)..] else e[1..];
      var first := if escape then ByteString(ShortValue(e[1..EscapeEnd(e)])) else [e[0]];
      DecodedIsEncoded(rest);
      var d := Decode(rest).value;
      assert Decode(e) == Some(first + d);
      if first == [] {
        assert first + d == d;
        if IsEncoding(e, d) {
          EncodedLength(rest, d[1..]);
        }
      } else {
        assert (first + d)[1..] == d;
      }
    }
  }

  lemma {:induction false} WholeDecodes(e: string, s: string)
    requires Whole(e)
    ensures Decode(e) == Some(s) <==> IsEncoding(e, s)
    decreases |e|
  {
    if e != [] {
      var n := if e[0] == '%' then 3 else 1;
      var first := if e[0] == '%' then ByteString(ShortValue(e[1..3])) else [e[0]];
      assert Decode(e) == Prepend(first, Decode(e[n..]));
      assert |first| == 1;
      if s != [] {
        WholeDecodes(e[n..], s[1..]);
        assert Decode(e[n..]).Some? ==> (s == first + Decode(e[n..]).value <==>
                                         s[0] == first[0] && s[1..] == Decode(e[n..]).value);
      }
    }
  }

  /** Decoding inverts encoding, for all strings alike, exactly on the texts with a bad escape, which decode to
      nothing and encode nothing, and on those whose escapes are all whole. */
  lemma DecodesExactly(e: string)
    ensures (forall s :: Decode(e) == Some(s) <==> IsEncoding(e, s)) <==> BadEscape(e) || Whole(e)
  {
    hide *;
    BadEscapesFail(e);
    if BadEscape(e) {
      forall s ensures !IsEncoding(e, s) {
        if IsEncoding(e, s) {
          EncodedLength(e, s);
        }
      }
    } else if Whole(e) {
      forall s ensures Decode(e) == Some(s) <==> IsEncoding(e, s) {
        WholeDecodes(e, s);
      }
    } else {
      DecodedIsEncoded(e);
      assert Decode(e) == Some(Decode(e).value);
    }
  }

  lemma {:induction false} EncodingsAreWhole(e: string, s: string)
    requires NulFree(s) && IsEncoding(e, s)
    ensures Whole(e)
    decreases |e|
  {
    if e != [] {
      assert s[0] in s && forall c :: c in s[1..] ==> c in s;
      EncodingsAreWhole(e[if e[0] == '%' then 3 else 1..], s[1..]);
    }
  }

  lemma EncodingRoundTrip(e: string, s: string)
    requires NulFree(s) && IsEncoding(e, s)
    ensures Decode(e) == Some(s)
  {
    EncodingsAreWhole(e, s);
    WholeDecodes(e, s);
  }

  /** A NUL-free byte string with every byte escaped. */
  function EscapeAll(s: string): string
    requires forall i :: 0 <= i < |s| ==> s[i] as int < 256
  {
    if s == [] then [] else ['%', HexDigit(s[0] as int / 16), HexDigit(s[0] as int % 16)] + EscapeAll(s[1..])
  }

  lemma {:induction false} EveryStringHasAnEncoding(s: string)
    requires forall i :: 0 <= i < |s| ==> s[i] as int < 256
    ensures IsEncoding(EscapeAll(s), s)
    decreases |s|
  {
    if s != [] {
      var e := EscapeAll(s);
      var hex := e[1..3];
      assert hex == [HexDigit(s[0] as int / 16), HexDigit(s[0] as int % 16)] && e[3..] == EscapeAll(s[1..]);
      assert hex[..1] == [hex[0]] && [hex[0]][..0] == [];
      assert HexValue(hex[..1]) == DigitOf(hex[0], 16);
      EveryStringHasAnEncoding(s[1..]);
    }
  }

  // Cut escapes and escaped NULs decode, but not to what was written.

  lemma CutEscape()
    ensures Decode("%4") == Some([4 as char]) && !Whole("%4")
  {
    assert "4"[..0] == "" && ShortValue("4") == 4;
    assert "%4"[1..2] == "4" && "%4"[2..] == "";
    assert ByteString(4) + "" == [4 as char];
  }

  lemma BareEscape()
    ensures Decode("%") == Some("") && !Whole("%")
  {
    var s := "%";
    assert s[1..1] == "" && s[1..] == "" && HexValue("") == 0;
    assert Decode(s[1..]) == Some("") && ByteString(0) + "" == "";
  }

  lemma ZeroEscape()
    ensures Decode("%00") == Some("") && !Whole("%00")
  {
    assert "00"[..1] == "0" && "0"[..0] == "" && ShortValue("00") == 0;
    assert "%00"[1..3] == "00" && "%00"[3..] == "";
    assert ByteString(0) + "" == "";
  }
}
