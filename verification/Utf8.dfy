/** The UTF-8 encoder of the XML library and the table that gives a sequence's length from its lead byte. */
module Utf8 {

  /** The low six bits of a code unit under the continuation mark: `(input | 0x80) & 0xBF`, cut to a byte. */
  function Continuation(input: nat): (c: char)
    ensures 0x80 <= c as int < 0xC0
  {
    (0x80 + input % 64) as char
  }

  /** The bit operations of `ConvertUTF32ToUTF8` are the sums used in this module: the continuation bytes
      and, for the 2, 3 and 4 byte forms, the lead byte. */
  lemma ContinuationBits(x: bv32)
    ensures (x | 0x80) & 0xBF == 0x80 + (x & 0x3F)
  {
  }

  lemma LeadBits(x: bv8)
    ensures x < 0x20 ==> x | 0xC0 == 0xC0 + x
    ensures x < 0x10 ==> x | 0xE0 == 0xE0 + x
    ensures x < 0x08 ==> x | 0xF0 == 0xF0 + x
  {
  }

  /** The bytes that represent `u`; nothing above 0x1FFFFF. */
  function Encode(u: nat): (s: string)
    ensures s == [] <==> u >= 0x20_0000
    ensures |s| <= 4 && forall i :: 0 <= i < |s| ==> s[i] as int < 256
  {
    if u < 0x80 then [u as char]
    else if u < 0x800 then [(0xC0 + u / 64) as char, Continuation(u)]
    else if u < 0x1_0000 then [(0xE0 + u / 4096) as char, Continuation(u / 64), Continuation(u)]
    else if u < 0x20_0000 then
      [(0xF0 + u / 262144) as char, Continuation(u / 4096), Continuation(u / 64), Continuation(u)]
    else []
  }

  /** `ConvertUTF32ToUTF8`: the bytes are written from the last to the first, shifting six bits out each
      time, as the switch with its fall-through cases does. */
  method ConvertUTF32ToUTF8(input: nat) returns (output: string, length: nat)
    ensures output == Encode(input) && length == |output|
  {
    var rest := input;
    output := [];
    length := if input < 0x80 then 1
    else if input < 0x800 then 2
    else if input < 0x1_0000 then 3
    else if input < 0x20_0000 then 4
    else 0;
    if length == 0 {
      return;
    }
    if length == 4 {
      output := [Continuation(rest)] + output;
      rest := rest / 64;
    }
    if length >= 3 {
      output := [Continuation(rest)] + output;
      rest := rest / 64;
    }
    if length >= 2 {
      output := [Continuation(rest)] + output;
      rest := rest / 64;
    }
    var mark := [0x00, 0x00, 0xC0, 0xE0, 0xF0][length];
    assert rest < 0x100 - mark;
    output := [(rest + mark) as char] + output;
  }

  // ---------- Reading back ----------

  /** `utf8ByteTable`. */
  function ByteTable(c: char): (n: nat)
    ensures 1 <= n <= 4
  {
    var b := c as int;
    if 0xC2 <= b <= 0xDF then 2
    else if 0xE0 <= b <= 0xEF then 3
    else if 0xF0 <= b <= 0xF4 then 4
    else 1
  }

  /** Bytes that never lead a longer sequence count as one. */
  lemma StrayBytesAreOne(c: char)
    requires c as int < 0xC2 || c as int > 0xF4
    ensures ByteTable(c) == 1
  {
  }

  function Payload(c: char): int {
    c as int - 0x80
  }

  /** The code point of one sequence of the length its lead byte announces. */
  function CodePoint(s: string): int
    requires s != [] && |s| == ByteTable(s[0])
  {
    var lead := s[0] as int;
    if |s| == 1 then lead
    else if |s| == 2 then (lead - 0xC0) * 64 + Payload(s[1])
    else if |s| == 3 then (lead - 0xE0) * 4096 + Payload(s[1]) * 64 + Payload(s[2])
    else (lead - 0xF0) * 262144 + Payload(s[1]) * 4096 + Payload(s[2]) * 64 + Payload(s[3])
  }

  /** Walk a string by the byte table. */
  function CodePoints(s: string): seq<int> {
    if s == [] then []
    else if |s| < ByteTable(s[0]) then [s[0] as int] + CodePoints(s[1..])
    else [CodePoint(s[..ByteTable(s[0])])] + CodePoints(s[ByteTable(s[0])..])
  }

  function EncodeAll(us: seq<nat>): string {
    if us == [] then [] else Encode(us[0]) + EncodeAll(us[1..])
  }

  /** The table finds the boundary of an encoded code point, and the code point back, exactly below
      0x140000: above, the lead byte is 0xF5 or more and the table says one byte. */
  lemma StepRecovers(u: nat)
    requires u < 0x20_0000
    ensures ByteTable(Encode(u)[0]) == |Encode(u)| <==> u < 0x14_0000
    ensures u < 0x14_0000 ==> CodePoint(Encode(u)) == u
  {
    var s := Encode(u);
    if u < 0x80 {
    } else if u < 0x800 {
    } else if u < 0x1_0000 {
      assert u / 64 / 64 == u / 4096;
    } else {
      assert u / 64 / 64 == u / 4096 && u / 4096 / 64 == u / 262144;
      assert s[0] as int <= 0xF4 <==> u < 0x14_0000;
    }
  }

  lemma {:induction false} WalkRecovers(us: seq<nat>)
    requires forall i :: 0 <= i < |us| ==> us[i] < 0x14_0000
    ensures CodePoints(EncodeAll(us)) == us
  {
    if us != [] {
      var s := EncodeAll(us);
      StepRecovers(us[0]);
      WalkRecovers(us[1..]);
      assert s[..|Encode(us[0])|] == Encode(us[0]);
      assert s[|Encode(us[0])|..] == EncodeAll(us[1..]);
    }
  }

  // ---------- Section 4 of RFC 3629 ----------

  predicate Tail(c: char) {
    0x80 <= c as int <= 0xBF
  }

  /** One UTF8-char of the grammar in section 4 of RFC 3629. */
  predicate IsUtf8Char(s: string) {
    match |s|
    case 1 => s[0] as int <= 0x7F
    case 2 => 0xC2 <= s[0] as int <= 0xDF && Tail(s[1])
    case 3 =>
      && Tail(s[2])
      && (|| (s[0] as int == 0xE0 && 0xA0 <= s[1] as int <= 0xBF)
          || (0xE1 <= s[0] as int <= 0xEC && Tail(s[1]))
          || (s[0] as int == 0xED && 0x80 <= s[1] as int <= 0x9F)
          || (0xEE <= s[0] as int <= 0xEF && Tail(s[1])))
    case 4 =>
      && Tail(s[2]) && Tail(s[3])
      && (|| (s[0] as int == 0xF0 && 0x90 <= s[1] as int <= 0xBF)
          || (0xF1 <= s[0] as int <= 0xF3 && Tail(s[1]))
          || (s[0] as int == 0xF4 && 0x80 <= s[1] as int <= 0x8F))
    case _ => false
  }

  predicate IsScalarValue(u: nat) {
    u <= 0x10_FFFF && !(0xD800 <= u <= 0xDFFF)
  }

  /** The encoder's output is a character of the RFC's grammar exactly for Unicode scalar values: it also
      encodes surrogates and numbers up to 0x1FFFFF, and those outputs are ill-formed. */
  lemma EncodesExactlyScalarValues(u: nat)
    ensures IsUtf8Char(Encode(u)) <==> IsScalarValue(u)
  {
    var s := Encode(u);
    if u < 0x800 {
    } else if u < 0x1_0000 {
      assert u / 64 / 64 == u / 4096;
      assert s[0] as int == 0xE0 + u / 4096 && s[1] as int == 0x80 + u / 64 % 64;
    } else if u < 0x20_0000 {
      assert u / 4096 / 64 == u / 262144;
      assert s[0] as int == 0xF0 + u / 262144 && s[1] as int == 0x80 + u / 4096 % 64;
    }
  }
}
