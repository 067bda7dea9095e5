/** Character level of the XML library: escaping (`PutString`), entity decoding (`GetEntity`, `GetChar`) and
    the text reader (`ReadText`).

    A `const char*` into a NUL-terminated buffer is modelled by the string from that pointer up to, and not
    including, the terminating NUL: `*p == 0` is `p == []` and `++p` is `p[1..]`. A byte is a `char`. */
module XmlText {
  import opened Utf8

  /** What a reading function hands back: the value and the pointer behind it, a null pointer, or a pointer
      outside the buffer (the source then has undefined behaviour). `Unmodelled` marks declarations and
      unknown tags, which this model does not follow. */
  datatype Outcome<+T> = Done(value: T, rest: string) | Null | Wild | Unmodelled {
    predicate IsFailure() {
      !Done?
    }

    function PropagateFailure<U>(): Outcome<U>
      requires IsFailure()
    {
      match this
      case Null => Null
      case Wild => Wild
      case Unmodelled => Unmodelled
    }

    function Extract(): (T, string)
      requires Done?
    {
      (value, rest)
    }
  }

  datatype Encoding = Legacy | Utf8

  const UINT_RANGE: nat := 0x1_0000_0000

  predicate NulFree(s: string) {
    '\0' !in s
  }

  predicate IsWhiteSpace(c: char) {
    c == ' ' || '\t' <= c <= '\r'
  }

  predicate IsAlpha(c: char) {
    'a' <= c <= 'z' || 'A' <= c <= 'Z' || 127 <= c as int
  }

  predicate IsAlphaNum(c: char) {
    IsAlpha(c) || '0' <= c <= '9'
  }

  predicate IsNameStart(c: char) {
    IsAlpha(c) || c == '_'
  }

  predicate IsNameChar(c: char) {
    IsAlphaNum(c) || c == '_' || c == '-' || c == '.' || c == ':'
  }

  // ---------- Escaping ----------

  function HexDigit(d: nat): (c: char)
    requires d < 16
  {
    if d < 10 then '0' + d as char else 'A' + (d - 10) as char
  }

  /** How `PutString` writes one character that does not start a hexadecimal reference. */
  function Escape(c: char): (e: string)
    ensures e != []
  {
    if c == '&' then "&amp;"
    else if c == '<' then "&lt;"
    else if c == '>' then "&gt;"
    else if c == '"' then "&quot;"
    else if c == '\'' then "&apos;"
    else if c as int < 32 then "&#x" + [HexDigit(c as int / 16), HexDigit(c as int % 16), ';']
    else [c]
  }

  predicate StartsHexReference(s: string) {
    |s| >= 3 && s[0] == '&' && s[1] == '#' && s[2] == 'x'
  }

  /** Length of the run copied unchanged by the inner loop of `PutString`: up to the first ';' after the
      start, or all but the last character. */
  function CopiedRun(s: string, i: nat): (k: nat)
    requires i < |s|
    ensures i <= k < |s|
    ensures forall j :: i < j < k ==> s[j] != ';'
    ensures k == i || k == |s| - 1 || s[k] == ';'
    ensures k == i ==> i == |s| - 1
    decreases |s| - i
  {
    if i == |s| - 1 then i
    else if s[i + 1] == ';' then i + 1
    else CopiedRun(s, i + 1)
  }

  function PutString(s: string): string {
    if s == [] then []
    else if StartsHexReference(s) then
      var k := CopiedRun(s, 0);
      s[..k] + PutString(s[k..])
    else
      Escape(s[0]) + PutString(s[1..])
  }

  // ---------- Decoding ----------

  function Find(s: string, c: char, from: nat): (r: nat)
    requires from <= |s|
    ensures from <= r <= |s|
    ensures c !in s[from..r]
    ensures r < |s| ==> s[r] == c
    decreases |s| - from
  {
    if from == |s| || s[from] == c then from else Find(s, c, from + 1)
  }

  /** What a copy through `c_str()` keeps of a string: the part before the first NUL. */
  function CString(s: string): (c: string)
    ensures c == s <==> NulFree(s)
    ensures NulFree(c)
  {
    var n := Find(s, '\0', 0);
    assert s[0..n] == s[..n];
    assert n == |s| ==> s[..n] == s;
    s[..n]
  }

  function DigitOf(c: char, radix: nat): (d: int)
    ensures -1 <= d < 16
  {
    if '0' <= c <= '9' then c as int - '0' as int
    else if radix != 16 then -1
    else if 'a' <= c <= 'f' then c as int - 'a' as int + 10
    else if 'A' <= c <= 'F' then c as int - 'A' as int + 10
    else -1
  }

  /** The backwards digit loop of `GetEntity`, from `q` down to the character `stop`; -1 if a character that
      is no digit comes first. `mult` and the products are 32-bit unsigned. */
  function DigitSum(s: string, q: nat, stop: char, radix: nat, ucs: nat, mult: nat): (r: int)
    requires q < |s| && exists i :: 0 <= i <= q && s[i] == stop
    ensures r >= -1
    decreases q
  {
    if s[q] == stop then ucs
    else
      var d := DigitOf(s[q], radix);
      if d < 0 then -1
      else DigitSum(s, q - 1, stop, radix, ucs + mult * d % UINT_RANGE, mult * radix % UINT_RANGE)
  }

  datatype Entity = Malformed | Reference(ucs: nat, rest: string) | Character(c: char, rest: string)

  /** The table of the five entities; an '&' that starts none of them stands for itself. */
  function NamedEntity(p: string): (e: Entity)
    requires p != [] && p[0] == '&'
    ensures e.Character? && |e.rest| < |p| && e.rest == p[|p| - |e.rest|..]
  {
    if "&amp;" <= p then Character('&', p[5..])
    else if "&lt;" <= p then Character('<', p[4..])
    else if "&gt;" <= p then Character('>', p[4..])
    else if "&quot;" <= p then Character('"', p[6..])
    else if "&apos;" <= p then Character('\'', p[6..])
    else Character('&', p[1..])
  }

  /** `GetEntity` on input that starts with '&'. */
  function GetEntity(p: string): (e: Entity)
    requires p != [] && p[0] == '&'
    ensures !e.Malformed? ==> |e.rest| < |p| && e.rest == p[|p| - |e.rest|..]
  {
    if |p| > 2 && p[1] == '#' then
      if p[2] == 'x' then
        if |p| == 3 then Malformed
        else
          var k := Find(p, ';', 3);
          if k == |p| then Malformed
          else
            var ucs := DigitSum(p, k - 1, 'x', 16, 0, 1);
            if ucs < 0 then Malformed else Reference(ucs, p[k + 1..])
      else
        var k := Find(p, ';', 2);
        if k == |p| then Malformed
        else
          var ucs := DigitSum(p, k - 1, '#', 10, 0, 1);
          if ucs < 0 then Malformed else Reference(ucs, p[k + 1..])
    else NamedEntity(p)
  }

  /** `GetChar`: one character of the text, with entities resolved. The result is the bytes appended. */
  function GetChar(p: string, enc: Encoding): (r: Outcome<string>)
    requires p != []
    ensures r.Done? ==> |r.rest| < |p|
    ensures enc.Legacy? && r.Done? ==> |r.value| == 1
  {
    var length := if enc.Utf8? then ByteTable(p[0]) else 1;
    if length == 1 then
      if p[0] == '&' then
        match GetEntity(p)
        case Malformed => Null
        case Reference(ucs, rest) =>
          Done(if enc.Utf8? then Encode(ucs) else [(ucs % 256) as char], rest)
        case Character(c, rest) => Done([c], rest)
      else Done([p[0]], p[1..])
    else if |p| < length then Wild
    else Done(p[..length], p[length..])
  }

  /** The loop of `ReadText` that keeps white space: the text up to the end tag or the end of the input. */
  function ReadKeep(p: string, endTag: string, enc: Encoding): (r: Outcome<string>)
    ensures r.Done? ==> |r.rest| <= |p| && (r.rest == [] || endTag <= r.rest)
    ensures r.Done? && p != [] && !(endTag <= p) ==> |r.rest| < |p|
    decreases |p|
  {
    if p == [] || endTag <= p then Done([], p)
    else
      var (c, p') :- GetChar(p, enc);
      var (text, q) :- ReadKeep(p', endTag, enc);
      Done(c + text, q)
  }

  /** The loop of `ReadText` that condenses white space; `gap` says that white space is pending. */
  function ReadTrim(p: string, endTag: string, gap: bool, enc: Encoding): (r: Outcome<string>)
    ensures r.Done? ==> |r.rest| <= |p| && (r.rest == [] || endTag <= r.rest)
    ensures r.Done? && p != [] && !(endTag <= p) ==> |r.rest| < |p|
    decreases |p|
  {
    if p == [] || endTag <= p then Done([], p)
    else if IsWhiteSpace(p[0]) then ReadTrim(p[1..], endTag, true, enc)
    else
      var (c, p') :- GetChar(p, enc);
      var (text, q) :- ReadTrim(p', endTag, false, enc);
      Done(if gap then " " + c + text else c + text, q)
  }

  /** The last line of `ReadText`, `return p + strlen(endTag)`, for a `p` that the loop left not null. */
  function AfterTag(r: Outcome<string>, endTag: string): (a: Outcome<string>)
    ensures a.Done? ==> r.Done? && |a.rest| <= |r.rest|
  {
    match r
    case Done(text, q) => if endTag <= q then Done(text, q[|endTag|..]) else Wild
    case Unmodelled => Unmodelled
    case _ => Wild
  }

  function DropSpace(p: string): (r: string)
    ensures |r| <= |p| && (r == [] || !IsWhiteSpace(r[0]))
    ensures p != [] && !IsWhiteSpace(p[0]) ==> r == p
  {
    if p != [] && IsWhiteSpace(p[0]) then DropSpace(p[1..]) else p
  }

  /** The byte order mark, U+FFFE or U+FFFF in UTF-8. */
  predicate StartsWithMark(p: string) {
    |p| >= 3 && p[0] == 0xEF as char
    && ((p[1] == 0xBB as char && p[2] == 0xBF as char)
        || (p[1] == 0xBF as char && (p[2] == 0xBE as char || p[2] == 0xBF as char)))
  }

  /** In UTF-8 those three are skipped together with white space. */
  function DropMarks(p: string): (r: string)
    ensures |r| <= |p| && r == p[|p| - |r|..] && !StartsWithMark(r) && (r == [] || !IsWhiteSpace(r[0]))
  {
    if StartsWithMark(p) then DropMarks(p[3..])
    else if p != [] && IsWhiteSpace(p[0]) then DropMarks(p[1..])
    else p
  }

  function DropSpaceIn(p: string, enc: Encoding): string {
    if enc.Utf8? then DropMarks(p) else DropSpace(p)
  }

  /** `SkipWhiteSpace` in a single-byte encoding: null at the terminating NUL. */
  function SkipWhiteSpace(p: string): (r: Outcome<()>)
    ensures r.Done? <==> p != []
    ensures r.Done? ==> |r.rest| <= |p| && (r.rest == [] || !IsWhiteSpace(r.rest[0]))
    ensures p != [] && !IsWhiteSpace(p[0]) ==> r == Done((), p)
  {
    if p == [] then Null else Done((), DropSpace(p))
  }

  function NameRun(p: string): (n: nat)
    ensures n <= |p| && (forall i :: 0 <= i < n ==> IsNameChar(p[i]))
    ensures n < |p| ==> !IsNameChar(p[n])
  {
    if p == [] || !IsNameChar(p[0]) then 0 else 1 + NameRun(p[1..])
  }

  function ReadName(p: string): (r: Outcome<string>)
    ensures r.Done? ==> |r.rest| < |p| && r.value != []
    ensures !r.Done? ==> r == Null
  {
    if p == [] || !IsNameStart(p[0]) then Null else Done(p[..NameRun(p)], p[NameRun(p)..])
  }

  // ---------- Reading back what PutString writes ----------

  /** No "&#x" anywhere: the condition under which escaping can be undone. */
  predicate NoHexReference(s: string) {
    forall i :: 0 <= i && i + 2 < |s| ==> !(s[i] == '&' && s[i + 1] == '#' && s[i + 2] == 'x')
  }

  lemma TwoHexDigits(p: string, c: char)
    requires c as int < 32 && |p| > 5 && p[2] == 'x' && p[5] == ';'
    requires p[3] == HexDigit(c as int / 16) && p[4] == HexDigit(c as int % 16)
    ensures Find(p, ';', 3) == 5 && DigitSum(p, 4, 'x', 16, 0, 1) == c as int
  {
    hide Find, DigitSum, HexDigit, DigitOf;
    var high, low := c as int / 16, c as int % 16;
    HexDigitIs(high);
    HexDigitIs(low);
    TwoDigitsEnd(p);
    DigitSumTurn(p, 4, 0, 1);
    DigitSumTurn(p, 3, low, 16);
    EndOfDigits(p, low + 16 * high, 256);
  }

  lemma EndOfDigits(p: string, ucs: nat, mult: nat)
    requires |p| > 2 && p[2] == 'x'
    ensures DigitSum(p, 2, 'x', 16, ucs, mult) == ucs
  {
  }

  lemma HexDigitIs(d: nat)
    requires d < 16
    ensures DigitOf(HexDigit(d), 16) == d && HexDigit(d) != ';' && HexDigit(d) != 'x'
  {
  }

  lemma TwoDigitsEnd(p: string)
    requires |p| > 5 && p[5] == ';' && p[3] != ';' && p[4] != ';'
    ensures Find(p, ';', 3) == 5
  {
    assert Find(p, ';', 5) == 5 && Find(p, ';', 4) == 5;
  }

  lemma HexReferenceDecodes(c: char, rest: string)
    requires c as int < 32
    ensures GetEntity(Escape(c) + rest) == Reference(c as int, rest)
  {
    hide Find, DigitSum;
    var p := Escape(c) + rest;
    assert p[..6] == Escape(c) && p[6..] == rest;
    assert p[0] == '&' && p[1] == '#' && p[2] == 'x' && p[5] == ';';
    assert p[3] == Escape(c)[3] && p[4] == Escape(c)[4];
    TwoHexDigits(p, c);
  }

  lemma NamedEntityDecodes(c: char, rest: string)
    requires c == '&' || c == '<' || c == '>' || c == '"' || c == '\''
    ensures var p := Escape(c) + rest;
            p[0] == '&' && p[1] != '#' && NamedEntity(p) == Character(c, rest)
  {
    var p := Escape(c) + rest;
    assert p[..|Escape(c)|] == Escape(c) && p[|Escape(c)|..] == rest;
    assert p[0] == '&' && p[1] == Escape(c)[1] && p[2] == Escape(c)[2];
  }

  /** What `PutString` writes for one character is read as that character. */
  lemma EscapeDecodes(c: char, rest: string)
    ensures GetChar(Escape(c) + rest, Legacy) == Done([c], rest)
  {
    hide NamedEntity, Find, DigitSum;
    var p := Escape(c) + rest;
    if c as int < 32 {
      HexReferenceDecodes(c, rest);
      assert p[0] == Escape(c)[0] == '&';
    } else if c == '&' || c == '<' || c == '>' || c == '"' || c == '\'' {
      NamedEntityDecodes(c, rest);
    } else {
      assert p[0] == c && p[1..] == rest;
    }
  }

  predicate IsQuote(q: char) {
    q == '"' || q == '\''
  }

  /** Reading escaped text up to a quote gives the text back and stops at the quote. */
  lemma {:induction false} EscapingRoundTrip(s: string, q: char, rest: string)
    requires NoHexReference(s) && IsQuote(q)
    ensures ReadKeep(PutString(s) + [q] + rest, [q], Legacy) == Done(s, [q] + rest)
  {
    var p := PutString(s) + [q] + rest;
    if s == [] {
      assert p == [q] + rest;
    } else {
      var tail := PutString(s[1..]) + [q] + rest;
      assert p == Escape(s[0]) + tail;
      EscapeDecodes(s[0], tail);
      assert p[0] == Escape(s[0])[0] != q;
      EscapingRoundTrip(s[1..], q, rest);
      assert [s[0]] + s[1..] == s;
    }
  }

  lemma FindFirst(p: string, c: char, from: nat, k: nat)
    requires from <= k <= |p| && (k < |p| ==> p[k] == c)
    requires forall i :: from <= i < k ==> p[i] != c
    ensures Find(p, c, from) == k
  {
    var r := Find(p, c, from);
    assert forall i :: from <= i < r ==> p[i] == p[from..r][i - from];
  }

  lemma CopiedShape(s: string)
    requires StartsHexReference(s)
    ensures var k := CopiedRun(s, 0);
            PutString(s) == s[..k] + (Escape(s[k]) + PutString(s[k + 1..]))
  {
    var k := CopiedRun(s, 0);
    var t := s[k..];
    assert t[0] == s[k] && t[1..] == s[k + 1..];
    assert !StartsHexReference(t);
  }

  /** A hexadecimal reference ends at the first ';', if there is one. */
  lemma ReferenceEnds(p: string, k: nat)
    requires StartsHexReference(p) && 3 <= k <= |p| && (k < |p| ==> p[k] == ';')
    requires forall i :: 3 <= i < k ==> p[i] != ';'
    ensures var e := GetEntity(p);
            e.Malformed? || (k < |p| && e.Reference? && e.rest == p[k + 1..])
  {
    FindFirst(p, ';', 3, k);
  }

  /** A reference that `PutString` let through swallows at least the run it copied: with `s[k]` the first
      character after the run, reading goes on at `tail` or fails. */
  lemma CopiedReferenceShrinks(s: string, q: char, k: nat, tail: string)
    requires StartsHexReference(s) && IsQuote(q) && k == CopiedRun(s, 0)
    requires tail == if s[k] == ';' then PutString(s[k + 1..]) + [q] else [q]
    ensures var e := GetEntity(PutString(s) + [q]);
            e.Malformed? || (e.Reference? && e.rest == tail)
  {
    hide *;
    RunIsPlain(s);
    var last, rest := Escape(s[k]), PutString(s[k + 1..]) + [q];
    var p := PutString(s) + [q];
    CopiedParts(s, q);
    var end := if s[k] == ';' then k else if |last| == 1 then |p| else k + |last| - 1;
    assert s[k] != ';' ==> rest == [q];
    RunEnds(s, p, k, last, rest, q, end);
  }

  lemma CopiedParts(s: string, q: char)
    requires StartsHexReference(s)
    ensures var k := CopiedRun(s, 0); PutString(s) + [q] == s[..k] + (Escape(s[k]) + (PutString(s[k + 1..]) + [q]))
  {
    hide *;
    CopiedShape(s);
    var k := CopiedRun(s, 0);
    Joined(s[..k], Escape(s[k]), PutString(s[k + 1..]), [q]);
  }

  lemma RunEnds(s: string, p: string, k: nat, last: string, rest: string, q: char, end: nat)
    requires StartsHexReference(s) && 2 <= k < |s| && IsQuote(q) && (forall i :: 0 < i < k ==> s[i] != ';')
    requires p == s[..k] + (last + rest) && last == Escape(s[k]) && (s[k] != ';' ==> rest == [q])
    requires end == if s[k] == ';' then k else if |last| == 1 then |p| else k + |last| - 1
    ensures StartsHexReference(p)
    ensures var e := GetEntity(p); e.Malformed? || (e.Reference? && e.rest == rest)
  {
    hide *;
    EscapeEnds(s[k]);
    Pointwise(p, s[..k], last, rest);
    assert |last| == 1 ==> last[0] == s[k];
    RunStaysPlain(s, p, k, last, q, end);
    ReferenceEnds(p, end);
    assert end < |p| ==> end + 1 == k + |last|;
  }

  lemma RunIsPlain(s: string)
    requires StartsHexReference(s)
    ensures var k := CopiedRun(s, 0);
            && 2 <= k && (s[k] == ';' || k + 1 == |s|) && (forall i :: 0 < i < k ==> s[i] != ';')
            && (k + 1 == |s| ==> PutString(s[k + 1..]) == "")
  {
  }

  lemma RunStaysPlain(s: string, p: string, k: nat, last: string, q: char, end: nat)
    requires StartsHexReference(s) && 2 <= k < |s| && k + |last| <= |p| && IsQuote(q)
    requires forall i :: 0 <= i < k ==> p[i] == s[i]
    requires forall i :: k <= i < k + |last| ==> p[i] == last[i - k]
    requires forall i :: 0 < i < k ==> s[i] != ';'
    requires end == if s[k] == ';' then k else if |last| == 1 then |p| else k + |last| - 1
    requires if |last| == 1 then last[0] == s[k]
             else |last| > 1 && s[k] != ';' && last[|last| - 1] == ';' && s[k] != 'x'
                  && forall i :: 0 <= i < |last| - 1 ==> last[i] != ';'
    requires s[k] != ';' ==> |p| == k + |last| + 1 && p[k + |last|] == q
    ensures StartsHexReference(p) && 3 <= end <= |p| && (end < |p| ==> p[end] == ';')
    ensures forall i :: 3 <= i < end ==> p[i] != ';'
  {
  }

  lemma Joined(a: string, b: string, c: string, d: string)
    ensures a + (b + c) + d == a + (b + (c + d))
  {
  }

  lemma Pointwise(p: string, a: string, b: string, c: string)
    requires p == a + (b + c)
    ensures forall i :: 0 <= i < |a| ==> p[i] == a[i]
    ensures forall i :: |a| <= i < |a| + |b| ==> p[i] == b[i - |a|]
    ensures p[|a| + |b|..] == c
  {
  }

  lemma EscapeEnds(c: char)
    ensures var e := Escape(c);
            if |e| == 1 then e == [c]
            else e[|e| - 1] == ';' && c != ';' && c != 'x' && forall i :: 0 <= i < |e| - 1 ==> e[i] != ';'
  {
  }

  /** The number of characters that reading yields, or -1 if it fails. */
  function DecodedLength(p: string, q: char): int {
    match ReadKeep(p, [q], Legacy) case Done(t, _) => |t| case _ => -1
  }

  lemma DecodedLengthStep(p: string, q: char)
    requires p != [] && p[0] == '&' && IsQuote(q)
    ensures var e := GetEntity(p);
            if e.Malformed? || DecodedLength(e.rest, q) < 0 then DecodedLength(p, q) == -1
            else DecodedLength(p, q) == 1 + DecodedLength(e.rest, q)
  {
    hide ReadKeep, GetEntity, GetChar, DecodedLength;
    KeepStep(p, q);
    EntityIsOneCharacter(p);
    DecodedLengthIs(p, q);
    if !GetEntity(p).Malformed? {
      DecodedLengthIs(GetEntity(p).rest, q);
    }
  }

  lemma DecodedLengthIs(p: string, q: char)
    ensures DecodedLength(p, q) == match ReadKeep(p, [q], Legacy) case Done(t, _) => |t| case _ => -1
  {
    hide ReadKeep;
  }

  lemma KeepStep(p: string, q: char)
    requires p != [] && p[0] != q
    ensures ReadKeep(p, [q], Legacy)
         == match GetChar(p, Legacy)
            case Done(c, rest) =>
              (match ReadKeep(rest, [q], Legacy) case Done(t, x) => Done(c + t, x) case failure => failure)
            case failure => failure
  {
    hide GetChar;
  }

  lemma EntityIsOneCharacter(p: string)
    requires p != [] && p[0] == '&'
    ensures var r := GetChar(p, Legacy);
            if GetEntity(p).Malformed? then r == Null
            else r.Done? && |r.value| == 1 && r.rest == GetEntity(p).rest
  {
    hide GetEntity;
  }

  lemma DecodedLengthOfEscape(c: char, tail: string, q: char)
    requires IsQuote(q)
    ensures if DecodedLength(tail, q) < 0 then DecodedLength(Escape(c) + tail, q) == -1
            else DecodedLength(Escape(c) + tail, q) == 1 + DecodedLength(tail, q)
  {
    hide ReadKeep, GetChar, DecodedLength, Escape;
    EscapeStarts(c, tail);
    EscapeDecodes(c, tail);
    KeepStep(Escape(c) + tail, q);
    DecodedLengthIs(Escape(c) + tail, q);
    DecodedLengthIs(tail, q);
  }

  lemma EscapeStarts(c: char, tail: string)
    ensures var p := Escape(c) + tail; p != [] && !IsQuote(p[0])
  {
  }

  /** Decoding never yields more characters than were escaped, and fewer if "&#x" occurs in them. */
  lemma {:induction false} DecodedIsNoLonger(s: string, q: char)
    requires IsQuote(q)
    ensures DecodedLength(PutString(s) + [q], q) <= |s| - if NoHexReference(s) then 0 else 1
    decreases |s|
  {
    var p := PutString(s) + [q];
    if s == [] {
    } else if StartsHexReference(s) {
      var k := CopiedRun(s, 0);
      CopiedShape(s);
      DecodedLengthStep(p, q);
      if s[k] == ';' {
        CopiedReferenceShrinks(s, q, k, PutString(s[k + 1..]) + [q]);
        DecodedIsNoLonger(s[k + 1..], q);
      } else {
        CopiedReferenceShrinks(s, q, k, [q]);
      }
    } else {
      var tail := PutString(s[1..]) + [q];
      assert p == Escape(s[0]) + tail;
      DecodedLengthOfEscape(s[0], tail, q);
      DecodedIsNoLonger(s[1..], q);
      if NoHexReference(s[1..]) {
        NoHexReferenceTail(s);
      }
    }
  }

  lemma NoHexReferenceTail(s: string)
    requires s != [] && !StartsHexReference(s) && NoHexReference(s[1..])
    ensures NoHexReference(s)
  {
    forall i | 0 <= i && i + 2 < |s| ensures !(s[i] == '&' && s[i + 1] == '#' && s[i + 2] == 'x') {
      if i > 0 {
        var t := s[1..];
        assert !(t[i - 1] == '&' && t[i] == '#' && t[i + 1] == 'x');
      }
    }
  }

  /** Exactly the strings without "&#x" can be escaped and read back, whatever follows the closing quote. */
  lemma EscapingIsInvertibleExactly(s: string, q: char)
    requires IsQuote(q)
    ensures NoHexReference(s) <==>
            forall rest :: ReadKeep(PutString(s) + [q] + rest, [q], Legacy) == Done(s, [q] + rest)
  {
    if NoHexReference(s) {
      forall rest ensures ReadKeep(PutString(s) + [q] + rest, [q], Legacy) == Done(s, [q] + rest) {
        EscapingRoundTrip(s, q, rest);
      }
    } else {
      DecodedIsNoLonger(s, q);
      assert PutString(s) + [q] + [] == PutString(s) + [q];
    }
  }

  // ---------- Hexadecimal references in UTF-8 mode ----------

  predicate IsHexDigits(d: string) {
    forall i :: 0 <= i < |d| ==> DigitOf(d[i], 16) >= 0
  }

  /** The positional value of a string of hexadecimal digits. */
  function HexValue(d: string): nat
    requires IsHexDigits(d)
  {
    if d == [] then 0 else 16 * HexValue(d[..|d| - 1]) + DigitOf(d[|d| - 1], 16)
  }

  function HexReference(d: string): string {
    "&#x" + d + ";"
  }

  /** The backwards loop over wrapping 32-bit products computes the positional value. */
  lemma {:induction false} DigitSumIsPositional(p: string, d: string, ucs: nat, mult: nat)
    requires |p| > 2 + |d| && p[2] == 'x' && (forall i :: 0 <= i < |d| ==> p[3 + i] == d[i])
    requires IsHexDigits(d) && mult * HexValue(d) < UINT_RANGE
    ensures DigitSum(p, 2 + |d|, 'x', 16, ucs, mult) == ucs + mult * HexValue(d)
    decreases |d|
  {
    if d != [] {
      hide *;
      var n := |d| - 1;
      HexValueOfLast(d);
      var last := DigitOf(d[n], 16);
      var m := mult * 16 % UINT_RANGE;
      WrappedFactor(mult, HexValue(d[..n]), last, HexValue(d));
      DigitSumTurn(p, 2 + |d|, ucs, mult);
      DigitSumIsPositional(p, d[..n], ucs + mult * last, m);
    } else {
      NoDigits(p, d, ucs, mult);
    }
  }

  lemma NoDigits(p: string, d: string, ucs: nat, mult: nat)
    requires |p| > 2 && p[2] == 'x' && d == []
    ensures DigitSum(p, 2, 'x', 16, ucs, mult) == ucs + mult * HexValue(d)
  {
    EndOfDigits(p, ucs, mult);
  }

  lemma DigitSumTurn(p: string, q: nat, ucs: nat, mult: nat)
    requires 2 < q < |p| && p[2] == 'x' && DigitOf(p[q], 16) >= 0 && mult * DigitOf(p[q], 16) < UINT_RANGE
    ensures DigitSum(p, q, 'x', 16, ucs, mult)
         == DigitSum(p, q - 1, 'x', 16, ucs + mult * DigitOf(p[q], 16), mult * 16 % UINT_RANGE)
  {
    var term := mult * DigitOf(p[q], 16);
    assert term % UINT_RANGE == term;
  }

  lemma HexValueOfLast(d: string)
    requires d != [] && IsHexDigits(d)
    ensures var n := |d| - 1;
            DigitOf(d[n], 16) >= 0 && IsHexDigits(d[..n]) && HexValue(d) == 16 * HexValue(d[..n]) + DigitOf(d[n], 16)
  {
  }

  lemma WrappedFactor(mult: nat, v: nat, last: nat, value: nat)
    requires value == 16 * v + last && mult * value < UINT_RANGE
    ensures mult * 16 % UINT_RANGE * v + mult * last == mult * value
    ensures 0 <= mult * last < UINT_RANGE && mult * 16 % UINT_RANGE * v < UINT_RANGE
  {
    Distributes(mult, v, last);
    NoWrap(mult * 16, v);
  }

  lemma Distributes(mult: nat, v: nat, last: nat)
    ensures mult * (16 * v + last) == mult * 16 * v + mult * last
    ensures 0 <= mult * last && 0 <= mult * 16 * v
  {
  }

  lemma NoWrap(m: nat, v: nat)
    requires m * v < UINT_RANGE
    ensures m % UINT_RANGE * v == m * v
  {
    if v > 0 {
      assert m <= m * v;
    }
  }

  predicate AreDecimalDigits(d: string) {
    forall i :: 0 <= i < |d| ==> '0' <= d[i] <= '9'
  }

  function DecimalValue(d: string): nat
    requires AreDecimalDigits(d)
  {
    if d == [] then 0 else 10 * DecimalValue(d[..|d| - 1]) + (d[|d| - 1] as int - '0' as int)
  }

  lemma DecimalTurn(p: string, q: nat, ucs: nat, mult: nat)
    requires 1 < q < |p| && p[1] == '#' && '0' <= p[q] <= '9' && mult * (p[q] as int - '0' as int) < UINT_RANGE
    ensures DigitSum(p, q, '#', 10, ucs, mult)
         == DigitSum(p, q - 1, '#', 10, ucs + mult * (p[q] as int - '0' as int), mult * 10 % UINT_RANGE)
  {
    var term := mult * (p[q] as int - '0' as int);
    assert term % UINT_RANGE == term;
  }

  lemma EndOfDecimal(p: string, ucs: nat, mult: nat)
    requires |p| > 1 && p[1] == '#'
    ensures DigitSum(p, 1, '#', 10, ucs, mult) == ucs
  {
  }

  lemma TensFactor(mult: nat, v: nat, last: nat, value: nat)
    requires value == 10 * v + last && mult * value < UINT_RANGE
    ensures mult * 10 % UINT_RANGE * v + mult * last == mult * value
    ensures 0 <= mult * last < UINT_RANGE && mult * 10 % UINT_RANGE * v < UINT_RANGE
  {
    TensDistribute(mult, v, last);
    NoWrap(mult * 10, v);
  }

  lemma TensDistribute(mult: nat, v: nat, last: nat)
    ensures mult * (10 * v + last) == mult * 10 * v + mult * last
    ensures 0 <= mult * last && 0 <= mult * 10 * v
  {
  }

  lemma DecimalOfLast(d: string)
    requires d != [] && AreDecimalDigits(d)
    ensures var n := |d| - 1;
            '0' <= d[n] <= '9' && AreDecimalDigits(d[..n])
            && DecimalValue(d) == 10 * DecimalValue(d[..n]) + (d[n] as int - '0' as int)
  {
  }

  lemma {:induction false} DecimalSumIsPositional(p: string, d: string, ucs: nat, mult: nat)
    requires |p| > 1 + |d| && p[1] == '#' && (forall i :: 0 <= i < |d| ==> p[2 + i] == d[i])
    requires AreDecimalDigits(d) && mult * DecimalValue(d) < UINT_RANGE
    ensures DigitSum(p, 1 + |d|, '#', 10, ucs, mult) == ucs + mult * DecimalValue(d)
    decreases |d|
  {
    hide DigitSum, DecimalValue, AreDecimalDigits;
    if d != [] {
      var n := |d| - 1;
      DecimalOfLast(d);
      var last := d[n] as int - '0' as int;
      TensFactor(mult, DecimalValue(d[..n]), last, DecimalValue(d));
      DecimalTurn(p, 1 + |d|, ucs, mult);
      DecimalSumIsPositional(p, d[..n], ucs + mult * last, mult * 10 % UINT_RANGE);
    } else {
      EndOfDecimal(p, ucs, mult);
      NoDecimal();
    }
  }

  lemma NoDecimal()
    ensures AreDecimalDigits([]) && DecimalValue([]) == 0
  {
  }

  /** A decimal reference is read as its value. */
  lemma DecimalReferenceIsRead(d: string, rest: string)
    requires d != [] && AreDecimalDigits(d) && DecimalValue(d) < UINT_RANGE
    ensures GetEntity("&#" + d + ";" + rest) == Reference(DecimalValue(d), rest)
  {
    var p := "&#" + d + ";" + rest;
    hide Find, DigitSum, GetEntity, DecimalValue;
    DecimalParts(d, rest);
    FindFirst(p, ';', 2, 2 + |d|);
    DecimalSumIsPositional(p, d, 0, 1);
    DecimalEntity(p, 2 + |d|);
  }

  lemma DecimalParts(d: string, rest: string)
    requires d != [] && AreDecimalDigits(d)
    ensures var p := "&#" + d + ";" + rest;
            && |p| == 3 + |d| + |rest| && p[0] == '&' && p[1] == '#' && p[2] != 'x'
            && (forall i :: 0 <= i < |d| ==> p[2 + i] == d[i])
            && (forall i :: 2 <= i < 2 + |d| ==> p[i] != ';')
            && p[2 + |d|] == ';' && p[3 + |d|..] == rest
  {
    var p := "&#" + d + ";" + rest;
    assert forall i :: 2 <= i < 2 + |d| ==> p[i] == d[i - 2];
    assert p[2] == d[0];
  }

  lemma DecimalEntity(p: string, k: nat)
    requires 2 < k < |p| && p[0] == '&' && p[1] == '#' && p[2] != 'x' && Find(p, ';', 2) == k
    requires DigitSum(p, k - 1, '#', 10, 0, 1) >= 0
    ensures GetEntity(p) == Reference(DigitSum(p, k - 1, '#', 10, 0, 1), p[k + 1..])
  {
    hide Find, DigitSum;
  }

  lemma HexReferenceIsRead(d: string, rest: string)
    requires IsHexDigits(d) && HexValue(d) < UINT_RANGE
    ensures GetEntity(HexReference(d) + rest) == Reference(HexValue(d), rest)
  {
    var p := HexReference(d) + rest;
    hide Find, DigitSum, GetEntity, HexValue;
    HexReferenceParts(d, rest);
    hide HexReference;
    FindFirst(p, ';', 3, 3 + |d|);
    DigitSumIsPositional(p, d, 0, 1);
    HexEntity(p, 3 + |d|);
  }

  lemma HexReferenceParts(d: string, rest: string)
    requires IsHexDigits(d)
    ensures var p := HexReference(d) + rest;
            && |p| == 4 + |d| + |rest| && p[0] == '&' && p[1] == '#' && p[2] == 'x'
            && (forall i :: 0 <= i < |d| ==> p[3 + i] == d[i])
            && (forall i :: 3 <= i < 3 + |d| ==> p[i] != ';')
            && p[3 + |d|] == ';' && p[4 + |d|..] == rest
  {
    var p := HexReference(d) + rest;
    assert forall i :: 3 <= i < 3 + |d| ==> p[i] == d[i - 3];
  }

  lemma HexEntity(p: string, k: nat)
    requires 3 <= k < |p| && p[0] == '&' && p[1] == '#' && p[2] == 'x' && Find(p, ';', 3) == k
    requires DigitSum(p, k - 1, 'x', 16, 0, 1) >= 0
    ensures GetEntity(p) == Reference(DigitSum(p, k - 1, 'x', 16, 0, 1), p[k + 1..])
  {
    hide Find, DigitSum;
  }

  function HexReferences(ds: seq<string>): string {
    if ds == [] then [] else HexReference(ds[0]) + HexReferences(ds[1..])
  }

  function HexValues(ds: seq<string>): seq<nat>
    requires forall i :: 0 <= i < |ds| ==> IsHexDigits(ds[i])
  {
    if ds == [] then [] else [HexValue(ds[0])] + HexValues(ds[1..])
  }

  lemma HexReferenceIsOneStep(d: string, rest: string, q: char)
    requires IsHexDigits(d) && HexValue(d) < UINT_RANGE && IsQuote(q)
    requires ReadKeep(rest, [q], Utf8).Done?
    ensures var r := ReadKeep(rest, [q], Utf8);
            ReadKeep(HexReference(d) + rest, [q], Utf8) == Done(Encode(HexValue(d)) + r.value, r.rest)
  {
    var p := HexReference(d) + rest;
    HexReferenceIsRead(d, rest);
    assert p[0] == '&';
    assert GetChar(p, Utf8) == Done(Encode(HexValue(d)), rest);
  }

  /** In UTF-8 mode a text of hexadecimal references, leading zeros allowed, is read as the encodings of its
      code points in order. */
  lemma {:induction false} HexReferencesAreRead(ds: seq<string>, q: char, rest: string)
    requires forall i :: 0 <= i < |ds| ==> IsHexDigits(ds[i]) && HexValue(ds[i]) <= 0x10_FFFF
    requires IsQuote(q)
    ensures ReadKeep(HexReferences(ds) + [q] + rest, [q], Utf8)
         == Done(EncodeAll(HexValues(ds)), [q] + rest)
  {
    if ds == [] {
      assert HexReferences(ds) + [q] + rest == [q] + rest;
    } else {
      HexReferencesAreRead(ds[1..], q, rest);
      var tail := HexReferences(ds[1..]) + [q] + rest;
      assert HexReferences(ds) + [q] + rest == HexReference(ds[0]) + tail;
      assert ReadKeep(tail, [q], Utf8).Done?;
      HexReferenceIsOneStep(ds[0], tail, q);
    }
  }

  lemma {:induction false} HexValuesBounded(ds: seq<string>)
    requires forall i :: 0 <= i < |ds| ==> IsHexDigits(ds[i]) && HexValue(ds[i]) <= 0x10_FFFF
    ensures forall i :: 0 <= i < |HexValues(ds)| ==> HexValues(ds)[i] <= 0x10_FFFF
  {
    if ds != [] {
      HexValuesBounded(ds[1..]);
    }
  }

  /** Walking what was read by the length table gives the code points back. */
  lemma ReadCodePointsAreRecovered(ds: seq<string>, q: char, rest: string)
    requires forall i :: 0 <= i < |ds| ==> IsHexDigits(ds[i]) && HexValue(ds[i]) <= 0x10_FFFF
    requires IsQuote(q)
    ensures var r := ReadKeep(HexReferences(ds) + [q] + rest, [q], Utf8);
            r.Done? && CodePoints(r.value) == HexValues(ds)
  {
    HexReferencesAreRead(ds, q, rest);
    HexValuesBounded(ds);
    WalkRecovers(HexValues(ds));
  }

  lemma SequenceIsOneStep(u: nat, tail: string)
    requires u < 0x14_0000 && u != '&' as int
    ensures GetChar(Encode(u) + tail, Utf8) == Done(Encode(u), tail)
  {
    StepRecovers(u);
    var s := Encode(u);
    assert (s + tail)[0] == s[0] && (s + tail)[..|s|] == s && (s + tail)[|s|..] == tail;
    hide ByteTable, CodePoint;
    assert s[0] != '&';
  }

  lemma SequenceStarts(u: nat, q: char)
    requires u < 0x14_0000 && IsQuote(q) && u != q as int
    ensures Encode(u) != [] && Encode(u)[0] != q
  {
  }

  /** In UTF-8, text of encoded code points without '&' is taken as it stands, byte for byte, up to the quote. */
  lemma {:induction false} Utf8TextIsRead(us: seq<nat>, q: char, x: string)
    requires IsQuote(q) && forall i :: 0 <= i < |us| ==> us[i] < 0x14_0000 && us[i] != '&' as int && us[i] != q as int
    ensures ReadKeep(EncodeAll(us) + [q] + x, [q], Utf8) == Done(EncodeAll(us), [q] + x)
  {
    hide GetChar, Encode;
    var p := EncodeAll(us) + [q] + x;
    if us == [] {
      assert p == [q] + x && [q] <= p;
    } else {
      var tail := EncodeAll(us[1..]) + [q] + x;
      assert p == Encode(us[0]) + tail;
      SequenceIsOneStep(us[0], tail);
      SequenceStarts(us[0], q);
      assert p[0] == Encode(us[0])[0];
      Utf8TextIsRead(us[1..], q, x);
    }
  }

  /** Control characters, '<', '>' and quotes do not occur in escaped text. */
  lemma {:induction false} EscapedIsPlain(s: string)
    requires NoHexReference(s)
    ensures forall c :: c in PutString(s) ==> c as int >= 32 && c != '<' && c != '>' && c != '"' && c != '\''
  {
    if s != [] {
      assert !StartsHexReference(s);
      EscapedIsPlain(s[1..]);
      OneEscapeIsPlain(s[0]);
      hide Escape;
    }
  }

  lemma OneEscapeIsPlain(c: char)
    ensures forall d :: d in Escape(c) ==> d as int >= 32 && d != '<' && d != '>' && d != '"' && d != '\''
  {
    if c as int < 32 {
      var e := Escape(c);
      assert e == ['&', '#', 'x', HexDigit(c as int / 16), HexDigit(c as int % 16), ';'];
    }
  }

  /** A copy through `c_str()` ends before the first NUL. */
  lemma CutAtNul(a: string, b: string)
    requires NulFree(a)
    ensures CString(a + "\0" + b) == a
  {
    var s := a + "\0" + b;
    assert forall i :: 0 <= i < |a| ==> s[i] == a[i];
    FindFirst(s, '\0', 0, |a|);
    assert s[..|a|] == a;
  }

  lemma {:induction false} RunToSemicolon(s: string, i: nat, k: nat)
    requires i < k < |s| && s[k] == ';' && forall j :: i < j < k ==> s[j] != ';'
    ensures CopiedRun(s, i) == k
    decreases k - i
  {
    if i + 1 < k {
      RunToSemicolon(s, i + 1, k);
    }
  }

  lemma SemicolonIsPlain(rest: string)
    ensures PutString(";" + rest) == ";" + PutString(rest)
  {
    assert (";" + rest)[1..] == rest;
  }

  lemma RunIsCopied(s: string, k: nat)
    requires StartsHexReference(s) && k < |s| && CopiedRun(s, 0) == k
    ensures PutString(s) == s[..k] + PutString(s[k..])
  {
    hide CopiedRun;
  }

  lemma ReferenceRun(d: string, rest: string)
    requires ';' !in d
    ensures CopiedRun("&#x" + d + ";" + rest, 0) == 3 + |d|
  {
    var s, k := "&#x" + d + ";" + rest, 3 + |d|;
    hide *;
    assert s[0] == '&' && s[1] == '#' && s[2] == 'x' && s[k] == ';';
    assert forall j :: 3 <= j < k ==> s[j] == d[j - 3];
    RunToSemicolon(s, 0, k);
  }

  /** A hexadecimal reference in the text is kept as it stands. */
  lemma ReferenceIsKept(d: string, rest: string)
    requires ';' !in d
    ensures PutString("&#x" + d + ";" + rest) == "&#x" + d + ";" + PutString(rest)
  {
    var s, k := "&#x" + d + ";" + rest, 3 + |d|;
    hide *;
    assert s == "&#x" + (d + ";" + rest);
    ReferenceStarts(d + ";" + rest);
    ReferenceRun(d, rest);
    RunIsCopied(s, k);
    assert s[..k] == "&#x" + d && s[k..] == ";" + rest;
    SemicolonIsPlain(rest);
  }

  lemma ReferenceStarts(d: string)
    ensures StartsHexReference("&#x" + d)
  {
  }

  lemma FirstIsIn(p: string, s: string)
    requires p != []
    ensures p <= s ==> p[0] in s
  {
    assert p <= s ==> s[0] == p[0];
  }

  lemma {:induction false} PlainIsKept(w: string, endTag: string)
    requires endTag != [] && '&' !in w && endTag[0] !in w
    ensures ReadKeep(w, endTag, Legacy) == Done(w, "")
  {
    if w != [] {
      FirstIsIn(endTag, w);
      PlainIsKept(w[1..], endTag);
      assert [w[0]] + w[1..] == w;
    }
  }
}
