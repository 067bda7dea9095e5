/** The pointer-walking loops of the XML library, proved against the functions of `XmlText` and `XmlTree`. */
module XmlScan {
  import opened XmlText
  import opened XmlTree
  import opened Utf8

  /** `PutString`: append the escaped string. */
  method PutStringTo(str: string, outString: string) returns (out: string)
    ensures out == outString + PutString(str)
  {
    hide PutString;
    out := outString;
    var i := 0;
    assert str[0..] == str;
    while i < |str|
      invariant 0 <= i <= |str| && out + PutString(str[i..]) == outString + PutString(str)
    {
      ghost var rest := str[i..];
      PutTurn(rest, out);
      assert rest[1..] == str[i + 1..];
      if i < |str| - 2 && str[i] == '&' && str[i + 1] == '#' && str[i + 2] == 'x' {
        out, i := CopyReference(str, i, out);
      } else {
        out := out + Escape(str[i]);
        i := i + 1;
      }
    }
    EndOfString(str[i..], out);
  }

  lemma EndOfString(rest: string, out: string)
    requires rest == []
    ensures out + PutString(rest) == out
  {
  }

  lemma PutTurn(rest: string, out: string)
    requires rest != []
    ensures StartsHexReference(rest) ==>
              var k := CopiedRun(rest, 0);
              out + PutString(rest) == out + rest[..k] + PutString(rest[k..])
    ensures !StartsHexReference(rest) ==> out + PutString(rest) == out + Escape(rest[0]) + PutString(rest[1..])
  {
  }

  lemma CopiedTurn(s: string, i: nat)
    requires i < |s|
    ensures CopiedRun(s, i) == if i == |s| - 1 then i else if s[i + 1] == ';' then i + 1 else CopiedRun(s, i + 1)
  {
  }

  lemma SliceOfRest(s: string, start: nat, i: nat)
    requires start <= i <= |s|
    ensures s[i..] == s[start..][i - start..] && s[start..i] == s[start..][..i - start]
  {
  }

  lemma OneMore(s: string, start: nat, i: nat)
    requires start <= i < |s|
    ensures s[start..i] + [s[i]] == s[start..i + 1] && s[start..][i - start] == s[i]
  {
  }

  /** The inner loop of `PutString`. */
  method CopyReference(str: string, start: nat, outString: string) returns (out: string, i: nat)
    requires start < |str| && StartsHexReference(str[start..])
    ensures i == start + CopiedRun(str[start..], 0) && out == outString + str[start..i]
    ensures str[i..] == str[start..][i - start..] && str[start..i] == str[start..][..i - start]
  {
    hide *;
    out, i := outString, start;
    ghost var s := str[start..];
    assert out == outString + str[start..start];
    while i < |str| - 1
      invariant start <= i < |str| && out == outString + str[start..i]
      invariant CopiedRun(s, i - start) == CopiedRun(s, 0)
    {
      CopiedTurn(s, i - start);
      OneMore(str, start, i);
      OneMore(str, start, i + 1);
      assert outString + str[start..i] + [str[i]] == outString + str[start..i + 1];
      out := out + [str[i]];
      i := i + 1;
      if str[i] == ';' {
        SliceOfRest(str, start, i);
        return;
      }
    }
    CopiedTurn(s, i - start);
    SliceOfRest(str, start, i);
  }

  /** The two loops of `SkipWhiteSpace`. */
  method SkipSpaceIn(start: string, enc: Encoding) returns (p: string)
    ensures p == DropSpaceIn(start, enc)
  {
    p := start;
    if enc.Utf8? {
      while p != []
        invariant DropMarks(p) == DropMarks(start)
      {
        if StartsWithMark(p) {
          p := p[3..];
        } else if IsWhiteSpace(p[0]) {
          p := p[1..];
        } else {
          break;
        }
      }
    } else {
      while p != [] && IsWhiteSpace(p[0])
        invariant DropSpace(p) == DropSpace(start)
      {
        p := p[1..];
      }
    }
  }

  /** `SkipWhiteSpace`: null at the terminating NUL. */
  method ScanSpace(start: string, enc: Encoding) returns (r: Outcome<()>)
    ensures r == if start == [] then Null else Done((), DropSpaceIn(start, enc))
    ensures enc.Legacy? ==> r == SkipWhiteSpace(start)
  {
    if start == [] {
      return Null;
    }
    var p := SkipSpaceIn(start, enc);
    r := Done((), p);
  }

  method SkipSpace(start: string) returns (p: string)
    ensures p == DropSpace(start)
  {
    p := SkipSpaceIn(start, Legacy);
  }

  /** `ReadName`: the characters are appended one by one. */
  method ScanName(start: string) returns (r: Outcome<string>)
    ensures r == ReadName(start)
  {
    var name, p := "", start;
    if p == [] || !IsNameStart(p[0]) {
      return Null;
    }
    ghost var n := 0;
    while p != [] && IsNameChar(p[0])
      invariant n <= |start| && name == start[..n] && p == start[n..]
      invariant n + NameRun(p) == NameRun(start)
    {
      name := name + [p[0]];
      p := p[1..];
      n := n + 1;
    }
    r := Done(name, p);
  }

  /** `GetEntity`: the digits are read backwards from the ';'. */
  method ScanEntity(p: string) returns (e: Entity)
    requires p != [] && p[0] == '&'
    ensures e == GetEntity(p)
  {
    if |p| > 2 && p[1] == '#' {
      var hex := p[2] == 'x';
      var from := if hex then 3 else 2;
      if hex && |p| == 3 {
        return Malformed;
      }
      var end := Find(p, ';', from);
      if end == |p| {
        return Malformed;
      }
      var ucs := ScanDigits(p, end - 1, if hex then 'x' else '#', if hex then 16 else 10);
      if ucs < 0 {
        return Malformed;
      }
      return Reference(ucs, p[end + 1..]);
    }
    e := NamedEntity(p);
  }

  method ScanDigits(p: string, last: nat, stop: char, radix: nat) returns (r: int)
    requires last < |p| && exists i :: 0 <= i <= last && p[i] == stop
    ensures r == DigitSum(p, last, stop, radix, 0, 1)
  {
    var q: nat, ucs: nat, mult: nat := last, 0, 1;
    while p[q] != stop
      invariant 0 <= q <= last && exists i :: 0 <= i <= q && p[i] == stop
      invariant DigitSum(p, q, stop, radix, ucs, mult) == DigitSum(p, last, stop, radix, 0, 1)
      decreases q
    {
      var d := DigitOf(p[q], radix);
      if d < 0 {
        return -1;
      }
      var sum, factor := ucs + mult * d % UINT_RANGE, mult * radix % UINT_RANGE;
      assert DigitSum(p, q, stop, radix, ucs, mult) == DigitSum(p, q - 1, stop, radix, sum, factor);
      q, ucs, mult := q - 1, sum, factor;
    }
    r := ucs;
  }

  /** `GetChar`. */
  method ScanChar(p: string, enc: Encoding) returns (r: Outcome<string>)
    requires p != []
    ensures r == GetChar(p, enc)
  {
    hide GetEntity, Encode, ByteTable;
    var length := if enc == Encoding.Utf8 then ByteTable(p[0]) else 1;
    if length == 1 {
      if p[0] != '&' {
        return Done([p[0]], p[1..]);
      }
      var e := ScanEntity(p);
      match e {
        case Malformed =>
          r := Null;
        case Reference(ucs, rest) =>
          if enc == Encoding.Utf8 {
            var bytes, size := ConvertUTF32ToUTF8(ucs);
            r := Done(bytes, rest);
          } else {
            r := Done([(ucs % 256) as char], rest);
          }
        case Character(c, rest) =>
          r := Done([c], rest);
      }
    } else if |p| < length {
      r := Wild;
    } else {
      r := Done(p[..length], p[length..]);
    }
  }

  function Prepended(text: string, r: Outcome<string>): Outcome<string> {
    match r case Done(t, q) => Done(text + t, q) case _ => r
  }

  lemma PrependedTwice(text: string, c: string, r: Outcome<string>)
    ensures Prepended(text, Prepended(c, r)) == Prepended(text + c, r)
  {
    assert r.Done? ==> text + (c + r.value) == text + c + r.value;
  }

  lemma PrependedNothing(r: Outcome<string>)
    ensures Prepended("", r) == r
  {
    assert r.Done? ==> "" + r.value == r.value;
  }

  lemma KeepTurn(p: string, endTag: string, enc: Encoding)
    requires p != [] && !(endTag <= p)
    ensures var c := GetChar(p, enc);
            ReadKeep(p, endTag, enc) ==
              if c.Done? then Prepended(c.value, ReadKeep(c.rest, endTag, enc)) else c
  {
    hide GetChar;
  }

  /** The loop of `ReadText` that keeps white space. */
  method ScanText(start: string, endTag: string, enc: Encoding) returns (r: Outcome<string>)
    ensures r == ReadKeep(start, endTag, enc)
  {
    hide GetChar;
    var text, p := "", start;
    PrependedNothing(ReadKeep(start, endTag, enc));
    while p != [] && !(endTag <= p)
      invariant ReadKeep(start, endTag, enc) == Prepended(text, ReadKeep(p, endTag, enc))
      decreases |p|
    {
      var c := ScanChar(p, enc);
      KeepTurn(p, endTag, enc);
      if c.IsFailure() {
        return c;
      }
      PrependedTwice(text, c.value, ReadKeep(c.rest, endTag, enc));
      text, p := text + c.value, c.rest;
    }
    assert text + "" == text;
    r := Done(text, p);
  }

  lemma TrimTurn(p: string, endTag: string, gap: bool, enc: Encoding)
    requires p != [] && !(endTag <= p) && !IsWhiteSpace(p[0])
    ensures var c := GetChar(p, enc);
            ReadTrim(p, endTag, gap, enc) ==
              if c.Done? then Prepended(if gap then " " + c.value else c.value, ReadTrim(c.rest, endTag, false, enc))
              else c
  {
    hide GetChar;
  }

  /** The branch of `ReadText` that condenses white space. */
  method ScanTrimmedText(start: string, endTag: string, enc: Encoding) returns (r: Outcome<string>)
    ensures r == ReadTrim(DropSpaceIn(start, enc), endTag, false, enc)
  {
    hide GetChar;
    var text, gap := "", false;
    var p := SkipSpaceIn(start, enc);
    ghost var whole := ReadTrim(p, endTag, false, enc);
    PrependedNothing(whole);
    while p != [] && !(endTag <= p)
      invariant whole == Prepended(text, ReadTrim(p, endTag, gap, enc))
      decreases |p|
    {
      if IsWhiteSpace(p[0]) {
        gap, p := true, p[1..];
      } else {
        var c := ScanChar(p, enc);
        TrimTurn(p, endTag, gap, enc);
        if c.IsFailure() {
          return c;
        }
        var added := if gap then " " + c.value else c.value;
        PrependedTwice(text, added, ReadTrim(c.rest, endTag, false, enc));
        text, p, gap := text + added, c.rest, false;
      }
    }
    assert text + "" == text;
    r := Done(text, p);
  }

  /** The CDATA loop of `TiXmlText::Parse`. */
  method ScanRun(start: string, endTag: string) returns (run: string, p: string)
    ensures run == start[..RunBefore(start, endTag)] && p == start[RunBefore(start, endTag)..]
  {
    hide *;
    run, p := "", start;
    ghost var n := 0;
    NoneTaken(start);
    while p != [] && !(endTag <= p)
      invariant n <= |start| && run == start[..n] && p == start[n..]
      invariant n + RunBefore(p, endTag) == RunBefore(start, endTag)
      decreases |p|
    {
      RunBeforeIs(p, endTag);
      OneTaken(start, n);
      run := run + [p[0]];
      p := p[1..];
      n := n + 1;
    }
    RunBeforeIs(p, endTag);
  }

  lemma NoneTaken(s: string)
    ensures s[..0] == "" && s[0..] == s
  {
  }

  lemma OneTaken(s: string, n: nat)
    requires n < |s|
    ensures s[..n] + [s[n..][0]] == s[..n + 1] && s[n..][1..] == s[n + 1..]
  {
  }

  /** The loop of `TiXmlAttribute::Parse` for a value without quotes. */
  method ScanBareValue(start: string) returns (value: string, p: string)
    ensures value == start[..BareRun(start)] && p == start[BareRun(start)..]
  {
    value, p := "", start;
    ghost var n := 0;
    while p != [] && !IsWhiteSpace(p[0]) && p[0] != '/' && p[0] != '>'
      invariant n <= |start| && value == start[..n] && p == start[n..]
      invariant n + BareRun(p) == BareRun(start)
    {
      value := value + [p[0]];
      p := p[1..];
      n := n + 1;
    }
  }
}
