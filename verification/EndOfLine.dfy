/** End-of-line handling when a document is loaded. */
module EndOfLine {
  import opened XmlText

  /** Section 2.11 of XML 1.0: every CR LF, and every CR without LF, becomes one LF. */
  function Normalised(s: string): string
    decreases |s|
  {
    if s == [] then []
    else if s[0] != '\r' then [s[0]] + Normalised(s[1..])
    else ['\n'] + Normalised(if |s| > 1 && s[1] == '\n' then s[2..] else s[1..])
  }

  /** `data` holds what precedes `last`, the run from `last` to `p` is still to be appended. */
  ghost predicate Appending(text: string, data: string, last: nat, p: nat) {
    last <= p <= |text| && data + text[last..p] + Normalised(text[p..]) == Normalised(text)
  }

  lemma AppendingMoves(text: string, data: string, last: nat, p: nat)
    requires Appending(text, data, last, p) && p < |text|
    ensures text[p] != '\r' ==> Appending(text, data, last, p + 1)
    ensures text[p] == '\n' ==> Appending(text, data + text[last..p + 1], p + 1, p + 1)
    ensures var q := if p + 1 < |text| && text[p + 1] == '\n' then p + 2 else p + 1;
            text[p] == '\r' ==> Appending(text, data + text[last..p] + "\n", q, q)
  {
    var rest := text[p..];
    assert rest[0] == text[p] && rest[1..] == text[p + 1..] && (|rest| > 1 ==> rest[2..] == text[p + 2..]);
    assert text[last..p + 1] == text[last..p] + [text[p]];
    var q := if p + 1 < |text| && text[p + 1] == '\n' then p + 2 else p + 1;
    if text[p] == '\r' {
      assert Normalised(rest) == ['\n'] + Normalised(text[q..]);
      assert text[q..q] == [];
      MovePast(data, text[last..p], "\n", Normalised(text[q..]));
    } else {
      assert text[p + 1..p + 1] == [];
      MovePast(data, text[last..p], [text[p]], Normalised(text[p + 1..]));
    }
  }

  lemma MovePast(data: string, run: string, c: string, rest: string)
    ensures data + run + (c + rest) == data + (run + c) + rest
    ensures data + run + (c + rest) == data + (run + c) + [] + rest
    ensures data + run + (c + rest) == data + run + c + [] + rest
  {
  }

  lemma CStringEnds(buf: string)
    ensures var text := CString(buf);
            && |text| <= |buf| && (forall i :: 0 <= i < |text| ==> buf[i] == text[i] && buf[i] != '\0')
            && (|text| < |buf| ==> buf[|text|] == '\0')
  {
    assert CString(buf) == buf[..Find(buf, '\0', 0)];
    assert buf[0..Find(buf, '\0', 0)] == CString(buf);
  }

  lemma StartsAppending(text: string)
    ensures Appending(text, "", 0, 0)
  {
    assert text[0..] == text && "" + text[0..0] + Normalised(text) == Normalised(text);
  }

  lemma EndsAppending(text: string, data: string, last: nat, p: nat)
    requires Appending(text, data, last, p) && p == |text|
    ensures data + text[last..p] == Normalised(text)
    ensures p == last ==> data == Normalised(text)
  {
    assert text[p..] == [] && data + text[last..p] + [] == data + text[last..p];
    assert p == last ==> data + text[last..p] == data;
  }

  /** The loop of `LoadFile`: runs are appended whole, between the line breaks, up to the first NUL. */
  method NormaliseBuffer(buf: string) returns (data: string)
    ensures data == Normalised(CString(buf))
  {
    ghost var text := CString(buf);
    CStringEnds(buf);
    hide *;
    data := "";
    var last, p := 0, 0;
    StartsAppending(text);
    while p < |buf| && buf[p] != '\0'
      invariant last <= p <= |text| <= |buf| && Appending(text, data, last, p)
      invariant forall i :: 0 <= i < |text| ==> buf[i] == text[i] && buf[i] != '\0'
      invariant |text| < |buf| ==> buf[|text|] == '\0'
      decreases |buf| - p
    {
      AppendingMoves(text, data, last, p);
      assert buf[last..p] == text[last..p] && buf[last..p + 1] == text[last..p + 1];
      if buf[p] == '\n' {
        data := data + buf[last..p + 1];
        p := p + 1;
        last := p;
      } else if buf[p] == '\r' {
        if p - last > 0 {
          data := data + buf[last..p];
        } else {
          assert data + text[last..p] == data;
        }
        data := data + "\n";
        p := if p + 1 < |buf| && buf[p + 1] == '\n' then p + 2 else p + 1;
        last := p;
      } else {
        p := p + 1;
      }
    }
    EndsAppending(text, data, last, p);
    if p - last > 0 {
      assert buf[last..p] == text[last..p];
      data := data + buf[last..p];
    }
  }

  /** Normalised text has no CR, is no longer, and loses no other character but the LF of a CR LF. */
  lemma {:induction false} NormalisedHasNoCr(s: string)
    ensures '\r' !in Normalised(s) && |Normalised(s)| <= |s|
    ensures NulFree(s) ==> NulFree(Normalised(s))
    decreases |s|
  {
    if s != [] {
      var n := if s[0] == '\r' && |s| > 1 && s[1] == '\n' then 2 else 1;
      NormalisedHasNoCr(s[n..]);
      assert forall c :: c in s[n..] ==> c in s;
    }
  }

  /** Exactly the texts without CR are left as they are. */
  lemma {:induction false} NormalisedIsSameExactly(s: string)
    ensures Normalised(s) == s <==> '\r' !in s
    decreases |s|
  {
    NormalisedHasNoCr(s);
    if s != [] && s[0] != '\r' {
      NormalisedIsSameExactly(s[1..]);
      assert s == [s[0]] + s[1..];
    }
  }

  lemma NormalisingTwice(s: string)
    ensures Normalised(Normalised(s)) == Normalised(s)
  {
    NormalisedHasNoCr(s);
    NormalisedIsSameExactly(Normalised(s));
  }

  /** Text between line breaks is not touched, whatever the breaks are. */
  lemma {:induction false} LineIsKept(line: string, rest: string)
    requires '\r' !in line
    ensures Normalised(line + rest) == line + Normalised(rest)
    decreases |line|
  {
    if line == [] {
      assert line + rest == rest;
    } else {
      assert (line + rest)[1..] == line[1..] + rest && line == [line[0]] + line[1..];
      LineIsKept(line[1..], rest);
    }
  }

  lemma BreaksAreAlike(rest: string)
    ensures Normalised("\r\n" + rest) == "\n" + Normalised(rest) == Normalised("\n" + rest)
    ensures rest == [] || rest[0] != '\n' ==> Normalised("\r" + rest) == "\n" + Normalised(rest)
  {
    assert ("\r\n" + rest)[2..] == rest && ("\n" + rest)[1..] == rest && ("\r" + rest)[1..] == rest;
  }
}
