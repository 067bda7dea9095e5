/** Cutting CRLF-terminated lines out of a stream that arrives in packets. */
module LineReader {
  import opened ByteBuffer
  import opened XmlText

  const LINE_SIZE := 1024

  // ---------- The leftmost-CRLF split ----------

  predicate CrlfAt(s: string, k: nat) {
    k + 1 < |s| && s[k] == '\r' && s[k + 1] == '\n'
  }

  /** Where the leftmost CRLF of `s` starts, or the length of `s` if there is none. */
  function FirstCrlf(s: string): (k: nat)
    ensures k <= |s| && (k < |s| ==> CrlfAt(s, k))
  {
    if s == [] || CrlfAt(s, 0) then 0
    else
      var k := FirstCrlf(s[1..]);
      assert k < |s| - 1 ==> CrlfAt(s[1..], k);
      k + 1
  }

  lemma {:induction false} NoneBefore(s: string, j: nat)
    requires j < FirstCrlf(s)
    ensures !CrlfAt(s, j)
  {
    if j > 0 {
      NoneBefore(s[1..], j - 1);
    }
  }

  lemma {:induction false} FirstCrlfIs(s: string, k: nat)
    requires k <= |s| && (k < |s| ==> CrlfAt(s, k)) && forall j :: 0 <= j < k ==> !CrlfAt(s, j)
    ensures FirstCrlf(s) == k
  {
    if k > 0 {
      assert !CrlfAt(s, 0);
      forall j | 0 <= j < k - 1 ensures !CrlfAt(s[1..], j) {
        assert !CrlfAt(s, j + 1);
      }
      FirstCrlfIs(s[1..], k - 1);
    }
  }

  /** The complete lines of `s`. */
  function Lines(s: string): seq<string>
    decreases |s|
  {
    var k := FirstCrlf(s);
    if k == |s| then [] else [s[..k]] + Lines(s[k + 2..])
  }

  /** What follows the last CRLF. */
  function Rest(s: string): string
    decreases |s|
  {
    var k := FirstCrlf(s);
    if k == |s| then s else Rest(s[k + 2..])
  }

  /** A CRLF that is complete stays the leftmost one when more bytes arrive. */
  lemma CompleteStays(s: string, t: string)
    requires FirstCrlf(s) < |s|
    ensures FirstCrlf(s + t) == FirstCrlf(s)
  {
    hide FirstCrlf;
    var k := FirstCrlf(s);
    forall j | 0 <= j < k ensures !CrlfAt(s + t, j) {
      NoneBefore(s, j);
    }
    FirstCrlfIs(s + t, k);
  }

  lemma LineIs(s: string)
    ensures var k := FirstCrlf(s);
            if k == |s| then Lines(s) == [] && Rest(s) == s
            else Lines(s) == [s[..k]] + Lines(s[k + 2..]) && Rest(s) == Rest(s[k + 2..])
  {
    hide FirstCrlf, CrlfAt;
    var k := FirstCrlf(s);
    if k < |s| {
      assert CrlfAt(s, k);
      InBounds(s, k);
      assert Lines(s) == [s[..k]] + Lines(s[k + 2..]);
      assert Rest(s) == Rest(s[k + 2..]);
    } else {
      assert Lines(s) == [];
      assert Rest(s) == s;
    }
  }

  lemma InBounds(s: string, k: nat)
    requires CrlfAt(s, k)
    ensures k + 2 <= |s|
  {
  }

  /** Splitting can stop anywhere and go on with what is left. */
  lemma {:induction false} LinesConcat(s: string, t: string)
    ensures Lines(s + t) == Lines(s) + Lines(Rest(s) + t)
    ensures Rest(s + t) == Rest(Rest(s) + t)
    decreases |s|
  {
    hide FirstCrlf, Lines, Rest;
    var k := FirstCrlf(s);
    LineIs(s);
    if k < |s| {
      CompleteStays(s, t);
      assert (s + t)[..k] == s[..k] && (s + t)[k + 2..] == s[k + 2..] + t;
      LineIs(s + t);
      LinesConcat(s[k + 2..], t);
    } else {
      assert [] + Lines(s + t) == Lines(s + t);
    }
  }

  lemma {:induction false} RestIsOpen(s: string)
    ensures FirstCrlf(Rest(s)) == |Rest(s)|
    decreases |s|
  {
    var k := FirstCrlf(s);
    if k < |s| {
      RestIsOpen(s[k + 2..]);
    }
  }

  /** The lines and the rest are the whole stream. */
  function Joined(lines: seq<string>): string {
    if lines == [] then [] else lines[0] + "\r\n" + Joined(lines[1..])
  }

  lemma {:induction false} NothingIsLost(s: string)
    ensures Joined(Lines(s)) + Rest(s) == s
    ensures forall i :: 0 <= i < |Lines(s)| ==> FirstCrlf(Lines(s)[i]) == |Lines(s)[i]|
    decreases |s|
  {
    hide FirstCrlf, Lines, Rest;
    var k := FirstCrlf(s);
    LineIs(s);
    if k < |s| {
      NothingIsLost(s[k + 2..]);
      LineHasNone(s);
      assert s == s[..k] + "\r\n" + s[k + 2..];
    }
  }

  lemma LineHasNone(s: string)
    ensures var line := s[..FirstCrlf(s)]; FirstCrlf(line) == |line|
  {
    hide FirstCrlf;
    var line := s[..FirstCrlf(s)];
    forall j | 0 <= j < |line| ensures !CrlfAt(line, j) {
      NoneBefore(s, j);
    }
    FirstCrlfIs(line, |line|);
  }

  /** With no CRLF pending, the next one is completed by the first new byte or lies within the new bytes. */
  lemma SplitCrlf(p: string, b: string)
    requires FirstCrlf(p) == |p|
    ensures FirstCrlf(p + b)
         == if p != [] && p[|p| - 1] == '\r' && b != [] && b[0] == '\n' then |p| - 1 else |p| + FirstCrlf(b)
  {
    hide FirstCrlf;
    var s := p + b;
    var straddles := p != [] && p[|p| - 1] == '\r' && b != [] && b[0] == '\n';
    var k := if straddles then |p| - 1 else |p| + FirstCrlf(b);
    forall j | 0 <= j < k ensures !CrlfAt(s, j) {
      if j < |p| {
        NoneBefore(p, j);
      } else {
        NoneBefore(b, j - |p|);
      }
    }
    FirstCrlfIs(s, k);
  }

  // ---------- The reader ----------

  /** `line` holds a C string, the bytes already taken off the stream; `buf` the bytes not looked at. */
  class Line {
    const line: Buffer
    const buf: Buffer

    constructor ()
      ensures Valid() && Pending() == [] && buf.Contents() == [] && fresh(Footprint())
    {
      line := new Buffer();
      buf := new Buffer();
    }

    ghost function Footprint(): set<object>
      reads line, buf
    {
      {line, buf} + line.Cells() + buf.Cells()
    }

    ghost predicate Apart()
      reads line, buf
    {
      line != buf && line.Valid() && buf.Valid() && (line.cells != null ==> line.cells != buf.cells)
    }

    ghost function Pending(): string
      requires line.Valid()
      reads line, line.Cells()
    {
      if line.size == 0 then [] else line.Contents()[..line.size - 1]
    }

    ghost predicate Terminated()
      requires line.Valid()
      reads line, line.Cells()
    {
      NulFree(Pending()) && (line.size > 0 ==> line.Contents()[line.size - 1] == '\0')
    }

    ghost predicate Valid()
      reads line, buf, line.Cells(), buf.Cells()
    {
      Apart() && Terminated() && NulFree(buf.Contents()) && FirstCrlf(Pending()) == |Pending()|
    }

    /** `get_from_special_case`: the CR is the last byte of `line`, the LF the first of `buf`. */
    method SpecialCase()
      requires Apart() && line.size >= 2 && buf.size >= 1
      modifies line, buf, line.Cells(), buf.Cells()
      ensures Apart() && line.cells == old(line.cells) && buf.cells == old(buf.cells)
      ensures buf.Contents() == old(buf.Contents())[1..]
      ensures line.Contents() == old(line.Contents()[..line.size - 2]) + "\0"
    {
      var bufsz := buf.size - 1;
      buf.Resize(bufsz);
      var sz := 0;
      while sz < bufsz
        invariant 0 <= sz <= bufsz == buf.size && Apart() && buf.cells == old(buf.cells) && bufsz < buf.cells.Length
        invariant line.Contents() == old(line.Contents()) && line.size == old(line.size) && line.cells == old(line.cells)
        invariant forall i :: 0 <= i < sz ==> buf.cells[i] == old(buf.cells[i + 1])
        invariant forall i :: sz <= i <= bufsz ==> buf.cells[i] == old(buf.cells[i])
      {
        buf.cells[sz] := buf.cells[sz + 1];
        sz := sz + 1;
      }
      assert buf.Contents() == old(buf.Contents())[1..];
      sz := line.size - 1;
      line.Resize(sz);
      line.cells[sz - 1] := '\0';
    }

    static predicate IsEndOfLine(cells: array<char>, n: nat)
      requires 1 <= n < cells.Length
      reads cells
    {
      cells[n - 1] == '\r' && cells[n] == '\n'
    }

    /** The search of `get_from_normal_case`. */
    method Search() returns (n: nat, found: bool)
      requires buf.Valid()
      ensures n == FirstCrlf(buf.Contents()) && (found <==> n < buf.size)
    {
      n, found := 0, false;
      ghost var b := buf.Contents();
      var bufsz := buf.size;
      if bufsz > 0 {
        n := 1;
        while n < bufsz && !IsEndOfLine(buf.cells, n)
          invariant 1 <= n <= bufsz
          invariant forall j :: 0 <= j < n - 1 ==> !CrlfAt(b, j)
        {
          assert !CrlfAt(b, n - 1);
          n := n + 1;
        }
        if n < bufsz {
          found := true;
          n := n - 1;
        }
        assert !CrlfAt(b, bufsz - 1);
        FirstCrlfIs(b, n);
      }
    }

    /** `line` grows by the first `n` bytes of `buf`. */
    method Extend(n: nat)
      requires Apart() && Terminated() && line.size > 0 && n <= buf.size
      modifies line
      ensures Apart() && fresh(line.cells) && line.size == old(line.size) + n
      ensures line.Contents() == old(Pending()) + buf.Contents()[..n] + "\0"
    {
      hide NulFree;
      var len := n + line.size - 1;
      var bytes := new char[len + 1];
      var end := CopyPending(bytes);
      if buf.cells != null {
        Copy(bytes, end, buf.cells, n);
      }
      assert bytes[..len] == Pending() + buf.Contents()[..n];
      bytes[len] := '\0';
      assert bytes[..len + 1] == bytes[..len] + "\0";
      line.Affect(bytes, len + 1);
    }

    /** The pending bytes are copied up to the NUL. */
    method CopyPending(bytes: array<char>) returns (end: nat)
      requires line.Valid() && Terminated() && line.size > 0 && bytes != line.cells && bytes.Length >= line.size
      modifies bytes
      ensures end == |Pending()| < bytes.Length && bytes[..end] == Pending()
    {
      ghost var pending := Pending();
      assert line.cells[line.size - 1] == '\0';
      end := CopyString(bytes, line.cells);
      assert forall i :: 0 <= i < |pending| ==> line.cells[i] == pending[i] && pending[i] != '\0';
      assert bytes[..end] == bytes[..end + 1][..end];
      assert line.cells[..end + 1][..end] == pending;
    }

    /** The bytes up to `n`, and the CRLF there if there is one, leave `buf`. */
    method Drop(n: nat)
      requires Apart() && (n == buf.size || n + 2 <= buf.size)
      modifies buf, buf.Cells()
      ensures Apart() && line.cells == old(line.cells) && (buf.cells == old(buf.cells) || fresh(buf.cells))
      ensures buf.Contents() == if n == old(buf.size) then [] else old(buf.Contents())[n + 2..]
    {
      if n == buf.size {
        buf.Resize(0);
      } else {
        var bufsz := buf.size - 2;
        var i, k := 0, n;
        while k < bufsz
          invariant n <= k <= bufsz && i == k - n && Apart() && buf.size == old(buf.size) && buf.cells == old(buf.cells)
          invariant forall j :: 0 <= j < i ==> buf.cells[j] == old(buf.cells[j + n + 2])
          invariant forall j :: i <= j < buf.size ==> buf.cells[j] == old(buf.cells[j])
        {
          buf.cells[i] := buf.cells[k + 2];
          i, k := i + 1, k + 1;
        }
        assert buf.cells[..i] == old(buf.Contents())[n + 2..];
        buf.Resize(i);
      }
    }

    /** The first step of `get_from_normal_case`. */
    method Start()
      requires Apart() && Terminated()
      modifies line, line.Cells()
      ensures Apart() && Terminated() && line.size > 0 && Pending() == old(Pending())
      ensures line.cells == old(line.cells) || fresh(line.cells)
    {
      if line.size == 0 {
        line.Resize(1);
        line.cells[0] := '\0';
      }
    }

    ghost function Unread(): string
      requires Apart()
      reads line, buf, line.Cells(), buf.Cells()
    {
      Pending() + buf.Contents()
    }

    /** `get_from_normal_case`. */
    method NormalCase() returns (found: bool)
      requires Valid()
      modifies Footprint()
      ensures Apart() && fresh(Footprint() - old(Footprint()))
      ensures Cut(old(Unread()), found, line.Contents(), buf.Contents())
    {
      hide FirstCrlf, Cut;
      Start();
      label Started:
      ghost var owned := Footprint();
      found := TakeCut(Pending(), buf.Contents());
      assert forall o :: o in Footprint() && o !in owned ==> fresh@Started(o);
    }

    /** The rest of `get_from_normal_case`, for the pending bytes `p` and the new ones `b`. */
    method TakeCut(ghost p: string, ghost b: string) returns (found: bool)
      requires Apart() && Terminated() && line.size > 0
      requires p == Pending() && b == buf.Contents() && FirstCrlf(p) == |p|
      modifies Footprint()
      ensures Apart() && fresh(Footprint() - old(Footprint()))
      ensures Cut(p + b, found, line.Contents(), buf.Contents())
    {
      hide FirstCrlf, Cut, Terminated, CrlfAt;
      LineIsPending();
      var len := line.size - 1;
      if len > 0 && line.cells[len - 1] == '\r' && buf.size > 0 && buf.cells[0] == '\n' {
        SpecialCase();
        found := true;
        CutInTwo(p, b);
      } else {
        CutWithin(p, b);
        found := Normal();
      }
    }

    /** Feeds `b` to the reader and asks for a line. */
    method FromBuffer(b: Buffer) returns (ret: bool, ln: string, tooLong: bool)
      requires Valid() && b.Valid() && NulFree(b.Contents()) && b != line && b != buf
      modifies Footprint()
      ensures Valid() && fresh(Footprint() - old(Footprint()))
      ensures Served(old(Unread() + b.Contents()), ret, ln, Pending(), buf.Contents())
      ensures tooLong <==> !ret && |Pending()| >= 1023
    {
      ghost var s := Unread() + b.Contents();
      hide FirstCrlf, Cut, Served, Valid, Apart, Unread, Pending, NulFree;
      Feed(b);
      label Fed:
      ghost var owned := Footprint();
      ret := NormalCase();
      assert forall o :: o in Footprint() && o !in owned ==> fresh@Fed(o);
      ln, tooLong := Deliver(ret, s);
    }

    method Feed(b: Buffer)
      requires Valid() && b.Valid() && NulFree(b.Contents()) && b != line && b != buf
      modifies buf
      ensures Valid() && fresh(buf.Cells())
      ensures Unread() == old(Unread() + b.Contents()) && NulFree(Unread())
    {
      hide FirstCrlf;
      UnreadIsClean(b.Contents());
      buf.Append(b);
    }

    /** The end of `from_buffer`. */
    method Deliver(found: bool, ghost s: string) returns (ln: string, tooLong: bool)
      requires Apart() && Cut(s, found, line.Contents(), buf.Contents()) && NulFree(s)
      modifies line
      ensures Valid() && Footprint() <= old(Footprint())
      ensures Served(s, found, ln, Pending(), buf.Contents())
      ensures tooLong <==> !found && |Pending()| >= 1023
    {
      hide FirstCrlf, Cut, Served;
      CutIsServed(s, found, line.Contents(), buf.Contents());
      ln, tooLong := "", false;
      if found {
        ln := line.CStr();
        WholeString(ln, line.Contents());
        line.Reset();
        NoCrlf();
      } else {
        PendingIs(s);
        tooLong := line.size >= LINE_SIZE;
      }
    }

    lemma UnreadIsClean(more: string)
      requires Valid() && NulFree(more)
      ensures NulFree(Unread() + more) && Unread() + more == Pending() + (buf.Contents() + more)
    {
      hide FirstCrlf;
    }

    lemma PendingIs(s: string)
      requires line.Valid() && line.Contents() == s + "\0" && NulFree(s)
      ensures Pending() == s && Terminated()
    {
    }

    method GetBytes(dest: Buffer, nbytes: nat)
      requires Valid() && dest != line && dest != buf
      modifies dest, buf, buf.Cells()
      ensures Valid() && dest.Valid() && fresh(dest.Cells()) && Pending() == old(Pending())
      ensures var n := if nbytes < |old(buf.Contents())| then nbytes else |old(buf.Contents())|;
              dest.Contents() == old(buf.Contents())[..n] && buf.Contents() == old(buf.Contents())[n..]
    {
      hide FirstCrlf, NulFree;
      ghost var b := buf.Contents();
      var bufsz := nbytes;
      if nbytes > buf.size {
        bufsz := buf.size;
      }
      TailIsClean(b, bufsz);
      dest.Assign(buf);
      dest.Resize(bufsz);
      var _ := buf.RemoveFront(nbytes);
      assert buf.Contents() == b[bufsz..];
    }

    /** `reset` forgets the bytes taken off the stream and keeps those not looked at. */
    method Reset()
      requires Valid()
      modifies line
      ensures Valid() && Pending() == [] && buf.Contents() == old(buf.Contents())
    {
      line.Reset();
    }

    lemma LineIsPending()
      requires line.Valid() && line.size > 0
      ensures line.cells != null && |Pending()| == line.size - 1
      ensures forall i :: 0 <= i < |Pending()| ==> line.cells[i] == Pending()[i]
      ensures line.size > 1 ==> line.Contents()[..line.size - 2] == Pending()[..|Pending()| - 1]
    {
    }

    method Normal() returns (found: bool)
      requires Apart() && Terminated() && line.size > 0
      modifies Footprint()
      ensures Apart() && fresh(Footprint() - old(Footprint()))
      ensures var n := FirstCrlf(old(buf.Contents()));
              && (found <==> n < |old(buf.Contents())|)
              && line.Contents() == old(Pending() + buf.Contents()[..n]) + "\0"
              && buf.Contents() == if n == |old(buf.Contents())| then [] else old(buf.Contents())[n + 2..]
    {
      hide FirstCrlf;
      var n;
      n, found := Search();
      Extend(n);
      Drop(n);
    }
  }

  /** The pending bytes and the new ones have been cut at the leftmost CRLF, or all are pending. */
  ghost predicate Cut(s: string, found: bool, line: string, buf: string) {
    var k := FirstCrlf(s);
    && (found <==> k < |s|)
    && line == s[..k] + "\0" && buf == if found then s[k + 2..] else []
  }

  /** The line before the leftmost CRLF is served and what follows it kept for later; or all bytes are pending. */
  ghost predicate Served(s: string, ret: bool, ln: string, pending: string, buf: string) {
    var k := FirstCrlf(s);
    && (ret <==> k < |s|)
    && if ret then ln == s[..k] && pending == [] && buf == s[k + 2..] else ln == "" && pending == s && buf == []
  }

  lemma CutIsServed(s: string, ret: bool, line: string, buf: string)
    requires Cut(s, ret, line, buf) && NulFree(s)
    ensures line != [] && NulFree(buf) && var ln := line[..|line| - 1];
                                          line == ln + "\0" && NulFree(ln) && (!ret ==> ln == s && FirstCrlf(s) == |s|)
                                          && Served(s, ret, if ret then ln else "", if ret then [] else s, buf)
  {
    hide FirstCrlf;
    assert (s[..FirstCrlf(s)] + "\0")[..FirstCrlf(s)] == s[..FirstCrlf(s)];
  }

  lemma TailIsClean(s: string, n: nat)
    requires n <= |s| && NulFree(s)
    ensures NulFree(s[n..])
  {
  }

  lemma NoCrlf()
    ensures FirstCrlf([]) == 0
  {
  }

  lemma WholeString(s: string, line: string)
    requires line != [] && line[|line| - 1] == '\0' && '\0' !in line[..|line| - 1]
    requires s <= line && '\0' !in s && (|s| < |line| ==> line[|s|] == '\0')
    ensures s == line[..|line| - 1]
  {
    var n := |line| - 1;
    assert forall i :: 0 <= i < n ==> line[i] in line[..n];
    assert forall i :: 0 <= i < |s| ==> s[i] == line[i];
  }

  lemma CutInTwo(p: string, b: string)
    requires FirstCrlf(p) == |p| && p != [] && p[|p| - 1] == '\r' && b != [] && b[0] == '\n'
    ensures Cut(p + b, true, p[..|p| - 1] + "\0", b[1..])
  {
    hide FirstCrlf;
    SplitCrlf(p, b);
    assert (p + b)[..|p| - 1] == p[..|p| - 1] && (p + b)[|p| + 1..] == b[1..];
  }

  lemma CutWithin(p: string, b: string)
    requires FirstCrlf(p) == |p| && !(p != [] && p[|p| - 1] == '\r' && b != [] && b[0] == '\n')
    ensures var n := FirstCrlf(b);
            Cut(p + b, n < |b|, p + b[..n] + "\0", if n == |b| then [] else b[n + 2..])
  {
    hide *;
    var n, s := FirstCrlf(b), p + b;
    SplitCrlf(p, b);
    CutIs(s);
    TakePast(p, b, n);
    if n < |b| {
      InBounds(b, n);
      DropPast(p, b, n + 2);
    }
  }

  lemma CutIs(s: string)
    ensures var k := FirstCrlf(s); Cut(s, k < |s|, s[..k] + "\0", if k < |s| then s[k + 2..] else [])
  {
    hide FirstCrlf, CrlfAt;
  }

  lemma TakePast(p: string, b: string, n: nat)
    requires n <= |b|
    ensures (p + b)[..|p| + n] == p + b[..n]
  {
  }

  lemma DropPast(p: string, b: string, n: nat)
    requires n <= |b|
    ensures (p + b)[|p| + n..] == b[n..]
  {
  }

  // ---------- Draining ----------

  /** Of the stream `s`, `lines` and then `ln` have been served, and `left` is unread. */
  ghost predicate Draining(s: string, lines: seq<string>, ret: bool, ln: string, left: string) {
    && Lines(s) == lines + (if ret then [ln] else []) + Lines(left)
    && Rest(s) == Rest(left)
    && (!ret ==> FirstCrlf(left) == |left|)
  }

  lemma DrainStarts(s: string, ret: bool, ln: string, left: string)
    requires ServesLine(s, ret, ln, left)
    ensures Draining(s, [], ret, ln, left)
  {
    hide FirstCrlf, Lines, Rest;
    LineIs(s);
    assert [] + [ln] == [ln];
  }

  lemma DrainGoesOn(s: string, lines: seq<string>, ln: string, left: string, ret: bool, ln': string, left': string)
    requires Draining(s, lines, true, ln, left) && ServesLine(left, ret, ln', left')
    ensures Draining(s, lines + [ln], ret, ln', left')
  {
    hide FirstCrlf, Lines, Rest;
    LineIs(left);
    assert lines + [ln] + ([ln'] + Lines(left')) == lines + [ln] + [ln'] + Lines(left');
  }

  lemma DrainEnds(s: string, lines: seq<string>, ln: string, left: string)
    requires Draining(s, lines, false, ln, left)
    ensures lines == Lines(s) && left == Rest(s)
  {
    hide FirstCrlf, Lines, Rest;
    LineIs(left);
  }

  ghost predicate ServesLine(s: string, ret: bool, ln: string, left: string) {
    if ret then Lines(s) == [ln] + Lines(left) && Rest(s) == Rest(left) && |left| < |s|
    else FirstCrlf(s) == |s| && s == left
  }

  lemma TakeLine(reader: Line, s: string, ret: bool, ln: string)
    requires reader.Valid() && Served(s, ret, ln, reader.Pending(), reader.buf.Contents())
    ensures ServesLine(s, ret, ln, reader.Unread()) && (ret ==> |reader.Unread()| < |s|)
  {
    hide FirstCrlf, Lines, Rest;
    LineIs(s);
    assert [] + reader.buf.Contents() == reader.buf.Contents();
  }

  /** Feeding one packet and asking for lines until there is none. */
  method DrainPacket(reader: Line, data: string) returns (lines: seq<string>)
    requires reader.Valid() && NulFree(data)
    modifies reader.Footprint()
    ensures reader.Valid() && reader.Apart() && fresh(reader.Footprint() - old(reader.Footprint()))
    ensures lines == Lines(old(reader.Unread()) + data) && reader.Unread() == Rest(old(reader.Unread()) + data)
  {
    ghost var s := reader.Unread() + data;
    var packet := new Buffer.FromBytes(data);
    hide *;
    var ret, ln := Ask(reader, packet);
    DrainStarts(s, ret, ln, reader.Unread());
    ghost var owned := reader.Footprint();
    label Before:
    lines := ServeAll(reader, packet, ret, ln, s);
    assert forall o :: o in reader.Footprint() && o !in owned ==> fresh@Before(o);
  }

  method ServeAll(reader: Line, packet: Buffer, first: bool, line: string, ghost s: string)
    returns (lines: seq<string>)
    requires reader.Valid() && reader.Apart() && packet != reader.line && packet != reader.buf
    requires Draining(s, [], first, line, reader.Unread())
    modifies reader.Footprint(), packet
    ensures reader.Valid() && reader.Apart() && fresh(reader.Footprint() - old(reader.Footprint()))
    ensures lines == Lines(s) && reader.Unread() == Rest(s)
  {
    hide *;
    lines := [];
    var ret, ln := first, line;
    while ret
      invariant reader.Valid() && reader.Apart() && fresh(reader.Footprint() - old(reader.Footprint()))
      invariant Draining(s, lines, ret, ln, reader.Unread())
      decreases ret, |reader.Unread()|
    {
      ghost var left, taken, done, owned := reader.Unread(), ln, lines, reader.Footprint();
      lines := lines + [ln];
      label Before:
      ret, ln := Again(reader, packet);
      assert forall o :: o in reader.Footprint() && o !in owned ==> fresh@Before(o);
      DrainGoesOn(s, done, taken, left, ret, ln, reader.Unread());
    }
    DrainEnds(s, lines, ln, reader.Unread());
  }

  method Again(reader: Line, packet: Buffer) returns (ret: bool, ln: string)
    requires reader.Valid() && reader.Apart() && packet != reader.line && packet != reader.buf
    modifies reader.Footprint(), packet
    ensures reader.Valid() && reader.Apart() && fresh(reader.Footprint() - old(reader.Footprint()))
    ensures ServesLine(old(reader.Unread()), ret, ln, reader.Unread())
    ensures ret ==> |reader.Unread()| < |old(reader.Unread())|
  {
    ghost var left := reader.Unread();
    assert left + "" == left;
    hide Line.Valid, Line.Apart, Line.Unread, Line.Pending, ServesLine;
    packet.Reset();
    ret, ln := Ask(reader, packet);
  }

  method Ask(reader: Line, packet: Buffer) returns (ret: bool, ln: string)
    requires reader.Valid() && packet.Valid() && NulFree(packet.Contents())
    requires packet != reader.line && packet != reader.buf
    modifies reader.Footprint()
    ensures reader.Valid() && reader.Apart() && fresh(reader.Footprint() - old(reader.Footprint()))
    ensures ServesLine(old(reader.Unread() + packet.Contents()), ret, ln, reader.Unread())
    ensures ret ==> |reader.Unread()| < |old(reader.Unread() + packet.Contents())|
  {
    ghost var s := reader.Unread() + packet.Contents();
    hide *;
    var tooLong;
    ret, ln, tooLong := reader.FromBuffer(packet);
    TakeLine(reader, s, ret, ln);
  }

  function Flatten(packets: seq<string>): string {
    if packets == [] then [] else packets[0] + Flatten(packets[1..])
  }

  /** However a stream is divided into packets, draining the reader yields the complete lines of the stream, and
      leaves what follows its last CRLF. */
  method Drain(reader: Line, packets: seq<string>) returns (lines: seq<string>)
    requires reader.Valid() && forall i :: 0 <= i < |packets| ==> NulFree(packets[i])
    requires packets == [] ==> FirstCrlf(reader.Unread()) == |reader.Unread()|
    modifies reader.Footprint()
    ensures reader.Valid() && fresh(reader.Footprint() - old(reader.Footprint()))
    ensures lines == Lines(old(reader.Unread()) + Flatten(packets))
    ensures reader.Unread() == Rest(old(reader.Unread()) + Flatten(packets))
  {
    ghost var s := reader.Unread();
    NoneDrained(reader, packets);
    hide *;
    lines := [];
    var k := 0;
    while k < |packets|
      invariant 0 <= k <= |packets| && reader.Valid() && reader.Apart()
      invariant fresh(reader.Footprint() - old(reader.Footprint()))
      invariant forall i :: 0 <= i < |packets| ==> NulFree(packets[i])
      invariant Drained(s, packets, k, lines, reader.Unread())
    {
      ghost var left, owned := reader.Unread(), reader.Footprint();
      label Before:
      var more := DrainPacket(reader, packets[k]);
      assert forall o :: o in reader.Footprint() && o !in owned ==> fresh@Before(o);
      PacketDrained(s, packets, k, lines, left);
      lines := lines + more;
      k := k + 1;
    }
    AllDrained(s, packets, lines, reader.Unread());
  }

  /** After `k` packets, `lines` have been served and `left` is unread. */
  ghost predicate Drained(s: string, packets: seq<string>, k: nat, lines: seq<string>, left: string)
    requires k <= |packets|
  {
    && lines + Lines(left + Flatten(packets[k..])) == Lines(s + Flatten(packets))
    && Rest(left + Flatten(packets[k..])) == Rest(s + Flatten(packets))
    && (k == |packets| ==> FirstCrlf(left) == |left|)
  }

  lemma NoneDrained(reader: Line, packets: seq<string>)
    requires reader.Valid() && (packets == [] ==> FirstCrlf(reader.Unread()) == |reader.Unread()|)
    ensures reader.Apart() && Drained(reader.Unread(), packets, 0, [], reader.Unread())
  {
    hide Lines, Rest, FirstCrlf, Line.Unread;
    assert packets[0..] == packets;
  }

  lemma PacketDrained(s: string, packets: seq<string>, k: nat, lines: seq<string>, left: string)
    requires k < |packets| && Drained(s, packets, k, lines, left)
    ensures Drained(s, packets, k + 1, lines + Lines(left + packets[k]), Rest(left + packets[k]))
  {
    hide Lines, Rest, FirstCrlf;
    var rest := Flatten(packets[k + 1..]);
    assert packets[k..][1..] == packets[k + 1..];
    assert left + Flatten(packets[k..]) == left + packets[k] + rest;
    LinesConcat(left + packets[k], rest);
    RestIsOpen(left + packets[k]);
  }

  lemma AllDrained(s: string, packets: seq<string>, lines: seq<string>, left: string)
    requires Drained(s, packets, |packets|, lines, left)
    ensures lines == Lines(s + Flatten(packets)) && left == Rest(s + Flatten(packets))
  {
    hide Lines, Rest, FirstCrlf;
    assert left + Flatten(packets[|packets|..]) == left;
    LineIs(left);
  }
}
