/** The head of an HTTP request, read line by line from packets of any size. */
module HttpHead {
  import opened Options
  import opened ByteBuffer
  import opened LineReader
  import opened Numbers
  import opened PercentDecoding
  import opened XmlText

  datatype Phase = StatusLine | HeaderLines | BodyData

  /** The decoder chosen for the body, if there is one. */
  datatype Body = NoBody | Chunked | Unchunked

  datatype Head = Head(phase: Phase, verb: string, path: string, query: string, version: string,
                       headers: map<string, string>, statusCode: int, body: Body)

  const EMPTY_HEAD := Head(StatusLine, "", "", "", "", map[], 0, NoBody)

  /** `More`: every complete line has been used. `Finished`: the head is complete, and valid or not. `Refused`: a
      line could not be parsed. `EmptyStart`: an empty line came before the request line, and `consume` left. */
  datatype Verdict = More | Finished(valid: bool) | Refused | EmptyStart

  /** `request_header_validation`, whose verdict and changes depend on the head alone. */
  type Validation = Head -> (bool, Head)

  // ---------- Lines ----------

  /** `split` at spaces: empty fields are dropped, except at the end. */
  function Fields(s: string, cur: string): seq<string> {
    if s == [] then [cur]
    else if s[0] == ' ' then (if cur == [] then [] else [cur]) + Fields(s[1..], [])
    else Fields(s[1..], cur + [s[0]])
  }

  function UpperCase(s: string): string {
    seq(|s|, i requires 0 <= i < |s| => if 'a' <= s[i] <= 'z' then (s[i] as int - 32) as char else s[i])
  }

  function LowerCase(s: string): string {
    seq(|s|, i requires 0 <= i < |s| => if 'A' <= s[i] <= 'Z' then (s[i] as int + 32) as char else s[i])
  }

  function Trimmed(s: string): string {
    if s != [] && s[0] == ' ' then Trimmed(s[1..]) else s
  }

  /** `unconvert_hexa` leaves what it cannot decode. */
  function Unescaped(s: string): string {
    match Decode(s)
    case Some(d) => d
    case None => s
  }

  function ParseStatusLine(h: Head, ln: string): (bool, Head) {
    var fields := Fields(ln, "");
    if |fields| < 2 then (false, h.(statusCode := 400))
    else
      var i := Find(fields[1], '?', 0);
      var query := if i < |fields[1]| then fields[1][i + 1..] else h.query;
      (true, h.(verb := UpperCase(fields[0]), path := Unescaped(fields[1][..i]), query := Unescaped(query),
                version := if |fields| == 2 then "" else fields[2]))
  }

  function ParseHeaderLine(h: Head, ln: string): (bool, Head) {
    var i := Find(ln, ':', 0);
    if i == |ln| || i == 0 then (false, h.(statusCode := 400))
    else (true, h.(headers := h.headers[LowerCase(ln[..i]) := Trimmed(ln[i + 1..])]))
  }

  /** Looking a header up adds it, empty, if it is missing. */
  function LookedUp(headers: map<string, string>, key: string): map<string, string> {
    if key in headers then headers else headers[key := ""]
  }

  function HeaderOf(headers: map<string, string>, key: string): string {
    if key in headers then headers[key] else ""
  }

  /** `method_can_have_body`, with the headers as it leaves them. */
  function CanHaveBody(headers: map<string, string>): (bool, map<string, string>) {
    var headers := LookedUp(headers, "content-length");
    if Atoi(headers["content-length"]) > 0 then (true, headers)
    else
      var headers := LookedUp(headers, "transfer-encoding");
      (headers["transfer-encoding"] == "chunked", headers)
  }

  /** `handle_metadata`. */
  function Metadata(h: Head): Head {
    if h.body != NoBody then h
    else
      var headers := LookedUp(h.headers, "transfer-encoding");
      if headers["transfer-encoding"] == "chunked" then h.(headers := headers, body := Chunked)
      else
        var headers := LookedUp(headers, "content-length");
        if Atoi(headers["content-length"]) > 0 then h.(headers := headers, body := Unchunked)
        else h.(headers := headers, statusCode := 411)
  }

  function WithMetadata(h: Head): Head {
    var (can, headers) := CanHaveBody(h.headers);
    if can then Metadata(h.(headers := headers)) else h.(headers := headers)
  }

  /** At the end of a first head the decoder is the one the headers announce, and no header is made up but empty
      ones. */
  lemma DecoderIsAnnounced(h: Head)
    requires h.body.NoBody?
    ensures var w := WithMetadata(h);
            && (w.body.Chunked? <==> HeaderOf(h.headers, "transfer-encoding") == "chunked")
            && (w.body.Unchunked? <==> HeaderOf(h.headers, "transfer-encoding") != "chunked"
                                       && Atoi(HeaderOf(h.headers, "content-length")) > 0)
            && w.statusCode == h.statusCode
            && forall key :: HeaderOf(w.headers, key) == HeaderOf(h.headers, key)
  {
    var cl, te := "content-length", "transfer-encoding";
    assert Atoi("") == 0;
    LookingUpAddsNothing(h.headers, cl);
    LookingUpAddsNothing(h.headers, te);
    LookingUpAddsNothing(LookedUp(h.headers, cl), te);
    assert cl != te by {
      assert |cl| != |te|;
    }
    hide Atoi;
  }

  lemma LookingUpAddsNothing(headers: map<string, string>, key: string)
    ensures forall k :: HeaderOf(LookedUp(headers, key), k) == HeaderOf(headers, k)
  {
  }

  function FinishHead(h: Head, validate: Validation): (Head, Option<Verdict>) {
    var (valid, h) := validate(WithMetadata(h).(phase := BodyData));
    (if valid then h else h.(version := "HTTP/1.1"), Some(Finished(valid)))
  }

  /** What one line does to the head; `Some` verdict ends the call of `consume`. */
  function LineStep(h: Head, ln: string, validate: Validation): (Head, Option<Verdict>) {
    if ln == [] && h.phase != StatusLine then FinishHead(h, validate)
    else match h.phase
      case StatusLine =>
        if ln == [] then (h, Some(EmptyStart))
        else
          var (ok, h) := ParseStatusLine(h, ln);
          if ok then (h.(phase := HeaderLines), None) else (h, Some(Refused))
      case HeaderLines =>
        var (ok, h) := ParseHeaderLine(h, ln);
        (h, if ok then None else Some(Refused))
      case BodyData => (h, None)
  }

  datatype Reading = Reading(head: Head, rest: string, verdict: Verdict)

  /** `consume` when the bytes not yet used are `s`. */
  function Process(h: Head, s: string, validate: Validation): Reading
    decreases |s|, 1
  {
    var k := FirstCrlf(s);
    if k == |s| then Reading(h, s, More) else AfterLine(h, s[..k], s[k + 2..], validate)
  }

  function AfterLine(h: Head, ln: string, rest: string, validate: Validation): Reading
    decreases |rest|, 2
  {
    var (next, stop) := LineStep(h, ln, validate);
    if stop.Some? then Reading(next, rest, stop.value) else Process(next, rest, validate)
  }

  // ---------- Packets ----------

  predicate Stops(verdict: Verdict) {
    verdict.Finished? || verdict.Refused?
  }

  /** Calls of `consume` until the head is finished or refused. */
  function Deliver(h: Head, unread: string, packets: seq<string>, validate: Validation): (Reading, seq<string>)
    decreases |packets|
  {
    if packets == [] then (Reading(h, unread, More), [])
    else
      var r := Process(h, unread + packets[0], validate);
      if Stops(r.verdict) then (r, packets[1..]) else Deliver(r.head, r.rest, packets[1..], validate)
  }

  /** An empty line in front of the request line. */
  predicate StartsEmpty(h: Head, s: string) {
    h.phase.StatusLine? && CrlfAt(s, 0)
  }

  lemma EmptyLineFirst(h: Head, s: string, validate: Validation)
    requires StartsEmpty(h, s)
    ensures Process(h, s, validate) == Reading(h, s[2..], EmptyStart)
  {
    FirstCrlfIs(s, 0);
    assert s[..0] == [];
  }

  lemma ProcessIs(h: Head, s: string, validate: Validation)
    ensures var k := FirstCrlf(s);
            if k == |s| then Process(h, s, validate) == Reading(h, s, More)
            else
              var (next, stop) := LineStep(h, s[..k], validate);
              Process(h, s, validate)
              == if stop.Some? then Reading(next, s[k + 2..], stop.value) else Process(next, s[k + 2..], validate)
  {
    hide FirstCrlf, LineStep;
  }

  /** More bytes do not change what was read; after `More` reading goes on with them. */
  lemma {:induction false} ProcessConcat(h: Head, s: string, t: string, validate: Validation)
    ensures var r := Process(h, s, validate);
            Process(h, s + t, validate)
            == if r.verdict.More? then Process(r.head, r.rest + t, validate)
               else Reading(r.head, r.rest + t, r.verdict)
    decreases |s|
  {
    hide FirstCrlf, LineStep, Process, CrlfAt;
    var k := FirstCrlf(s);
    ProcessIs(h, s, validate);
    if k < |s| {
      InBounds(s, k);
      CompleteStays(s, t);
      ProcessIs(h, s + t, validate);
      assert (s + t)[..k] == s[..k] && (s + t)[k + 2..] == s[k + 2..] + t;
      var (next, stop) := LineStep(h, s[..k], validate);
      LineStepTells(h, s[..k], validate);
      if stop.None? {
        ProcessConcat(next, s[k + 2..], t, validate);
      }
    }
  }

  lemma LineStepTells(h: Head, ln: string, validate: Validation)
    ensures var (next, stop) := LineStep(h, ln, validate);
            && stop != Some(More)
            && (stop == Some(EmptyStart) <==> h.phase.StatusLine? && ln == [])
            && (stop.None? ==> !next.phase.StatusLine?)
            && (stop == Some(EmptyStart) ==> next == h)
  {
    hide FinishHead, ParseStatusLine;
    StatusLinePhase(h, ln);
    FinishStops(h, validate);
  }

  lemma StatusLinePhase(h: Head, ln: string)
    ensures ParseStatusLine(h, ln).1.phase == h.phase
  {
  }

  lemma FinishStops(h: Head, validate: Validation)
    ensures FinishHead(h, validate).1.Some? && FinishHead(h, validate).1.value.Finished?
  {
  }

  // ---------- Any packets ----------

  /** Reading a stream with its leading empty lines left out. */
  function Skipping(h: Head, s: string, validate: Validation): Reading
    decreases |s|
  {
    if StartsEmpty(h, s) then Skipping(h, s[2..], validate) else Process(h, s, validate)
  }

  lemma {:induction false} EmptyStartIs(h: Head, s: string, validate: Validation)
    ensures var r := Process(h, s, validate);
            && (r.verdict.EmptyStart? <==> StartsEmpty(h, s))
            && (r.verdict.EmptyStart? ==> r.head == h && r.rest == s[2..])
            && (r.verdict.More? ==> (r.head == h && r.rest == s) || !r.head.phase.StatusLine?)
    decreases |s|
  {
    hide LineStep, Process;
    var k := FirstCrlf(s);
    ProcessIs(h, s, validate);
    if k < |s| {
      LineStepTells(h, s[..k], validate);
      var (next, stop) := LineStep(h, s[..k], validate);
      if stop.None? {
        EmptyStartIs(next, s[k + 2..], validate);
      }
    }
  }

  lemma SkippingOn(h: Head, s: string, t: string, validate: Validation)
    ensures var r := Process(h, s, validate);
            && (!Stops(r.verdict) ==> Skipping(h, s + t, validate) == Skipping(r.head, r.rest + t, validate))
            && (Stops(r.verdict) ==> Skipping(h, s + t, validate) == Reading(r.head, r.rest + t, r.verdict))
  {
    hide FirstCrlf, Process;
    var r := Process(h, s, validate);
    EmptyStartIs(h, s, validate);
    ProcessConcat(h, s, t, validate);
    if r.verdict.EmptyStart? {
      assert (s + t)[2..] == s[2..] + t && CrlfAt(s + t, 0);
    } else if !(r.head == h && r.rest == s && r.verdict.More?) {
      NotEmptyLater(h, s, t, validate);
    }
  }

  lemma NotEmptyLater(h: Head, s: string, t: string, validate: Validation)
    requires var r := Process(h, s, validate);
             !r.verdict.EmptyStart? && !(r.verdict.More? && r.head == h && r.rest == s)
    ensures !StartsEmpty(h, s + t)
    ensures var r := Process(h, s, validate); r.verdict.More? ==> !r.head.phase.StatusLine?
  {
    hide FirstCrlf, LineStep;
    EmptyStartIs(h, s, validate);
    ProcessIs(h, s, validate);
  }

  lemma {:induction false} DeliverIs(h: Head, unread: string, packets: seq<string>, validate: Validation)
    ensures var (r, left) := Deliver(h, unread, packets, validate);
            Skipping(h, unread + Flatten(packets), validate)
            == if Stops(r.verdict) then Reading(r.head, r.rest + Flatten(left), r.verdict)
               else Skipping(r.head, r.rest, validate)
    ensures var (r, left) := Deliver(h, unread, packets, validate); !Stops(r.verdict) ==> left == []
    decreases |packets|
  {
    hide Process, Skipping;
    if packets == [] {
      assert unread + "" == unread;
    } else {
      var s, rest := unread + packets[0], Flatten(packets[1..]);
      assert unread + Flatten(packets) == s + rest;
      SkippingOn(h, s, rest, validate);
      var r := Process(h, s, validate);
      if !Stops(r.verdict) {
        DeliverIs(r.head, r.rest, packets[1..], validate);
      }
    }
  }

  /** The calls of `consume` end with the last packet. */
  predicate EndsInLast(h: Head, unread: string, packets: seq<string>, validate: Validation) {
    var (r, left) := Deliver(h, unread, packets, validate);
    Stops(r.verdict) && left == []
  }

  /** Two divisions of the same bytes that both end in their last packet give the same head, the same verdict and
      the same unread remainder. */
  lemma PacketsDoNotMatter(h: Head, unread: string, p: seq<string>, q: seq<string>, validate: Validation)
    requires Flatten(p) == Flatten(q)
    requires EndsInLast(h, unread, p, validate) && EndsInLast(h, unread, q, validate)
    ensures Deliver(h, unread, p, validate) == Deliver(h, unread, q, validate)
  {
    hide Deliver, Skipping;
    DeliverIs(h, unread, p, validate);
    DeliverIs(h, unread, q, validate);
    assert forall s: string :: s + "" == s;
  }

  /** If the first line is not empty, the packets do not matter at any point: not for where reading stands, not
      for whether the head is complete, not for what is left over. */
  lemma {:induction false} DeliveryIsOneRead(h: Head, unread: string, packets: seq<string>, validate: Validation)
    requires !StartsEmpty(h, unread + Flatten(packets))
    requires packets == [] ==> Process(h, unread, validate) == Reading(h, unread, More)
    ensures var (r, left) := Deliver(h, unread, packets, validate);
            Process(h, unread + Flatten(packets), validate) == Reading(r.head, r.rest + Flatten(left), r.verdict)
    decreases |packets|
  {
    hide Process, CrlfAt;
    if packets == [] {
      assert unread + "" == unread;
    } else {
      var s, rest := unread + packets[0], Flatten(packets[1..]);
      assert unread + Flatten(packets) == s + rest;
      ProcessConcat(h, s, rest, validate);
      EmptyStartIs(h, s, validate);
      StartsEmptyStays(h, s, rest);
      var r := Process(h, s, validate);
      if !Stops(r.verdict) {
        MoreIsMore(h, s, validate);
        DeliveryIsOneRead(r.head, r.rest, packets[1..], validate);
      }
    }
  }

  lemma StartsEmptyStays(h: Head, s: string, t: string)
    ensures StartsEmpty(h, s) ==> StartsEmpty(h, s + t)
  {
  }

  /** After `More` there is no complete line left. */
  lemma {:induction false} MoreIsMore(h: Head, s: string, validate: Validation)
    ensures var r := Process(h, s, validate);
            r.verdict.More? ==> Process(r.head, r.rest, validate) == Reading(r.head, r.rest, More)
    decreases |s|
  {
    hide FirstCrlf, LineStep, Process;
    var k := FirstCrlf(s);
    ProcessIs(h, s, validate);
    if k < |s| {
      LineStepTells(h, s[..k], validate);
      var (next, stop) := LineStep(h, s[..k], validate);
      if stop.None? {
        MoreIsMore(next, s[k + 2..], validate);
      }
    }
  }

  /** What a series of packets comes to: the verdict, the head, and the bytes not used. */
  function Summary(h: Head, unread: string, packets: seq<string>, validate: Validation): (Verdict, Head, string) {
    var (r, left) := Deliver(h, unread, packets, validate);
    (r.verdict, r.head, r.rest + Flatten(left))
  }

  /** An empty line comes before the request line, and another complete line after it. */
  predicate EmptyThenLine(h: Head, s: string) {
    StartsEmpty(h, s) && FirstCrlf(s[2..]) < |s| - 2
  }

  /** The packets do not matter exactly if no complete line follows an empty first line, whatever `reset` has left
      unread. */
  lemma PacketsMatterExactly(h: Head, unread: string, s: string, validate: Validation)
    ensures (forall p, q :: p != [] && q != [] && Flatten(p) == s && Flatten(q) == s ==>
                              Summary(h, unread, p, validate) == Summary(h, unread, q, validate))
       <==> !EmptyThenLine(h, unread + s)
  {
    hide *;
    if EmptyThenLine(h, unread + s) {
      var p, q := TwoDivisions(h, unread, s, validate);
    } else {
      forall p, q | p != [] && q != [] && Flatten(p) == s && Flatten(q) == s
        ensures Summary(h, unread, p, validate) == Summary(h, unread, q, validate)
      {
        OneSummary(h, unread, p, validate);
        OneSummary(h, unread, q, validate);
      }
    }
  }

  /** What the bytes alone come to, when the packets do not matter. */
  function SummaryOf(h: Head, s: string, validate: Validation): (Verdict, Head, string) {
    if StartsEmpty(h, s) then (More, h, s[2..])
    else
      var r := Process(h, s, validate);
      (r.verdict, r.head, r.rest)
  }

  lemma OneSummary(h: Head, unread: string, packets: seq<string>, validate: Validation)
    requires packets != [] && !EmptyThenLine(h, unread + Flatten(packets))
    ensures Summary(h, unread, packets, validate) == SummaryOf(h, unread + Flatten(packets), validate)
  {
    hide FirstCrlf, Process, LineStep, Deliver;
    if StartsEmpty(h, unread + Flatten(packets)) {
      CrlfBound((unread + Flatten(packets))[2..]);
      OnlyTheEmptyLine(h, unread, packets, validate);
      assert forall t: string :: t + Flatten([]) == t;
    } else {
      DeliveryIsOneRead(h, unread, packets, validate);
    }
  }

  lemma {:induction false} NoLineAtAll(h: Head, unread: string, packets: seq<string>, validate: Validation)
    requires var s := unread + Flatten(packets); FirstCrlf(s) == |s|
    ensures Deliver(h, unread, packets, validate) == (Reading(h, unread + Flatten(packets), More), [])
    decreases |packets|
  {
    hide FirstCrlf, CrlfAt, Process, LineStep;
    if packets == [] {
      assert unread + "" == unread;
    } else {
      var s, rest := unread + packets[0], Flatten(packets[1..]);
      assert unread + Flatten(packets) == s + rest;
      NoneInFront(s, rest);
      ProcessIs(h, s, validate);
      NoLineAtAll(h, s, packets[1..], validate);
    }
  }

  lemma NoneInFront(s: string, t: string)
    requires FirstCrlf(s + t) == |s + t|
    ensures FirstCrlf(s) == |s|
  {
    hide FirstCrlf;
    if FirstCrlf(s) < |s| {
      CompleteStays(s, t);
    }
  }

  lemma {:induction false} OnlyTheEmptyLine(h: Head, unread: string, packets: seq<string>, validate: Validation)
    requires packets == [] ==> FirstCrlf(unread) == |unread|
    requires var s := unread + Flatten(packets); StartsEmpty(h, s) && FirstCrlf(s[2..]) == |s| - 2
    ensures Deliver(h, unread, packets, validate) == (Reading(h, (unread + Flatten(packets))[2..], More), [])
    decreases |packets|
  {
    hide FirstCrlf, Process, LineStep;
    if packets == [] {
      assert unread + "" == unread;
      FirstIsZero(unread);
    } else {
      var s, rest := unread + packets[0], Flatten(packets[1..]);
      assert unread + Flatten(packets) == s + rest;
      ProcessIs(h, s, validate);
      if FirstCrlf(s) == |s| {
        OnlyTheEmptyLine(h, s, packets[1..], validate);
      } else {
        assert CrlfAt(s, FirstCrlf(s)) && CrlfAt(s, 0);
        EmptyLineFirst(h, s, validate);
        assert (s + rest)[2..] == s[2..] + rest;
        NoLineAtAll(h, s[2..], packets[1..], validate);
      }
    }
  }

  lemma CrlfBound(s: string)
    ensures FirstCrlf(s) <= |s|
  {
  }

  lemma FirstIsZero(s: string)
    requires CrlfAt(s, 0)
    ensures FirstCrlf(s) == 0 < |s|
  {
  }

  /** After `More` no complete line is left. */
  lemma {:induction false} MoreLeavesNone(h: Head, s: string, validate: Validation)
    ensures var r := Process(h, s, validate); r.verdict.More? ==> FirstCrlf(r.rest) == |r.rest|
    decreases |s|
  {
    hide FirstCrlf, LineStep, Process;
    var k := FirstCrlf(s);
    ProcessIs(h, s, validate);
    if k < |s| {
      LineStepTells(h, s[..k], validate);
      var (next, stop) := LineStep(h, s[..k], validate);
      if stop.None? {
        MoreLeavesNone(next, s[k + 2..], validate);
      }
    }
  }

  /** With an empty first line in a packet of its own, the next line is read; in one packet with the rest, it keeps
      the rest waiting. */
  lemma TwoDivisions(h: Head, unread: string, s: string, validate: Validation) returns (p: seq<string>, q: seq<string>)
    requires EmptyThenLine(h, unread + s)
    ensures p != [] && q != [] && Flatten(p) == s && Flatten(q) == s
    ensures Summary(h, unread, p, validate) != Summary(h, unread, q, validate)
  {
    hide *;
    EmptyThenLineIs(h, unread + s);
    var n, t := if |unread| < 2 then 2 - |unread| else 0, (unread + s)[2..];
    p, q := [s], [s[..n], s[n..]];
    var first := unread + s[..n];
    CutAt(unread, s, n);
    EmptyStays(h, unread + s, first);
    EmptyLineFirst(h, unread + s, validate);
    EmptyLineFirst(h, first, validate);
    NotStops();
    OneDeliver(h, unread, s, validate);
    TwoDelivers(h, unread, s[..n], s[n..], validate);
    OneDeliver(h, first[2..], s[n..], validate);
    LineIsUsed(h, t, validate);
    FlattenOne(s);
    FlattenTwo(s[..n], s[n..]);
  }

  lemma EmptyThenLineIs(h: Head, s: string)
    requires EmptyThenLine(h, s)
    ensures StartsEmpty(h, s) && h.phase.StatusLine? && |s| >= 2 && FirstCrlf(s[2..]) < |s[2..]|
  {
  }

  lemma EmptyStays(h: Head, s: string, first: string)
    requires StartsEmpty(h, s) && |first| >= 2 && first <= s
    ensures StartsEmpty(h, first)
  {
    assert first[0] == s[0] && first[1] == s[1];
  }

  lemma CutAt(unread: string, s: string, n: nat)
    requires n <= |s| && |unread| + n >= 2
    ensures s[..n] + s[n..] == s && unread + s[..n] <= unread + s && |unread + s[..n]| >= 2
    ensures (unread + s[..n])[2..] + s[n..] == (unread + s)[2..]
  {
    assert unread + s == (unread + s[..n]) + s[n..];
  }

  lemma NotStops()
    ensures !Stops(EmptyStart) && !Stops(More)
  {
  }

  /** A complete line changes the verdict, the head or the remainder. */
  lemma LineIsUsed(h: Head, t: string, validate: Validation)
    requires h.phase.StatusLine? && FirstCrlf(t) < |t|
    ensures var r := Process(h, t, validate);
            (if Stops(r.verdict) then r.verdict else More, r.head, r.rest) != (More, h, t)
  {
    hide Process, FirstCrlf;
    EmptyStartIs(h, t, validate);
    MoreLeavesNone(h, t, validate);
  }

  lemma FlattenOne(s: string)
    ensures Flatten([s]) == s && Flatten([]) == []
  {
    assert [s][1..] == [] && s + [] == s;
  }

  lemma FlattenTwo(s: string, t: string)
    ensures Flatten([s, t]) == s + t
  {
    assert [s, t][1..] == [t];
    FlattenOne(t);
  }

  lemma OneDeliver(h: Head, unread: string, s: string, validate: Validation)
    ensures var r := Process(h, unread + s, validate);
            Summary(h, unread, [s], validate) == (if Stops(r.verdict) then r.verdict else More, r.head, r.rest)
  {
    hide Process;
    assert [s][1..] == [];
    var r := Process(h, unread + s, validate);
    assert r.rest + Flatten([]) == r.rest;
    assert Deliver(r.head, r.rest, [], validate) == (Reading(r.head, r.rest, More), []);
  }

  lemma TwoDelivers(h: Head, unread: string, s: string, t: string, validate: Validation)
    requires var r := Process(h, unread + s, validate); !Stops(r.verdict)
    ensures var r := Process(h, unread + s, validate);
            Summary(h, unread, [s, t], validate) == Summary(r.head, r.rest, [t], validate)
  {
    hide Process;
    assert [s, t][1..] == [t];
  }

  /** With the empty line in a packet of its own a request can end where in one packet it does not. */
  lemma EmptyFirstLineMatters(h: Head, s: string, validate: Validation)
    requires h.phase.StatusLine? && !StartsEmpty(h, s) && Stops(Process(h, s, validate).verdict)
    ensures EndsInLast(h, "", ["\r\n", s], validate) && !EndsInLast(h, "", ["\r\n" + s], validate)
    ensures Flatten(["\r\n", s]) == Flatten(["\r\n" + s])
  {
    hide *;
    var empty, both := "\r\n", "\r\n" + s;
    StartsWithEmpty(h, s);
    EmptyLineFirst(h, empty, validate);
    EmptyLineFirst(h, both, validate);
    NotStops();
    FlattenOne(both);
    FlattenTwo(empty, s);
    assert "" + empty == empty && empty[2..] == "" && "" + s == s && "" + both == both && both[2..] == s;
    LastDelivery(h, "", s, validate);
    LastDelivery(h, "", both, validate);
    FirstDelivery(h, empty, s, validate);
    EndsIf(h, [empty, s], validate);
    EndsIf(h, [both], validate);
  }

  lemma StartsWithEmpty(h: Head, s: string)
    requires h.phase.StatusLine?
    ensures StartsEmpty(h, "\r\n") && StartsEmpty(h, "\r\n" + s)
  {
  }

  lemma FirstDelivery(h: Head, first: string, s: string, validate: Validation)
    requires !Stops(Process(h, "" + first, validate).verdict)
    ensures var r := Process(h, "" + first, validate);
            Deliver(h, "", [first, s], validate) == Deliver(r.head, r.rest, [s], validate)
  {
    hide Process;
    assert [first, s][1..] == [s];
  }

  lemma EndsIf(h: Head, packets: seq<string>, validate: Validation)
    ensures var (r, left) := Deliver(h, "", packets, validate);
            EndsInLast(h, "", packets, validate) <==> Stops(r.verdict) && left == []
  {
    hide Deliver;
  }

  lemma LastDelivery(h: Head, unread: string, s: string, validate: Validation)
    ensures var r := Process(h, unread + s, validate);
            Deliver(h, unread, [s], validate)
            == (if Stops(r.verdict) then r else Reading(r.head, r.rest, More), [])
  {
    hide Process;
    assert [s][1..] == [];
    var r := Process(h, unread + s, validate);
    assert Deliver(r.head, r.rest, [], validate) == (Reading(r.head, r.rest, More), []);
  }

  // ---------- String helpers ----------

  /** `split`, at spaces. */
  method Split(source: string) returns (dest: seq<string>)
    ensures dest == Fields(source, "")
  {
    dest := [];
    var tmp, tmp2 := 0, 0;
    assert source[0..] == source && source[0..0] == "" && [] + Fields(source, "") == Fields(source, "");
    while tmp < |source|
      invariant 0 <= tmp2 <= tmp <= |source|
      invariant dest + Fields(source[tmp..], source[tmp2..tmp]) == Fields(source, "")
    {
      ghost var cur, rest := source[tmp2..tmp], source[tmp..];
      assert rest[1..] == source[tmp + 1..] && cur + [rest[0]] == source[tmp2..tmp + 1];
      if source[tmp] == ' ' {
        if source[tmp2..tmp] != [] {
          dest := dest + [source[tmp2..tmp]];
        }
        tmp2 := tmp + 1;
        assert source[tmp2..tmp + 1] == [];
      }
      tmp := tmp + 1;
    }
    assert source[tmp..] == [] && source[tmp2..] == source[tmp2..tmp];
    dest := dest + [source[tmp2..]];
  }

  method ToUpper(str: string) returns (r: string)
    ensures r == UpperCase(str)
  {
    r := str;
    var i := 0;
    while i < |r|
      invariant 0 <= i <= |r| == |str|
      invariant forall j :: 0 <= j < i ==> r[j] == UpperCase(str)[j]
      invariant forall j :: i <= j < |str| ==> r[j] == str[j]
    {
      if 'a' <= r[i] <= 'z' {
        r := r[i := (r[i] as int - 'a' as int + 'A' as int) as char];
      }
      i := i + 1;
    }
  }

  method ToLower(str: string) returns (r: string)
    ensures r == LowerCase(str)
  {
    r := str;
    var i := 0;
    while i < |r|
      invariant 0 <= i <= |r| == |str|
      invariant forall j :: 0 <= j < i ==> r[j] == LowerCase(str)[j]
      invariant forall j :: i <= j < |str| ==> r[j] == str[j]
    {
      if 'A' <= r[i] <= 'Z' {
        r := r[i := (r[i] as int - 'A' as int + 'a' as int) as char];
      }
      i := i + 1;
    }
  }

  /** `remove_space`, from the front. */
  method RemoveSpace(str: string) returns (r: string)
    ensures r == Trimmed(str)
  {
    r := str;
    while r != [] && r[0] == ' '
      invariant Trimmed(r) == Trimmed(str)
      decreases |r|
    {
      r := r[1..];
    }
  }

  // ---------- The object ----------

  class Http {
    const reader: Line
    var phase: Phase
    var verb: string
    var path: string
    var query: string
    var version: string
    var headers: map<string, string>
    var statusCode: int
    var body: Body

    ghost function Read(): Head
      reads this
    {
      Head(phase, verb, path, query, version, headers, statusCode, body)
    }

    constructor ()
      ensures reader.Valid() && reader.Unread() == [] && fresh(reader.Footprint()) && Read() == EMPTY_HEAD
    {
      reader := new Line();
      phase, verb, path, query, version, headers, statusCode, body := StatusLine, "", "", "", "", map[], 0, NoBody;
    }

    /** `reset` keeps the bytes that were not looked at. */
    method Reset()
      requires reader.Valid()
      modifies this, reader.line
      ensures reader.Valid() && Read() == EMPTY_HEAD
      ensures reader.Pending() == [] && reader.buf.Contents() == old(reader.buf.Contents())
      ensures old(reader.Pending()) == [] ==> reader.Unread() == old(reader.Unread())
    {
      hide *;
      ReaderApart(reader);
      UnreadIs(reader);
      ClearHead();
      ReaderApart(reader);
      reader.Reset();
      ReaderApart(reader);
      UnreadIs(reader);
      HeadIsClear();
    }

    method ClearHead()
      requires reader.Valid()
      modifies this
      ensures phase == StatusLine && verb == "" && path == "" && query == "" && version == ""
      ensures headers == map[] && statusCode == 0 && body == NoBody
      ensures reader.Valid() && reader.Pending() == old(reader.Pending())
      ensures reader.buf.Contents() == old(reader.buf.Contents()) && reader.Unread() == old(reader.Unread())
    {
      phase, verb, path, query, version, headers, statusCode, body := StatusLine, "", "", "", "", map[], 0, NoBody;
    }

    lemma HeadIsClear()
      requires phase == StatusLine && verb == "" && path == "" && query == "" && version == ""
      requires headers == map[] && statusCode == 0 && body == NoBody
      ensures Read() == EMPTY_HEAD
    {
    }

    method ReadStatusLine(ln: string) returns (ok: bool)
      modifies this
      ensures (ok, Read()) == ParseStatusLine(old(Read()), ln)
    {
      var vec := Split(ln);
      if |vec| < 2 {
        statusCode := 400;
        return false;
      }
      verb := ToUpper(vec[0]);
      var i := Find(vec[1], '?', 0);
      assert i == |vec[1]| ==> vec[1][..i] == vec[1];
      if i < |vec[1]| {
        path := vec[1][..i];
        query := vec[1][i + 1..];
      } else {
        path := vec[1];
      }
      var whole;
      whole, path := UnconvertHexa(path);
      whole, query := UnconvertHexa(query);
      if |vec| == 2 {
        version := "";
      } else {
        version := vec[2];
      }
      ok := true;
    }

    method ReadHeaderLine(ln: string) returns (ok: bool)
      modifies this
      ensures (ok, Read()) == ParseHeaderLine(old(Read()), ln)
    {
      var i := Find(ln, ':', 0);
      if i < |ln| {
        var val := RemoveSpace(ln[i + 1..]);
        var key := ToLower(ln[..i]);
        if key == [] {
          statusCode := 400;
          return false;
        }
        headers := headers[key := val];
      } else {
        statusCode := 400;
        return false;
      }
      ok := true;
    }

    method LookUp(key: string)
      modifies this`headers
      ensures headers == LookedUp(old(headers), key)
    {
      if key !in headers {
        headers := headers[key := ""];
      }
    }

    /** `method_can_have_body`. */
    method AskForBody() returns (can: bool)
      modifies this`headers
      ensures (can, headers) == CanHaveBody(old(headers))
    {
      hide Atoi;
      LookUp("content-length");
      if Atoi(headers["content-length"]) > 0 {
        return true;
      }
      LookUp("transfer-encoding");
      can := headers["transfer-encoding"] == "chunked";
    }

    /** `handle_metadata`. */
    method HandleMetadata()
      modifies this`headers, this`body, this`statusCode
      ensures Read() == Metadata(old(Read()))
    {
      hide Atoi;
      if body != NoBody {
        return;
      }
      LookUp("transfer-encoding");
      if headers["transfer-encoding"] == "chunked" {
        body := Chunked;
        return;
      }
      LookUp("content-length");
      if Atoi(headers["content-length"]) > 0 {
        body := Unchunked;
        return;
      }
      statusCode := 411;
    }

    /** The end of the head: the decoder of the body is chosen, and the head is validated. */
    method Finish(validate: Validation) returns (valid: bool)
      modifies this
      ensures (Read(), Some(Finished(valid))) == FinishHead(old(Read()), validate)
    {
      hide CanHaveBody, Metadata;
      var can := AskForBody();
      if can {
        HandleMetadata();
      }
      phase := BodyData;
      var (v, h) := validate(Head(phase, verb, path, query, version, headers, statusCode, body));
      phase, verb, path, query, version, headers, statusCode, body :=
        h.phase, h.verb, h.path, h.query, h.version, h.headers, h.statusCode, h.body;
      if !v {
        version := "HTTP/1.1";
      }
      valid := v;
    }

    /** The body of the loop of `consume`. */
    method TakeLine(ln: string, validate: Validation) returns (stop: Option<Verdict>)
      modifies this
      ensures (Read(), stop) == LineStep(old(Read()), ln, validate)
    {
      hide FinishHead, ParseStatusLine, ParseHeaderLine;
      if ln == [] && phase != StatusLine {
        var valid := Finish(validate);
        return Some(Finished(valid));
      }
      if phase == HeaderLines {
        var ok := ReadHeaderLine(ln);
        return if ok then None else Some(Refused);
      }
      if phase == StatusLine {
        if ln == [] {
          return Some(EmptyStart);
        }
        var ok := ReadStatusLine(ln);
        if !ok {
          return Some(Refused);
        }
        phase := HeaderLines;
      }
      stop := None;
    }

    method NextLine(packet: Buffer) returns (ret: bool, ln: string)
      requires reader.Valid() && packet.Valid() && NulFree(packet.Contents())
      requires packet != reader.line && packet != reader.buf
      modifies reader.Footprint()
      ensures reader.Valid() && reader.Apart() && reader.line.Valid()
      ensures fresh(reader.Footprint() - old(reader.Footprint()))
      ensures Read() == old(Read())
      ensures LineServed(old(reader.Unread() + packet.Contents()), ret, ln, reader.Unread())
      ensures ret ==> reader.Pending() == [] && |reader.Unread()| < |old(reader.Unread() + packet.Contents())|
    {
      hide FirstCrlf, LineServed;
      ret, ln := Fetch(reader, packet);
    }

    method NextLineAgain(packet: Buffer) returns (ret: bool, ln: string)
      requires reader.Valid() && reader.Apart() && packet != reader.line && packet != reader.buf
      modifies reader.Footprint(), packet
      ensures reader.Valid() && reader.Apart() && reader.line.Valid()
      ensures fresh(reader.Footprint() - old(reader.Footprint()))
      ensures Read() == old(Read())
      ensures LineServed(old(reader.Unread()), ret, ln, reader.Unread())
      ensures ret ==> reader.Pending() == [] && |reader.Unread()| < |old(reader.Unread())|
    {
      ghost var left := reader.Unread();
      assert left + "" == left;
      hide Line.Valid, Line.Apart, Line.Unread, Line.Pending, LineServed;
      packet.Reset();
      ret, ln := NextLine(packet);
    }

    /** The line is used; the reader is not touched. */
    method UseLine(ln: string, validate: Validation) returns (stop: Option<Verdict>)
      requires reader.Valid() && reader.Apart()
      modifies this
      ensures (Read(), stop) == LineStep(old(Read()), ln, validate)
      ensures reader.Valid() && reader.Apart() && reader.line.Valid() && reader.Footprint() == old(reader.Footprint())
      ensures reader.Unread() == old(reader.Unread()) && reader.Pending() == old(reader.Pending())
    {
      hide LineStep, FirstCrlf;
      stop := TakeLine(ln, validate);
    }

    /** The loop of `consume`, with a first line taken. */
    method ConsumeLines(packet: Buffer, first: bool, line: string, validate: Validation, ghost whole: Reading)
      returns (verdict: Verdict)
      requires reader.Valid() && reader.Apart() && reader.line.Valid() && packet != reader.line && packet != reader.buf
      requires Consuming(whole, first, line, Read(), reader.Unread(), validate)
      requires first ==> reader.Pending() == []
      modifies this, reader.Footprint(), packet
      ensures reader.Valid() && reader.Apart() && reader.line.Valid() && fresh(reader.Footprint() - old(reader.Footprint()))
      ensures Reading(Read(), reader.Unread(), verdict) == whole
      ensures !verdict.More? ==> reader.Pending() == []
    {
      hide *;
      var ret, ln := first, line;
      while ret
        invariant reader.Valid() && reader.Apart() && reader.line.Valid()
        invariant fresh(reader.Footprint() - old(reader.Footprint()))
        invariant Consuming(whole, ret, ln, Read(), reader.Unread(), validate)
        invariant ret ==> reader.Pending() == []
        decreases ret, |reader.Unread()|
      {
        ghost var h, left, taken, owned := Read(), reader.Unread(), ln, reader.Footprint();
        var stop := UseLine(ln, validate);
        if stop.Some? {
          ConsumingStops(whole, taken, h, left, validate);
          return stop.value;
        }
        ghost var next := Read();
        label Before:
        ret, ln := NextLineAgain(packet);
        assert forall o :: o in reader.Footprint() && o !in owned ==> fresh@Before(o);
        ConsumingGoesOn(whole, taken, h, left, next, ret, ln, reader.Unread(), validate);
      }
      ConsumingEnds(whole, ln, Read(), reader.Unread(), validate);
      verdict := More;
    }

    /** The packet is wrapped in a buffer and the first line asked for. */
    method FirstLine(data: string) returns (buf: Buffer, ret: bool, ln: string, ghost s: string)
      requires reader.Valid() && NulFree(data)
      modifies reader.Footprint()
      ensures reader.Valid() && reader.Apart() && reader.line.Valid() && buf != reader.line && buf != reader.buf
      ensures fresh(buf) && fresh(reader.Footprint() - old(reader.Footprint()))
      ensures Read() == old(Read()) && s == old(reader.Unread()) + data
      ensures LineServed(s, ret, ln, reader.Unread())
      ensures ret ==> reader.Pending() == []
    {
      hide FirstCrlf, LineServed;
      s := reader.Unread() + data;
      buf := new Buffer.FromBytes(data);
      ret, ln := NextLine(buf);
    }

    method Consume(data: string, validate: Validation) returns (ok: bool, finished: bool)
      requires reader.Valid() && NulFree(data)
      modifies this, reader.Footprint()
      ensures reader.Valid() && reader.Apart() && fresh(reader.Footprint() - old(reader.Footprint()))
      ensures var r := Process(old(Read()), old(reader.Unread()) + data, validate);
              && Read() == r.head && reader.Unread() == r.rest
              && (finished <==> r.verdict.Finished?)
              && (ok <==> !r.verdict.Refused? && r.verdict != Finished(false))
              && (!r.verdict.More? ==> reader.Pending() == [])
    {
      hide *;
      ghost var h := Read();
      var buf, ret, ln;
      ghost var s;
      buf, ret, ln, s := FirstLine(data);
      ConsumingStarts(h, s, ret, ln, reader.Unread(), validate);
      ghost var owned := reader.Footprint();
      label Before:
      var verdict := ConsumeLines(buf, ret, ln, validate, Process(h, s, validate));
      assert forall o :: o in reader.Footprint() && o !in owned ==> fresh@Before(o);
      finished := verdict.Finished?;
      ok := !verdict.Refused? && verdict != Finished(false);
    }
  }

  method Fetch(reader: Line, packet: Buffer) returns (ret: bool, ln: string)
    requires reader.Valid() && packet.Valid() && NulFree(packet.Contents())
    requires packet != reader.line && packet != reader.buf
    modifies reader.Footprint()
    ensures reader.Valid() && reader.Apart() && reader.line.Valid()
    ensures fresh(reader.Footprint() - old(reader.Footprint()))
    ensures LineServed(old(reader.Unread() + packet.Contents()), ret, ln, reader.Unread())
    ensures ret ==> reader.Pending() == [] && |reader.Unread()| < |old(reader.Unread() + packet.Contents())|
  {
    ghost var s := reader.Unread() + packet.Contents();
    hide *;
    var tooLong;
    ret, ln, tooLong := reader.FromBuffer(packet);
    // A line is never too long: the flag is only set when there is none.
    assert ret ==> !tooLong;
    ServedIs(reader, s, ret, ln);
  }

  ghost predicate LineServed(s: string, ret: bool, ln: string, unread: string) {
    var k := FirstCrlf(s);
    (ret <==> k < |s|) && if ret then ln == s[..k] && unread == s[k + 2..] else unread == s
  }

  lemma ServedIs(reader: Line, s: string, ret: bool, ln: string)
    requires reader.Valid() && Served(s, ret, ln, reader.Pending(), reader.buf.Contents())
    ensures reader.Apart() && reader.line.Valid() && LineServed(s, ret, ln, reader.Unread())
    ensures ret ==> reader.Pending() == [] && |reader.Unread()| < |s|
  {
    hide FirstCrlf;
    assert [] + reader.buf.Contents() == reader.buf.Contents();
  }

  /** What is still to be done amounts to `whole`. */
  ghost predicate Consuming(whole: Reading, ret: bool, ln: string, h: Head, unread: string, validate: Validation) {
    whole == if ret then AfterLine(h, ln, unread, validate) else Reading(h, unread, More)
  }

  lemma ConsumingStarts(h: Head, s: string, ret: bool, ln: string, unread: string, validate: Validation)
    requires LineServed(s, ret, ln, unread)
    ensures Consuming(Process(h, s, validate), ret, ln, h, unread, validate)
  {
    hide FirstCrlf, LineStep;
  }

  lemma ConsumingStops(whole: Reading, ln: string, h: Head, unread: string, validate: Validation)
    requires Consuming(whole, true, ln, h, unread, validate) && LineStep(h, ln, validate).1.Some?
    ensures var (next, stop) := LineStep(h, ln, validate);
            whole == Reading(next, unread, stop.value) && stop != Some(More)
  {
    LineStepTells(h, ln, validate);
    hide FirstCrlf, LineStep, Process;
  }

  lemma ConsumingGoesOn(whole: Reading, ln: string, h: Head, left: string, next: Head,
                        ret: bool, ln': string, unread: string, validate: Validation)
    requires Consuming(whole, true, ln, h, left, validate) && LineStep(h, ln, validate) == (next, None)
    requires LineServed(left, ret, ln', unread)
    ensures Consuming(whole, ret, ln', next, unread, validate)
  {
    hide LineStep, LineServed, Process;
    ConsumingStarts(next, left, ret, ln', unread, validate);
  }

  lemma ConsumingEnds(whole: Reading, ln: string, h: Head, unread: string, validate: Validation)
    requires Consuming(whole, false, ln, h, unread, validate)
    ensures whole == Reading(h, unread, More)
  {
  }

  const MAX_METADATA := 10000

  /** What a call of `Recv` comes to. */
  datatype Received = Failed | Packet(data: string)

  /** The packets that reach `consume` if none ends the head: those before a failure, and before more than the
      allowed number of bytes have come. */
  function Admitted(script: seq<Received>, total: nat): (packets: seq<string>)
    ensures |packets| <= |script|
    ensures forall i :: 0 <= i < |packets| ==> script[i] == Packet(packets[i])
  {
    if script == [] || script[0].Failed? || total + |script[0].data| > MAX_METADATA then []
    else [script[0].data] + Admitted(script[1..], total + |script[0].data|)
  }

  /** The admitted packets are the longest series without a failure that stays within the limit. */
  lemma {:induction false} AdmittedIsLongest(script: seq<Received>, total: nat)
    requires total <= 10000
    ensures var packets := Admitted(script, total);
            && total + |Flatten(packets)| <= 10000
            && (|packets| < |script| ==>
                  script[|packets|].Failed? || total + |Flatten(packets)| + |script[|packets|].data| > 10000)
  {
    if script != [] && !script[0].Failed? && total + |script[0].data| <= MAX_METADATA {
      AdmittedIsLongest(script[1..], total + |script[0].data|);
    }
  }

  /** The loop of `sess_read_metadata`: it ends when a packet is refused or finishes the head, when receiving fails
      or when more bytes than allowed have come; `used` counts the packets given to `consume`. Where it still waits
      at the end of the script, neither `ret` nor `done` has been decided. */
  method ReadMetadata(http: Http, script: seq<Received>, validate: Validation)
    returns (used: nat, valid: bool, finished: bool, broken: bool)
    requires http.reader.Valid() && forall i :: 0 <= i < |script| && script[i].Packet? ==> NulFree(script[i].data)
    modifies http, http.reader.Footprint()
    ensures http.reader.Valid() && http.reader.Apart()
    ensures var packets := Admitted(script, 0);
            var (r, left) := Deliver(old(http.Read()), old(http.reader.Unread()), packets, validate);
            && used <= |packets| && http.Read() == r.head && http.reader.Unread() == r.rest && left == packets[used..]
            && (finished <==> r.verdict.Finished?) && (valid <==> !r.verdict.Refused? && r.verdict != Finished(false))
            && (broken <==> !Stops(r.verdict) && |packets| < |script|)
    ensures fresh(http.reader.Footprint() - old(http.reader.Footprint()))
    ensures finished || !valid ==> http.reader.Pending() == []
  {
    ReaderApart(http.reader);
    hide *;
    ghost var packets := Admitted(script, 0);
    ghost var spec := Deliver(http.Read(), http.reader.Unread(), packets, validate);
    DeliveryStarts(spec, http.Read(), http.reader.Unread(), packets, validate);
    used, valid, finished, broken := ReadPackets(http, script, validate, spec);
    DeliveryEnds(spec, http.Read(), http.reader.Unread(), packets[used..], valid, finished, validate);
  }

  method ReadPackets(http: Http, script: seq<Received>, validate: Validation, ghost spec: (Reading, seq<string>))
    returns (used: nat, valid: bool, finished: bool, broken: bool)
    requires http.reader.Valid() && http.reader.Apart() && http.reader.line.Valid()
    requires forall i :: 0 <= i < |script| && script[i].Packet? ==> NulFree(script[i].data)
    requires Delivering(spec, http.Read(), http.reader.Unread(), Admitted(script, 0), true, false, validate)
    modifies http, http.reader.Footprint()
    ensures http.reader.Valid() && http.reader.Apart() && http.reader.line.Valid() && used <= |Admitted(script, 0)|
    ensures fresh(http.reader.Footprint() - old(http.reader.Footprint()))
    ensures finished || !valid ==> http.reader.Pending() == []
    ensures Delivering(spec, http.Read(), http.reader.Unread(), Admitted(script, 0)[used..], valid, finished, validate)
    ensures valid && !finished ==> used == |Admitted(script, 0)|
    ensures broken <==> valid && !finished && used < |script|
  {
    hide *;
    used, valid, finished, broken := 0, true, false, false;
    var total: nat := 0;
    ghost var packets := Admitted(script, 0);
    AllOf(script, packets);
    while used < |script| && valid && !finished && !broken
      invariant 0 <= used <= |packets| && http.reader.Valid() && http.reader.Apart() && http.reader.line.Valid()
      invariant finished || !valid ==> http.reader.Pending() == []
      invariant fresh(http.reader.Footprint() - old(http.reader.Footprint()))
      invariant Delivering(spec, http.Read(), http.reader.Unread(), packets[used..], valid, finished, validate)
      invariant !broken ==> packets[used..] == Admitted(script[used..], total)
      invariant broken ==> valid && !finished && used < |script| && used == |packets|
      decreases |script| - used, !broken
    {
      AdmittedStep(script, used, total, packets);
      if script[used].Failed? {
        broken := true;
      } else {
        total := total + |script[used].data|;
        if total > MAX_METADATA {
          broken := true;
        } else {
          ghost var owned := http.reader.Footprint();
          label Before:
          valid, finished := TakePacket(http, script[used].data, validate, spec, packets[used..]);
          assert forall o :: o in http.reader.Footprint() && o !in owned ==> fresh@Before(o);
          used := used + 1;
        }
      }
    }
    NothingAdmitted(script, used, total);
  }

  lemma AllOf(script: seq<Received>, packets: seq<string>)
    ensures script[0..] == script && packets[0..] == packets
  {
  }

  lemma AdmittedStep(script: seq<Received>, used: nat, total: nat, packets: seq<string>)
    requires used < |script| && used <= |packets| && packets[used..] == Admitted(script[used..], total)
    ensures if script[used].Failed? || total + |script[used].data| > MAX_METADATA then used == |packets|
            else
              && used < |packets| && packets[used..][0] == packets[used] == script[used].data
              && packets[used..][1..] == packets[used + 1..]
              && packets[used + 1..] == Admitted(script[used + 1..], total + |script[used].data|)
  {
    assert script[used..][0] == script[used] && script[used..][1..] == script[used + 1..];
    assert used < |packets| ==> packets[used..][1..] == packets[used + 1..];
  }

  lemma NothingAdmitted(script: seq<Received>, used: nat, total: nat)
    requires used <= |script|
    ensures used == |script| ==> Admitted(script[used..], total) == []
  {
  }

  lemma DeliveryStarts(spec: (Reading, seq<string>), h: Head, unread: string, packets: seq<string>, validate: Validation)
    requires spec == Deliver(h, unread, packets, validate)
    ensures Delivering(spec, h, unread, packets, true, false, validate)
  {
    hide Deliver;
  }

  /** One request: its head is read and, when that has ended, `reset` makes ready for the next one. What the head
      left unread is what the next request starts with. */
  method ReadOneHead(http: Http, script: seq<Received>, validate: Validation)
    returns (used: nat, valid: bool, finished: bool, broken: bool, ghost head: Head)
    requires http.reader.Valid() && forall i :: 0 <= i < |script| && script[i].Packet? ==> NulFree(script[i].data)
    modifies http, http.reader.Footprint()
    ensures http.reader.Valid() && http.reader.Apart()
    ensures var packets := Admitted(script, 0);
            var (r, left) := Deliver(old(http.Read()), old(http.reader.Unread()), packets, validate);
            && used <= |packets| && head == r.head && left == packets[used..] && http.reader.Unread() == r.rest
            && (finished <==> r.verdict.Finished?) && (valid <==> !r.verdict.Refused? && r.verdict != Finished(false))
            && (broken <==> !Stops(r.verdict) && |packets| < |script|)
    ensures http.Read() == if finished || !valid then EMPTY_HEAD else head
  {
    hide Deliver, NulFree, Line.Apart, Line.Pending, Line.Unread, Admitted;
    used, valid, finished, broken := ReadMetadata(http, script, validate);
    head := http.Read();
    if finished || !valid {
      http.Reset();
      ReaderApart(http.reader);
    }
  }

  method TakePacket(http: Http, packet: string, validate: Validation,
                    ghost spec: (Reading, seq<string>), ghost packets: seq<string>)
    returns (valid: bool, finished: bool)
    requires http.reader.Valid() && http.reader.Apart() && NulFree(packet) && packets != [] && packets[0] == packet
    requires Delivering(spec, http.Read(), http.reader.Unread(), packets, true, false, validate)
    modifies http, http.reader.Footprint()
    ensures http.reader.Valid() && http.reader.Apart() && http.reader.line.Valid()
    ensures fresh(http.reader.Footprint() - old(http.reader.Footprint()))
    ensures finished || !valid ==> http.reader.Pending() == []
    ensures Delivering(spec, http.Read(), http.reader.Unread(), packets[1..], valid, finished, validate)
  {
    hide *;
    ghost var before, left := http.Read(), http.reader.Unread();
    valid, finished := http.Consume(packet, validate);
    ReaderApart(http.reader);
    assert (finished <==> Process(before, left + packet, validate).verdict.Finished?);
    OneDelivery(spec, before, left, packets, http.Read(), http.reader.Unread(), valid, finished, validate);
  }

  lemma ReaderApart(reader: Line)
    requires reader.Valid()
    ensures reader.Apart() && reader.line.Valid() && reader.buf.Valid()
  {
  }

  lemma UnreadIs(reader: Line)
    requires reader.Apart() && reader.line.Valid() && reader.buf.Valid()
    ensures reader.Unread() == reader.Pending() + reader.buf.Contents()
    ensures reader.Pending() == [] ==> reader.Unread() == reader.buf.Contents()
  {
    assert [] + reader.buf.Contents() == reader.buf.Contents();
  }

  predicate Tells(verdict: Verdict, valid: bool, finished: bool) {
    (finished <==> verdict.Finished?) && (valid <==> !verdict.Refused? && verdict != Finished(false))
  }

  /** What is still to be delivered amounts to `spec`. */
  ghost predicate Delivering(spec: (Reading, seq<string>), h: Head, unread: string, left: seq<string>,
                             valid: bool, finished: bool, validate: Validation) {
    if valid && !finished then spec == Deliver(h, unread, left, validate)
    else spec.0.head == h && spec.0.rest == unread && spec.1 == left && Tells(spec.0.verdict, valid, finished)
  }

  lemma OneDelivery(spec: (Reading, seq<string>), h: Head, unread: string, packets: seq<string>,
                    next: Head, unread': string, valid: bool, finished: bool, validate: Validation)
    requires packets != [] && Delivering(spec, h, unread, packets, true, false, validate)
    requires var r := Process(h, unread + packets[0], validate);
             && next == r.head && unread' == r.rest
             && (finished <==> r.verdict.Finished?) && (valid <==> !r.verdict.Refused? && r.verdict != Finished(false))
    ensures Delivering(spec, next, unread', packets[1..], valid, finished, validate)
  {
    hide Process;
  }

  lemma DeliveryEnds(spec: (Reading, seq<string>), h: Head, unread: string, left: seq<string>,
                     valid: bool, finished: bool, validate: Validation)
    requires Delivering(spec, h, unread, left, valid, finished, validate) && (valid && !finished ==> left == [])
    ensures spec.0.head == h && spec.0.rest == unread && spec.1 == left
    ensures finished <==> spec.0.verdict.Finished?
    ensures valid <==> !spec.0.verdict.Refused? && spec.0.verdict != Finished(false)
  {
  }
}
