/** Chunked responses: the CRLF that closes a chunk is written with the header of the next one, and sends may
    take any number of bytes. */
module ChunkedResponse {
  import opened ByteBuffer
  import opened LineReader
  import opened XmlText

  const CRLF := "\r\n"

  // ---------- The network ----------

  datatype SendOutcome = Fail | Sent(n: nat)

  /** A connection: what the coming sends will do, and the bytes that went out. After the last outcome sends fail. */
  class Network {
    var script: seq<SendOutcome>
    var wire: string
    ghost var failed: bool  // whether a send has failed

    constructor (script: seq<SendOutcome>)
      ensures this.script == script && wire == "" && !failed
    {
      this.script, wire, failed := script, "", false;
    }

    method Send(bytes: string) returns (ok: bool, sent: nat)
      modifies this
      ensures ok <==> old(script) != [] && old(script)[0].Sent?
      ensures ok ==> sent == if old(script)[0].n < |bytes| then old(script)[0].n else |bytes|
      ensures ok ==> wire == old(wire) + bytes[..sent]
      ensures !ok ==> wire == old(wire) && sent == 0
      ensures script == if old(script) == [] then [] else old(script)[1..]
      ensures failed <==> old(failed) || !ok
    {
      ok, sent := false, 0;
      if script != [] {
        if script[0].Sent? {
          ok, sent := true, if script[0].n < |bytes| then script[0].n else |bytes|;
          wire := wire + bytes[..sent];
        }
        script := script[1..];
      }
      failed := failed || !ok;
    }
  }

  /** How many bytes the sends of a script take before one fails. */
  function Capacity(script: seq<SendOutcome>): nat {
    if script == [] || script[0].Fail? then 0 else script[0].n + Capacity(script[1..])
  }

  /** No send fails, and each takes a byte at least. */
  predicate Flows(script: seq<SendOutcome>) {
    forall i :: 0 <= i < |script| ==> script[i].Sent? && script[i].n >= 1
  }

  function Min(a: nat, b: nat): nat {
    if a < b then a else b
  }

  predicate IsSuffix(now: seq<SendOutcome>, script: seq<SendOutcome>) {
    |now| <= |script| && now == script[|script| - |now|..]
  }

  /** What a flush of `bytes` does to a connection: exactly as many bytes go out as the sends take before one fails,
      the others are left, and it succeeds exactly if that is all of them. */
  ghost predicate Flushed(wire: string, script: seq<SendOutcome>, bytes: string, ok: bool, wire': string,
                          script': seq<SendOutcome>, left: string) {
    && (ok <==> Capacity(script) >= |bytes|)
    && (var m := Min(Capacity(script), |bytes|); wire' == wire + bytes[..m] && left == bytes[m..])
    && IsSuffix(script', script) && (ok && Flows(script) ==> |script| - |script'| <= |bytes|)
  }

  /** `i` of `k` bytes have been sent: the script has become `now`. */
  predicate Flushing(script: seq<SendOutcome>, now: seq<SendOutcome>, i: nat, k: nat) {
    && i <= k && (if i < k then Capacity(script) == i + Capacity(now) else Capacity(script) >= k)
    && IsSuffix(now, script) && (Flows(script) ==> |script| - |now| <= i)
  }

  lemma FlushingStarts(script: seq<SendOutcome>, k: nat)
    ensures Flushing(script, script, 0, k)
  {
  }

  lemma FlushingGoesOn(script: seq<SendOutcome>, now: seq<SendOutcome>, i: nat, k: nat)
    requires Flushing(script, now, i, k) && i < k && now != [] && now[0].Sent?
    ensures Flushing(script, now[1..], i + Min(now[0].n, k - i), k)
  {
    var used := |script| - |now|;
    assert script[used..][1..] == script[used + 1..];
    if Flows(script) {
      assert script[used].n >= 1;
    }
    hide Flows;
  }

  lemma FlushingStops(script: seq<SendOutcome>, now: seq<SendOutcome>, i: nat, k: nat)
    requires Flushing(script, now, i, k) && i < k && (now == [] || now[0].Fail?)
    ensures Capacity(script) == i && (Flows(script) ==> |script| <= i)
  {
    hide Capacity;
    assert Capacity(now) == 0 by {
      NoCapacity(now);
    }
    assert now != [] ==> script[|script| - |now|] == now[0];
  }

  lemma NoCapacity(script: seq<SendOutcome>)
    requires script == [] || script[0].Fail?
    ensures Capacity(script) == 0
  {
  }

  /** Where no send fails and each takes a byte, a script takes as many bytes as it has sends. */
  lemma {:induction false} FlowTakesAll(script: seq<SendOutcome>)
    requires Flows(script)
    ensures Capacity(script) >= |script|
  {
    if script != [] {
      FlowTakesAll(script[1..]);
    }
  }

  /** `flush_network`: nothing is lost or sent twice. */
  method FlushNetwork(data: Buffer, net: Network) returns (ok: bool)
    requires data.Valid()
    modifies net, data, data.Cells()
    ensures data.Valid() && data.cells == old(data.cells)
    ensures Flushed(old(net.wire), old(net.script), old(data.Contents()), ok, net.wire, net.script, data.Contents())
    ensures net.failed <==> old(net.failed) || !ok
  {
    hide *;
    ghost var bytes, wire, failed, script := data.Contents(), net.wire, net.failed, net.script;
    ghost var i, k := 0, |bytes|;
    FlushingStarts(script, k);
    NoneSent(wire, bytes);
    var done := false;
    ok := true;
    while !done
      invariant data.Valid() && data.cells == old(data.cells) && data.Cells() == old(data.Cells())
      invariant 0 <= i <= k && net.wire == wire + bytes[..i] && data.Contents() == bytes[i..]
      invariant (!done ==> ok) && (done && ok ==> i == k) && (net.failed <==> failed || !ok)
      invariant if ok then Flushing(script, net.script, i, k) else i < k && Capacity(script) == i
      invariant IsSuffix(net.script, script)
      decreases !done, |net.script|
    {
      SizeIs(data);
      if data.size == 0 {
        done := true;
      } else {
        ok, i := FlushTurn(data, net, wire, bytes, script, i);
        done := !ok;
      }
    }
    FlushEnds(wire, bytes, script, net.script, i, ok);
  }

  lemma MinIs(a: nat, b: nat)
    ensures Min(a, b) <= b && Min(a, b) <= a && (Min(a, b) == a || Min(a, b) == b)
  {
  }

  lemma SizeIs(data: Buffer)
    requires data.Valid()
    ensures |data.Contents()| == data.size
  {
  }

  lemma NoneSent(wire: string, bytes: string)
    ensures wire + bytes[..0] == wire && bytes[0..] == bytes
  {
  }

  lemma MoreSent(wire: string, bytes: string, i: nat, m: nat)
    requires i + m <= |bytes|
    ensures wire + bytes[..i] + bytes[i..][..m] == wire + bytes[..i + m] && bytes[i..][m..] == bytes[i + m..]
  {
    assert bytes[..i] + bytes[i..][..m] == bytes[..i + m];
  }

  lemma SuffixOfFlush(script: seq<SendOutcome>, now: seq<SendOutcome>, i: nat, k: nat)
    requires Flushing(script, now, i, k)
    ensures IsSuffix(now, script)
  {
  }

  lemma SuffixGoesOn(script: seq<SendOutcome>, now: seq<SendOutcome>)
    requires IsSuffix(now, script)
    ensures IsSuffix(if now == [] then [] else now[1..], script)
  {
  }

  lemma FlushEnds(wire: string, bytes: string, script: seq<SendOutcome>, now: seq<SendOutcome>, i: nat, ok: bool)
    requires i <= |bytes| && IsSuffix(now, script)
    requires if ok then i == |bytes| && Flushing(script, now, i, |bytes|) else i < |bytes| && Capacity(script) == i
    ensures Flushed(wire, script, bytes, ok, wire + bytes[..i], now, bytes[i..])
  {
    hide Capacity, Flows, IsSuffix;
  }

  /** One turn of that loop. */
  method SendSome(data: Buffer, net: Network) returns (ok: bool)
    requires data.Valid() && data.size > 0
    modifies net, data, data.Cells()
    ensures data.Valid() && data.cells == old(data.cells) && data.Cells() == old(data.Cells())
    ensures ok <==> old(net.script) != [] && old(net.script)[0].Sent?
    ensures var bytes := old(data.Contents());
            var m := if ok then Min(old(net.script)[0].n, |bytes|) else 0;
            net.wire == old(net.wire) + bytes[..m] && data.Contents() == bytes[m..]
    ensures net.script == if old(net.script) == [] then [] else old(net.script)[1..]
    ensures net.failed <==> old(net.failed) || !ok
  {
    ghost var bytes := data.Contents();
    var sent;
    ok, sent := net.Send(data.cells[..data.size]);
    if ok {
      var _ := data.RemoveFront(sent);
    } else {
      NoneSent(net.wire, bytes);
    }
  }

  /** A turn that finds `i` of the bytes sent leaves `j` of them sent. */
  method FlushTurn(data: Buffer, net: Network, ghost wire: string, ghost bytes: string,
                   ghost script: seq<SendOutcome>, ghost i: nat)
    returns (ok: bool, ghost j: nat)
    requires data.Valid() && data.size > 0 && i < |bytes| && data.Contents() == bytes[i..]
    requires net.wire == wire + bytes[..i] && Flushing(script, net.script, i, |bytes|)
    modifies net, data, data.Cells()
    ensures data.Valid() && data.cells == old(data.cells) && data.Cells() == old(data.Cells())
    ensures i <= j <= |bytes| && net.wire == wire + bytes[..j] && data.Contents() == bytes[j..]
    ensures if ok then Flushing(script, net.script, j, |bytes|) else j == i && Capacity(script) == i
    ensures IsSuffix(net.script, script) && (ok ==> |net.script| < |old(net.script)|)
    ensures net.failed <==> old(net.failed) || !ok
  {
    hide *;
    ghost var before := net.script;
    ok := SendSome(data, net);
    j := i + if ok then Min(before[0].n, |bytes[i..]|) else 0;
    TurnSends(wire, bytes, script, before, ok, i, j);
  }

  lemma TurnSends(wire: string, bytes: string, script: seq<SendOutcome>, now: seq<SendOutcome>, ok: bool, i: nat,
                  j: nat)
    requires i < |bytes| && Flushing(script, now, i, |bytes|) && (ok <==> now != [] && now[0].Sent?)
    requires j == i + if ok then Min(now[0].n, |bytes[i..]|) else 0
    ensures i <= j <= |bytes| && bytes[i..][j - i..] == bytes[j..]
    ensures wire + bytes[..i] + bytes[i..][..j - i] == wire + bytes[..j]
    ensures var next := if now == [] then [] else now[1..];
            && IsSuffix(next, script) && (ok ==> |next| < |now|)
            && if ok then Flushing(script, next, j, |bytes|) else j == i && Capacity(script) == i
  {
    hide *;
    if ok {
      MinIs(now[0].n, |bytes| - i);
      FlushingGoesOn(script, now, i, |bytes|);
      SuffixOfFlush(script, now[1..], j, |bytes|);
    } else {
      FlushingStops(script, now, i, |bytes|);
      SuffixOfFlush(script, now, i, |bytes|);
      SuffixGoesOn(script, now);
    }
    MoreSent(wire, bytes, i, j - i);
  }

  // ---------- Headers of chunks ----------

  datatype ChunkPos = First | Middle | Last

  /** `dec_to_hex`. */
  function Hex(n: nat): (h: string) {
    if n < 16 then [LowerDigit(n)] else Hex(n / 16) + [LowerDigit(n % 16)]
  }

  function LowerDigit(d: nat): char
    requires d < 16
  {
    if d < 10 then '0' + d as char else 'a' + (d - 10) as char
  }

  function EncodeChunk(size: nat, pos: ChunkPos): string {
    (if pos != First then CRLF else "") + Hex(size) + CRLF
  }

  function HeaderFor(head: string, size: nat, pos: ChunkPos): string {
    (if pos == First then head else "") + EncodeChunk(size, pos) + (if pos == Last then CRLF else "")
  }

  lemma HeaderIs(head: string, size: nat, pos: ChunkPos)
    ensures HeaderFor(head, size, pos)
         == (if pos == First then [] + head + Hex(size) else [] + (CRLF + Hex(size))) + CRLF
            + if pos == Last then CRLF else ""
    ensures var most := (if pos == First then [] + head + Hex(size) else [] + (CRLF + Hex(size))) + CRLF;
            pos != Last ==> HeaderFor(head, size, pos) == most
  {
    hide Hex;
  }

  /** `create_header` of a chunked response; `head` is its status line and headers. */
  method CreateHeader(data: Buffer, head: string, size: nat, pos: ChunkPos)
    modifies data
    ensures data.Valid() && fresh(data.Cells()) && data.Contents() == HeaderFor(head, size, pos)
  {
    HeaderIs(head, size, pos);
    hide Hex, HeaderFor, EncodeChunk, Buffer.Contents, Buffer.Valid;
    data.Reset();
    if pos == First {
      data.AppendString(head);
    }
    if pos != First {
      data.AppendString(CRLF + Hex(size));
    } else {
      data.AppendString(Hex(size));
    }
    data.AppendString(CRLF);
    if pos == Last {
      data.AppendString(CRLF);
    }
  }

  /** `prepend_header`. */
  method PrependHeader(data: Buffer, header: Buffer)
    requires data.Valid() && header.Valid() && data != header
    modifies data
    ensures data.Valid() && fresh(data.Cells()) && data.Contents() == header.Contents() + old(data.Contents())
  {
    var res := new Buffer();
    if header.cells != null && header.size > 0 {
      res := new Buffer.FromBytes(header.cells[..header.size]);
    }
    res.Append(data);
    data.Assign(res);
  }

  // ---------- The session ----------

  /** What one call of `generate` comes to; `Ended` is an error or the end of the data. */
  datatype Generated = Block(bytes: string) | WouldBlock | Continue | Ended

  function Next(generated: seq<Generated>): Generated {
    if generated == [] then Ended else generated[0]
  }

  /** What a session sends, chunk by chunk, when no send fails. */
  function Wire(generated: seq<Generated>, head: string, pos: ChunkPos): string {
    match Next(generated)
    case Block(bytes) => HeaderFor(head, |bytes|, pos) + bytes + Wire(generated[1..], head, Middle)
    case Ended => HeaderFor(head, 0, Last)
    case _ => Wire(generated[1..], head, pos)
  }

  /** The part of it before the last chunk. */
  function Front(generated: seq<Generated>, head: string, pos: ChunkPos): string {
    match Next(generated)
    case Block(bytes) => HeaderFor(head, |bytes|, pos) + bytes + Front(generated[1..], head, Middle)
    case Ended => ""
    case _ => Front(generated[1..], head, pos)
  }

  lemma FlushedAll(wire: string, script: seq<SendOutcome>, chunk: string, ok: bool, wire': string,
                   script': seq<SendOutcome>, left: string)
    requires Flushed(wire, script, chunk, ok, wire', script', left)
    ensures wire <= wire' <= wire + chunk
    ensures ok ==> left == [] && wire' == wire + chunk
    ensures !ok ==> |wire'| < |wire + chunk|
    ensures |script'| <= |script| && (Flows(script) ==> Flows(script'))
    ensures ok && Flows(script) ==> |script| - |script'| <= |chunk|
    ensures Flows(script) && |script| >= |chunk| ==> ok
  {
    if Flows(script) {
      FlowTakesAll(script);
    }
    hide Capacity;
    var m := Min(Capacity(script), |chunk|);
    assert chunk[..m] + chunk[m..] == chunk;
    assert m == |chunk| ==> chunk[..m] == chunk && chunk[m..] == [];
  }

  /** A header and a block are put together and flushed. */
  method SendChunk(header: Buffer, data: Buffer, net: Network, ghost chunk: string) returns (ok: bool)
    requires data.Valid() && header.Valid() && data != header && header.Contents() + data.Contents() == chunk
    modifies net, data
    ensures data.Valid() && fresh(data.Cells())
    ensures Flushed(old(net.wire), old(net.script), chunk, ok, net.wire, net.script, data.Contents())
    ensures net.failed <==> old(net.failed) || !ok
  {
    hide Flushed;
    PrependHeader(data, header);
    ok := FlushNetwork(data, net);
  }

  /** One block is put behind its header and flushed. */
  method SendBlock(bytes: string, head: string, pos: ChunkPos, data: Buffer, net: Network) returns (ok: bool)
    requires data.Valid() && data.Contents() == []
    modifies net, data
    ensures data.Valid() && fresh(data.Cells())
    ensures var chunk := HeaderFor(head, |bytes|, pos) + bytes;
            Flushed(old(net.wire), old(net.script), chunk, ok, net.wire, net.script, data.Contents())
    ensures net.failed <==> old(net.failed) || !ok
  {
    hide HeaderFor, Flushed;
    var block := new Buffer.FromBytes(bytes);
    data.Assign(block);
    var header := new Buffer();
    CreateHeader(header, head, |bytes|, pos);
    ok := SendChunk(header, data, net, HeaderFor(head, |bytes|, pos) + bytes);
  }

  /** The last chunk; `data` is empty. */
  method SendLast(data: Buffer, net: Network, head: string) returns (ok: bool)
    requires data.Valid() && data.Contents() == []
    modifies net, data
    ensures data.Valid() && fresh(data.Cells())
    ensures Flushed(old(net.wire), old(net.script), HeaderFor(head, 0, Last), ok, net.wire, net.script, data.Contents())
    ensures net.failed <==> old(net.failed) || !ok
  {
    hide HeaderFor, Flushed;
    var header := new Buffer();
    CreateHeader(header, head, 0, Last);
    assert header.Contents() + [] == header.Contents();
    ok := SendChunk(header, data, net, HeaderFor(head, 0, Last));
  }

  /** After `wire`, `generated` is still to be sent to make up `all`; `front` ends before the last chunk. */
  ghost predicate Going(wire: string, generated: seq<Generated>, head: string, pos: ChunkPos, front: string, all: string) {
    wire + Front(generated, head, pos) == front && wire + Wire(generated, head, pos) == all
  }

  lemma GoesOn(generated: seq<Generated>, head: string, pos: ChunkPos, wire: string, front: string, all: string)
    requires Going(wire, generated, head, pos, front, all)
    ensures match Next(generated)
            case Block(bytes) =>
              var sent := wire + (HeaderFor(head, |bytes|, pos) + bytes);
              sent <= front && sent <= all && Going(sent, generated[1..], head, Middle, front, all)
            case Ended => wire == front && wire + HeaderFor(head, 0, Last) == all
            case _ => Going(wire, generated[1..], head, pos, front, all)
  {
    hide HeaderFor;
    if Next(generated).Block? {
      var bytes := generated[0].bytes;
      var chunk := HeaderFor(head, |bytes|, pos) + bytes;
      var rest, last := Wire(generated[1..], head, Middle), Front(generated[1..], head, Middle);
      assert wire + (chunk + rest) == wire + chunk + rest && wire + (chunk + last) == wire + chunk + last;
    }
  }

  /** How a session ends: `ok` says that no block's flush has failed. */
  ghost predicate Standing(wire: string, failed: bool, ok: bool, front: string, all: string) {
    wire <= all && (failed <==> wire != all) && (ok <==> front <= wire)
  }

  lemma BlockFails(wire: string, sent: string, front: string, all: string)
    requires wire <= sent && |wire| < |sent| && sent <= front && sent <= all
    ensures Standing(wire, true, false, front, all)
  {
  }

  lemma LastEnds(was: string, wire: string, last: string, ok: bool, front: string, all: string)
    requires was == front && was + last == all && was <= wire <= was + last
    requires if ok then wire == was + last else |wire| < |was + last|
    ensures Standing(wire, !ok, true, front, all)
  {
  }

  /** `sess_handle_request` for a chunked response, over the outcomes of `generate`: it succeeds exactly if all the
      blocks go out; it does not look at how the last send ends. */
  method HandleRequest(generated: seq<Generated>, head: string, data: Buffer, net: Network) returns (ok: bool)
    requires data.Valid() && data.Contents() == [] && !net.failed
    modifies net, data, data.Cells()
    ensures data.Valid()
    ensures net.wire <= old(net.wire) + Wire(generated, head, First)
    ensures net.failed <==> net.wire != old(net.wire) + Wire(generated, head, First)
    ensures ok <==> old(net.wire) + Front(generated, head, First) <= net.wire
    ensures !net.failed ==> ok
    ensures Flows(old(net.script)) && |old(net.script)| >= |Wire(generated, head, First)| ==> !net.failed
  {
    ghost var start, script := net.wire, net.script;
    ghost var front, all := start + Front(generated, head, First), start + Wire(generated, head, First);
    var pos, done, i := First, false, 0;
    ok := true;
    assert generated[0..] == generated && Going(net.wire, generated[0..], head, pos, front, all);
    hide Front, Wire, HeaderFor, Going, Flushed, Flows, Standing, Buffer.Valid, Buffer.Contents;
    while !done
      invariant 0 <= i <= |generated| && data.Valid() && start <= net.wire
      invariant if done then Standing(net.wire, net.failed, ok, front, all)
                else !net.failed && ok && data.Contents() == [] && Going(net.wire, generated[i..], head, pos, front, all)
      invariant Flows(script) ==> Flows(net.script)
      invariant Flows(script) && !done ==> |script| - |net.script| <= |net.wire| - |start|
      invariant Flows(script) && |script| >= |all| - |start| ==> !net.failed
      decreases !done, |generated| - i
    {
      var next := if i < |generated| then generated[i] else Ended;
      assert next == Next(generated[i..]) && (i < |generated| ==> generated[i..][1..] == generated[i + 1..]);
      ghost var was, before := net.wire, net.script;
      GoesOn(generated[i..], head, pos, was, front, all);
      i := if i < |generated| then i + 1 else i;
      match next {
        case Block(bytes) =>
          ghost var chunk := HeaderFor(head, |bytes|, pos) + bytes;
          var sent := SendBlock(bytes, head, pos, data, net);
          FlushedAll(was, before, chunk, sent, net.wire, net.script, data.Contents());
          pos := Middle;
          if !sent {
            ok, done := false, true;
            BlockFails(net.wire, was + chunk, front, all);
          }
        case Ended =>
          pos := Last;
          ghost var chunk := HeaderFor(head, 0, Last);
          var sent := SendLast(data, net, head);
          FlushedAll(was, before, chunk, sent, net.wire, net.script, data.Contents());
          LastEnds(was, net.wire, chunk, sent, front, all);
          done := true;
        case WouldBlock =>
          data.Reset();
        case Continue =>
      }
    }
    StandingTells(net.wire, net.failed, ok, front, all);
    FrontInWire(generated, head, First);
    FrontIsInAll(start, Front(generated, head, First), Wire(generated, head, First));
  }

  lemma FrontIsInAll(start: string, front: string, wire: string)
    requires front <= wire
    ensures start + front <= start + wire
  {
  }

  lemma StandingTells(wire: string, failed: bool, ok: bool, front: string, all: string)
    requires Standing(wire, failed, ok, front, all)
    ensures wire <= all && (failed <==> wire != all) && (ok <==> front <= wire)
  {
  }

  // ---------- Decoding ----------

  datatype Decoded = NotChunked | Decoded(content: string, rest: string)

  /** The Chunked-Body of section 3.6.1 of RFC 2616, without extensions and trailers: the content, and what
      follows the body. */
  function Dechunk(s: string): Decoded
    decreases |s|
  {
    var k := FirstCrlf(s);
    if k == 0 || k == |s| || !IsHexDigits(s[..k]) then NotChunked
    else
      var size, rest := HexValue(s[..k]), s[k + 2..];
      if !CrlfAt(rest, size) then NotChunked
      else if size == 0 then Decoded("", rest[2..])
      else Behind(rest[..size], Dechunk(rest[size + 2..]))
  }

  function Behind(block: string, d: Decoded): Decoded {
    match d
    case NotChunked => NotChunked
    case Decoded(content, rest) => Decoded(block + content, rest)
  }

  function Blocks(generated: seq<Generated>): seq<string> {
    match Next(generated)
    case Block(bytes) => [bytes] + Blocks(generated[1..])
    case Ended => []
    case _ => Blocks(generated[1..])
  }

  /** The blocks are those generated before the end, in their order: waiting adds none, and nothing comes after it. */
  lemma {:induction false} BlocksInOrder(a: seq<Generated>, g: Generated, b: seq<Generated>)
    requires forall i :: 0 <= i < |a| ==> !a[i].Ended?
    ensures Blocks(a + [g] + b)
         == Blocks(a) + match g
                        case Block(bytes) => [bytes] + Blocks(b)
                        case WouldBlock => Blocks(b)
                        case Continue => Blocks(b)
                        case Ended => []
    ensures Blocks([]) == []
  {
    if a == [] {
      assert a + [g] + b == [g] + b && ([g] + b)[1..] == b;
    } else {
      assert (a + [g] + b)[1..] == a[1..] + [g] + b;
      BlocksInOrder(a[1..], g, b);
    }
  }

  /** The chunks of the blocks, each with its own CRLF, and the last chunk. */
  function Body(blocks: seq<string>): string {
    if blocks == [] then "0" + CRLF + CRLF
    else Hex(|blocks[0]|) + CRLF + blocks[0] + CRLF + Body(blocks[1..])
  }

  lemma HexOfZero()
    ensures Hex(0) == "0"
  {
  }

  lemma {:induction false} HexIsHex(n: nat)
    ensures Hex(n) != [] && IsHexDigits(Hex(n)) && HexValue(Hex(n)) == n
    ensures (forall c :: c in Hex(n) ==> '0' <= c <= '9' || 'a' <= c <= 'f') && (n > 0 ==> Hex(n)[0] != '0')
    decreases n
  {
    var h := Hex(n);
    if n < 16 {
      assert h[..0] == [] && HexValue(h) == DigitOf(h[0], 16);
    } else {
      HexIsHex(n / 16);
      assert h[..|h| - 1] == Hex(n / 16) && h[|h| - 1] == LowerDigit(n % 16);
      HexValueOfLast(h);
    }
  }

  lemma HeadersAre(head: string, size: nat)
    ensures HeaderFor(head, size, First) == head + (Hex(size) + CRLF)
    ensures HeaderFor(head, size, Middle) == CRLF + (Hex(size) + CRLF)
    ensures HeaderFor(head, 0, Last) == CRLF + Body([])
  {
    HexOfZero();
    hide Hex;
  }

  lemma BodyGrows(front: string, generated: seq<Generated>)
    requires Next(generated).Block?
    ensures var bytes := generated[0].bytes;
            front + (Hex(|bytes|) + CRLF) + bytes + (CRLF + Body(Blocks(generated[1..])))
            == front + Body(Blocks(generated))
    ensures Blocks(generated) != []
  {
    hide Hex;
    var blocks := Blocks(generated);
    assert blocks[0] == generated[0].bytes && blocks[1..] == Blocks(generated[1..]);
  }

  /** What is sent, from the middle on, closes the last chunk and goes on with the body. */
  lemma {:induction false} MiddleIsBody(generated: seq<Generated>, head: string)
    ensures Wire(generated, head, Middle) == CRLF + Body(Blocks(generated))
  {
    hide HeaderFor, Body, Hex;
    if Next(generated).Block? {
      HeadersAre(head, |generated[0].bytes|);
      BodyGrows(CRLF, generated);
      MiddleIsBody(generated[1..], head);
    } else {
      HeadersAre(head, 0);
      if generated != [] {
        MiddleIsBody(generated[1..], head);
      }
    }
  }

  /** With a block, a session sends the head and a body; without, only the end of a chunk and the last chunk. */
  lemma {:induction false} WireIsBody(generated: seq<Generated>, head: string)
    ensures Wire(generated, head, First)
         == if Blocks(generated) == [] then CRLF + Body([]) else head + Body(Blocks(generated))
  {
    hide HeaderFor, Body, Hex;
    if Next(generated).Block? {
      HeadersAre(head, |generated[0].bytes|);
      BodyGrows(head, generated);
      MiddleIsBody(generated[1..], head);
    } else {
      HeadersAre(head, 0);
      if generated != [] {
        WireIsBody(generated[1..], head);
      }
    }
  }

  /** One chunk is read off. */
  lemma ChunkIsRead(block: string, rest: string)
    ensures Dechunk(Hex(|block|) + CRLF + block + CRLF + rest)
         == if block == [] then Decoded("", rest) else Behind(block, Dechunk(rest))
  {
    var h, s := Hex(|block|), Hex(|block|) + CRLF + block + CRLF + rest;
    HexIsHex(|block|);
    SizeLine(h, block + CRLF + rest, s);
    hide Hex, HexValue, FirstCrlf, IsHexDigits;
    var r := block + CRLF + rest;
    assert r[..|block|] == block && r[|block| + 2..] == rest;
    assert CrlfAt(r, |block|);
  }

  lemma SizeLine(h: string, r: string, s: string)
    requires h != [] && IsHexDigits(h) && s == h + CRLF + r
    ensures FirstCrlf(s) == |h| < |s| && s[..|h|] == h && s[|h| + 2..] == r
  {
    hide FirstCrlf;
    forall j | 0 <= j < |h| ensures !CrlfAt(s, j) {
      assert DigitOf(h[j], 16) >= 0;
    }
    FirstCrlfIs(s, |h|);
  }

  predicate NoneEmpty(blocks: seq<string>) {
    forall i :: 0 <= i < |blocks| ==> blocks[i] != []
  }

  /** A body decodes to its blocks joined, with nothing left over, exactly if no block is empty. */
  lemma {:induction false} BodyDecodesExactly(blocks: seq<string>, x: string)
    ensures var d := Dechunk(Body(blocks) + x);
            && (d == Decoded(Flatten(blocks), x) <==> NoneEmpty(blocks))
            && d.Decoded? && |d.rest| >= |x| && (|d.rest| == |x| <==> NoneEmpty(blocks))
  {
    hide Dechunk, Hex, NoneEmpty;
    NoneEmptyFirst(blocks);
    BodyFirst(blocks, x);
    if blocks == [] {
      ChunkIsRead([], x);
    } else {
      ChunkIsRead(blocks[0], Body(blocks[1..]) + x);
      BodyDecodesExactly(blocks[1..], x);
    }
  }

  lemma NoneEmptyFirst(blocks: seq<string>)
    ensures NoneEmpty(blocks) <==> blocks == [] || (blocks[0] != [] && NoneEmpty(blocks[1..]))
  {
    if blocks != [] {
      assert blocks == [blocks[0]] + blocks[1..];
    }
  }

  lemma BodyFirst(blocks: seq<string>, x: string)
    ensures Body(blocks) + x
         == if blocks == [] then Hex(0) + CRLF + [] + CRLF + x
            else Hex(|blocks[0]|) + CRLF + blocks[0] + CRLF + (Body(blocks[1..]) + x)
    ensures |Body(blocks)| > 0
  {
    HexOfZero();
    hide Hex;
  }

  /** In any session with a block and no failed send, what goes out is the head and a Chunked-Body that decodes to
      the blocks joined, exactly if no block is empty; and no send fails if each of them takes a byte at least and
      there are as many as bytes to send. */
  method ServeChunked(generated: seq<Generated>, head: string, data: Buffer, net: Network)
    returns (ok: bool, ghost body: string)
    requires data.Valid() && data.Contents() == [] && !net.failed
    modifies net, data, data.Cells()
    ensures Flows(old(net.script)) && |old(net.script)| >= |Wire(generated, head, First)| ==> !net.failed
    ensures !net.failed && Blocks(generated) != [] ==>
              && ok && net.wire == old(net.wire) + head + body
              && (Dechunk(body) == Decoded(Flatten(Blocks(generated)), "") <==> NoneEmpty(Blocks(generated)))
    ensures !net.failed && Blocks(generated) == [] ==> ok && net.wire == old(net.wire) + "\r\n0\r\n\r\n"
    ensures net.wire <= old(net.wire) + Wire(generated, head, First)
  {
    hide Dechunk, Wire, Front, Body, Blocks, Flows;
    ok := HandleRequest(generated, head, data, net);
    body := Body(Blocks(generated));
    WireIsBody(generated, head);
    BodyDecodesExactly(Blocks(generated), "");
    assert body + "" == body;
    EmptyBody();
  }

  lemma {:induction false} FrontInWire(generated: seq<Generated>, head: string, pos: ChunkPos)
    ensures Front(generated, head, pos) <= Wire(generated, head, pos)
  {
    hide HeaderFor;
    if generated != [] && !Next(generated).Ended? {
      FrontInWire(generated[1..], head, if Next(generated).Block? then Middle else pos);
    }
  }

  lemma EmptyBody()
    ensures CRLF + Body([]) == "\r\n0\r\n\r\n"
  {
  }
}
