/** What the lines of a request head store: the request line and the header lines, as they are written. */
module RequestLines {
  import opened HttpHead
  import opened LineReader
  import opened Options
  import opened PercentDecoding
  import opened XmlText

  /** `r` is `s` with its letters in upper case. */
  predicate IsUpperCase(r: string, s: string) {
    |r| == |s| && forall i :: 0 <= i < |s| ==> r[i] == if 'a' <= s[i] <= 'z' then (s[i] as int - 32) as char else s[i]
  }

  predicate IsLowerCase(r: string, s: string) {
    |r| == |s| && forall i :: 0 <= i < |s| ==> r[i] == if 'A' <= s[i] <= 'Z' then (s[i] as int + 32) as char else s[i]
  }

  /** No line ends within `s`. */
  predicate InOneLine(s: string) {
    forall i :: 0 <= i && i + 1 < |s| ==> !(s[i] == '\r' && s[i + 1] == '\n')
  }

  lemma LineEnds(line: string, rest: string)
    requires InOneLine(line)
    ensures FirstCrlf(line + "\r\n" + rest) == |line|
  {
    var s := line + "\r\n" + rest;
    forall j | 0 <= j < |line| ensures !CrlfAt(s, j) {
      assert s[j] == line[j] && (j + 1 < |line| ==> s[j + 1] == line[j + 1]);
    }
    FirstCrlfIs(s, |line|);
  }

  /** Reading takes the first line and goes on behind it. */
  lemma LineIsTaken(h: Head, line: string, rest: string, validate: Validation)
    requires InOneLine(line)
    ensures var (next, stop) := LineStep(h, line, validate);
            Process(h, line + "\r\n" + rest, validate)
            == if stop.Some? then Reading(next, rest, stop.value) else Process(next, rest, validate)
  {
    hide FirstCrlf, LineStep, Process;
    var s := line + "\r\n" + rest;
    LineEnds(line, rest);
    ProcessIs(h, s, validate);
    assert s[..|line|] == line && s[|line| + 2..] == rest;
  }

  // ---------- The request line ----------

  lemma {:induction false} WordIsField(w: string, cur: string, x: string)
    requires ' ' !in w
    ensures Fields(w + " " + x, cur) == (if cur + w == [] then [] else [cur + w]) + Fields(x, [])
    decreases |w|
  {
    var s := w + " " + x;
    if w == [] {
      assert s[1..] == x && cur + w == cur;
    } else {
      assert s[1..] == w[1..] + " " + x && s[0] == w[0] != ' ';
      WordIsField(w[1..], cur + [w[0]], x);
      assert cur + [w[0]] + w[1..] == cur + w;
    }
  }

  lemma {:induction false} LastField(w: string, cur: string)
    requires ' ' !in w
    ensures Fields(w, cur) == [cur + w]
    decreases |w|
  {
    if w == [] {
      assert cur + w == cur;
    } else {
      LastField(w[1..], cur + [w[0]]);
      assert cur + [w[0]] + w[1..] == cur + w;
    }
  }

  /** A request line without its end: "verb target?query version", where query and version may be missing. */
  function RequestLine(verb: string, target: string, query: Option<string>, version: Option<string>): string {
    verb + " " + Target(target, query) + if version.Some? then " " + version.value else ""
  }

  function Target(target: string, query: Option<string>): string {
    target + if query.Some? then "?" + query.value else ""
  }

  predicate GoodParts(verb: string, target: string, query: Option<string>, version: Option<string>) {
    && verb != [] && ' ' !in verb && ' ' !in target && '?' !in target && (target != [] || query.Some?)
    && (query.Some? ==> ' ' !in query.value) && (version.Some? ==> ' ' !in version.value)
  }

  lemma FieldsOfLine(verb: string, target: string, query: Option<string>, version: Option<string>)
    requires GoodParts(verb, target, query, version)
    ensures Fields(RequestLine(verb, target, query, version), "")
         == [verb, Target(target, query)] + if version.Some? then [version.value] else []
  {
    hide Fields;
    var t, line := Target(target, query), RequestLine(verb, target, query, version);
    assert "" + verb == verb && "" + t == t;
    assert t != [] && ' ' !in t;
    if version.Some? {
      assert line == verb + " " + (t + " " + version.value) && "" + version.value == version.value;
      WordIsField(verb, "", t + " " + version.value);
      WordIsField(t, "", version.value);
      LastField(version.value, "");
    } else {
      assert line == verb + " " + t;
      WordIsField(verb, "", t);
      LastField(t, "");
    }
  }

  lemma QuestionMark(target: string, query: Option<string>)
    requires '?' !in target
    ensures var t := Target(target, query);
            Find(t, '?', 0) == |target| && t[..|target|] == target
            && (query.Some? <==> |target| < |t|) && (query.Some? ==> t[|target| + 1..] == query.value)
  {
    var t := Target(target, query);
    assert forall i :: 0 <= i < |target| ==> t[i] == target[i];
    FindFirst(t, '?', 0, |target|);
  }

  lemma UpperCaseIs(s: string)
    ensures IsUpperCase(UpperCase(s), s)
  {
  }

  lemma LowerCaseIs(s: string)
    ensures IsLowerCase(LowerCase(s), s)
  {
  }

  lemma DecodedIs(e: string, s: string)
    requires NulFree(s) && IsEncoding(e, s)
    ensures Unescaped(e) == s
  {
    hide Decode;
    EncodingRoundTrip(e, s);
  }

  lemma NothingIsDecoded()
    ensures Unescaped("") == ""
  {
  }

  /** What the fields of the request line become. */
  lemma StatusLineStores(h: Head, verb: string, target: string, query: Option<string>, version: Option<string>,
                         p: string, q: string)
    requires GoodParts(verb, target, query, version) && NulFree(p) && IsEncoding(target, p)
    requires if query.Some? then NulFree(q) && IsEncoding(query.value, q) else h.query == "" && q == ""
    ensures ParseStatusLine(h, RequestLine(verb, target, query, version))
         == (true, h.(verb := UpperCase(verb), path := p, query := q,
                      version := if version.Some? then version.value else ""))
  {
    hide UpperCase, Unescaped, Find, IsEncoding, Target, RequestLine;
    FieldsOfLine(verb, target, query, version);
    hide Fields, GoodParts;
    GoodTarget(verb, target, query, version);
    QuestionMark(target, query);
    DecodedIs(target, p);
    if query.Some? {
      DecodedIs(query.value, q);
    } else {
      NothingIsDecoded();
    }
  }

  lemma GoodTarget(verb: string, target: string, query: Option<string>, version: Option<string>)
    requires GoodParts(verb, target, query, version)
    ensures '?' !in target && RequestLine(verb, target, query, version) != []
  {
  }

  /** Reading a request line stores the upper-cased verb, the decoded path and query, and the version. */
  lemma RequestLineIsStored(h: Head, verb: string, target: string, query: Option<string>, version: Option<string>,
                            p: string, q: string, rest: string, validate: Validation)
    returns (next: Head)
    requires h.phase == StatusLine && GoodParts(verb, target, query, version)
    requires InOneLine(RequestLine(verb, target, query, version)) && NulFree(p) && IsEncoding(target, p)
    requires if query.Some? then NulFree(q) && IsEncoding(query.value, q) else h.query == "" && q == ""
    ensures Process(h, RequestLine(verb, target, query, version) + "\r\n" + rest, validate)
         == Process(next, rest, validate)
    ensures next.phase == HeaderLines && IsUpperCase(next.verb, verb) && next.path == p && next.query == q
    ensures next.version == if version.Some? then version.value else ""
    ensures next.headers == h.headers && next.statusCode == h.statusCode && next.body == h.body
  {
    hide Process, ParseStatusLine, UpperCase, IsUpperCase, RequestLine, GoodParts, IsEncoding;
    var line := RequestLine(verb, target, query, version);
    GoodTarget(verb, target, query, version);
    StatusLineStores(h, verb, target, query, version, p, q);
    LineIsTaken(h, line, rest, validate);
    UpperCaseIs(verb);
    next := ParseStatusLine(h, line).1.(phase := HeaderLines);
  }

  /** A space comes after another character; `started` says that one has been read before. */
  predicate SpaceAfterWord(line: string, started: bool) {
    exists j :: 0 <= j < |line| && line[j] == ' ' && (started || exists i :: 0 <= i < j && line[i] != ' ')
  }

  lemma SpaceTail(line: string, started: bool)
    requires line != []
    ensures SpaceAfterWord(line, started)
       <==> (line[0] == ' ' && started) || SpaceAfterWord(line[1..], started || line[0] != ' ')
  {
    var t := line[1..];
    if SpaceAfterWord(line, started) && !(line[0] == ' ' && started) {
      var j :| 0 <= j < |line| && line[j] == ' ' && (started || exists i :: 0 <= i < j && line[i] != ' ');
      assert j > 0 && t[j - 1] == ' ';
      if !started && line[0] == ' ' {
        var i :| 0 <= i < j && line[i] != ' ';
        assert t[i - 1] != ' ';
      }
    }
    if SpaceAfterWord(t, started || line[0] != ' ') {
      var j :| 0 <= j < |t| && t[j] == ' ' && (started || line[0] != ' ' || exists i :: 0 <= i < j && t[i] != ' ');
      assert line[j + 1] == ' ';
      if !started && line[0] == ' ' {
        var i :| 0 <= i < j && t[i] != ' ';
        assert line[i + 1] != ' ';
      }
    }
  }

  lemma {:induction false} FieldsCount(line: string, cur: string)
    ensures |Fields(line, cur)| >= 1 && (|Fields(line, cur)| >= 2 <==> SpaceAfterWord(line, cur != []))
    decreases |line|
  {
    if line != [] {
      SpaceTail(line, cur != []);
      hide SpaceAfterWord;
      FieldsCount(line[1..], if line[0] == ' ' then [] else cur + [line[0]]);
    }
  }

  /** A request line is refused, with status 400 and the head else unchanged, exactly if no space comes after another
      character; otherwise reading goes on with what follows it. */
  lemma RequestLineRefusedExactly(h: Head, line: string, rest: string, validate: Validation)
    requires h.phase == StatusLine && line != [] && InOneLine(line)
    ensures var r := Process(h, line + "\r\n" + rest, validate);
            if SpaceAfterWord(line, false) then
              exists next: Head :: next.phase == HeaderLines && r == Process(next, rest, validate)
            else r == Reading(h.(statusCode := 400), rest, Refused)
  {
    hide Process, SpaceAfterWord, Fields, UpperCase, Unescaped;
    LineIsTaken(h, line, rest, validate);
    FieldsCount(line, "");
    var next := ParseStatusLine(h, line).1.(phase := HeaderLines);
    assert SpaceAfterWord(line, false) ==> Process(h, line + "\r\n" + rest, validate) == Process(next, rest, validate);
  }

  // ---------- Header lines ----------

  predicate AllSpaces(s: string) {
    forall i :: 0 <= i < |s| ==> s[i] == ' '
  }

  lemma {:induction false} TrimmedIs(gap: string, value: string)
    requires AllSpaces(gap) && (value == [] || value[0] != ' ')
    ensures Trimmed(gap + value) == value
  {
    if gap == [] {
      assert gap + value == value;
    } else {
      assert (gap + value)[1..] == gap[1..] + value;
      TrimmedIs(gap[1..], value);
    }
  }

  lemma HeaderLineStores(h: Head, key: string, gap: string, value: string)
    requires key != [] && ':' !in key && AllSpaces(gap) && (value == [] || value[0] != ' ')
    ensures ParseHeaderLine(h, key + ":" + gap + value) == (true, h.(headers := h.headers[LowerCase(key) := value]))
  {
    hide Find, Trimmed, LowerCase;
    var ln := key + ":" + gap + value;
    assert forall i :: 0 <= i < |key| ==> ln[i] == key[i];
    FindFirst(ln, ':', 0, |key|);
    assert ln[..|key|] == key && ln[|key| + 1..] == gap + value;
    TrimmedIs(gap, value);
  }

  /** Reading "Key: value" stores the value under the lower-cased key, and changes nothing else. */
  lemma HeaderLineIsStored(h: Head, key: string, gap: string, value: string, rest: string, validate: Validation)
    returns (next: Head, low: string)
    requires h.phase == HeaderLines && InOneLine(key + ":" + gap + value)
    requires key != [] && ':' !in key && AllSpaces(gap) && (value == [] || value[0] != ' ')
    ensures Process(h, key + ":" + gap + value + "\r\n" + rest, validate) == Process(next, rest, validate)
    ensures IsLowerCase(low, key) && next == h.(headers := h.headers[low := value])
  {
    hide Process, ParseHeaderLine, LowerCase, IsLowerCase, AllSpaces;
    HeaderLineStores(h, key, gap, value);
    LineIsTaken(h, key + ":" + gap + value, rest, validate);
    LowerCaseIs(key);
    low := LowerCase(key);
    next := h.(headers := h.headers[low := value]);
  }

  /** A header line is refused, with status 400 and the head else unchanged, exactly if it has no ':' or starts with
      one; otherwise reading goes on with what follows it. */
  lemma HeaderLineRefusedExactly(h: Head, line: string, rest: string, validate: Validation)
    requires h.phase == HeaderLines && line != [] && InOneLine(line)
    ensures var r := Process(h, line + "\r\n" + rest, validate);
            if ':' !in line || line[0] == ':' then r == Reading(h.(statusCode := 400), rest, Refused)
            else exists next: Head :: next.phase == HeaderLines && r == Process(next, rest, validate)
  {
    hide Process, LowerCase, Trimmed;
    LineIsTaken(h, line, rest, validate);
    FirstColon(line);
    hide Find;
    var next := ParseHeaderLine(h, line).1;
    assert ':' in line && line[0] != ':' ==> Process(h, line + "\r\n" + rest, validate) == Process(next, rest, validate);
  }

  lemma FirstColon(line: string)
    requires line != []
    ensures Find(line, ':', 0) == |line| <==> ':' !in line
    ensures Find(line, ':', 0) == 0 <==> line[0] == ':'
  {
    var i := Find(line, ':', 0);
    assert line[0..i] == line[..i];
    assert i == |line| ==> line[..i] == line;
  }

  // ---------- The end of the head ----------

  /** The empty line after the headers ends the head: the body's decoder is chosen as the headers announce, and the
      head is what the validation makes of it, with version "HTTP/1.1" if it is invalid. */
  lemma EmptyLineEndsHead(h: Head, rest: string, validate: Validation)
    returns (announced: Head)
    requires h.phase == HeaderLines && h.body.NoBody?
    ensures announced.phase == BodyData && announced.verb == h.verb && announced.path == h.path
    ensures announced.query == h.query && announced.version == h.version && announced.statusCode == h.statusCode
    ensures forall key :: HeaderOf(announced.headers, key) == HeaderOf(h.headers, key)
    ensures announced.body.Chunked? <==> HeaderOf(h.headers, "transfer-encoding") == "chunked"
    ensures announced.body.NoBody? ==> HeaderOf(h.headers, "transfer-encoding") != "chunked"
    ensures var (valid, head) := validate(announced);
            Process(h, "\r\n" + rest, validate)
            == Reading(if valid then head else head.(version := "HTTP/1.1"), rest, Finished(valid))
  {
    hide Process, CanHaveBody, Metadata, HeaderOf;
    LineIsTaken(h, "", rest, validate);
    assert "" + "\r\n" + rest == "\r\n" + rest;
    DecoderIsAnnounced(h);
    WithMetadataKeeps(h);
    hide WithMetadata;
    announced := WithMetadata(h).(phase := BodyData);
  }

  lemma WithMetadataKeeps(h: Head)
    ensures var w := WithMetadata(h);
            w.verb == h.verb && w.path == h.path && w.query == h.query && w.version == h.version
  {
  }

  // ---------- What Consume leaves ----------

  lemma NothingMore(h: Head, validate: Validation)
    ensures Process(h, "", validate) == Reading(h, "", More)
  {
  }

  lemma TwoLinesInOne(a: string, b: string)
    ensures a + "\r\n" + (b + "\r\n" + "") == a + "\r\n" + b + "\r\n"
  {
  }

  /** A request line and a header line given to a new reader in one packet. */
  method ReadRequest(http: Http, verb: string, target: string, query: Option<string>, version: Option<string>,
                     key: string, gap: string, value: string, ghost p: string, ghost q: string, validate: Validation)
    returns (ok: bool, finished: bool)
    requires http.reader.Valid() && http.reader.Unread() == [] && http.Read() == EMPTY_HEAD
    requires GoodParts(verb, target, query, version) && InOneLine(RequestLine(verb, target, query, version))
    requires NulFree(p) && IsEncoding(target, p)
    requires if query.Some? then NulFree(q) && IsEncoding(query.value, q) else q == ""
    requires key != [] && ':' !in key && AllSpaces(gap) && (value == [] || value[0] != ' ')
    requires InOneLine(key + ":" + gap + value)
    requires NulFree(RequestLine(verb, target, query, version)) && NulFree(key + ":" + gap + value)
    modifies http, http.reader.Footprint()
    ensures ok && !finished && http.reader.Valid() && http.reader.Unread() == []
    ensures IsUpperCase(http.verb, verb) && http.path == p && http.query == q
    ensures http.version == if version.Some? then version.value else ""
    ensures http.statusCode == 0 && http.body == NoBody
    ensures exists low :: IsLowerCase(low, key) && http.headers == map[low := value]
  {
    var line, header := RequestLine(verb, target, query, version), key + ":" + gap + value;
    hide Process, RequestLine, GoodParts, InOneLine, IsEncoding, IsUpperCase, IsLowerCase, AllSpaces;
    ghost var next := RequestLineIsStored(EMPTY_HEAD, verb, target, query, version, p, q, header + "\r\n" + "", validate);
    ghost var last, low := HeaderLineIsStored(next, key, gap, value, "", validate);
    NothingMore(last, validate);
    TwoLinesInOne(line, header);
    var data := line + "\r\n" + header + "\r\n";
    assert [] + data == data;
    ok, finished := http.Consume(data, validate);
    assert http.Read() == last;
    assert IsLowerCase(low, key) && http.headers == map[low := value];
  }
}
