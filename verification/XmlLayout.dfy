/** Documents written by hand: white space may stand around tags, between attributes and in place of spaces, and is
    not part of what is read. */
module XmlLayout {
  import opened XmlText
  import opened XmlTree

  /** The six characters of white space. */
  predicate IsBlank(c: char) {
    c == ' ' || c == '\t' || c == '\n' || c == 11 as char || c == 12 as char || c == '\r'
  }

  predicate IsRun(w: string) {
    forall i :: 0 <= i < |w| ==> IsBlank(w[i])
  }

  /** The white space before an attribute, and on both sides of its '='; and which quotes its value has. */
  datatype AttributeLayout = AttributeLayout(before: string, beforeSign: string, afterSign: string, single: bool)

  /** The white space in an element: in place of the spaces of a text, among the attributes, before "/>" or ">", and
      around the children; `open` writes an element without children with an end tag. Where runs are missing, texts
      keep their spaces, attributes have one space before them, and children stand close together. */
  datatype Layout = Layout(spaces: seq<string>, attributes: seq<AttributeLayout>, close: string, open: bool,
                           gaps: seq<string>, kids: seq<Layout>)

  const PLAIN := Layout([], [], "", false, [], [])

  function First<T>(s: seq<T>, default: T): T {
    if s == [] then default else s[0]
  }

  function Later<T>(s: seq<T>): seq<T> {
    if s == [] then [] else s[1..]
  }

  predicate Blanks(l: Layout) {
    && (forall i :: 0 <= i < |l.spaces| ==> l.spaces[i] != [] && IsRun(l.spaces[i]))
    && (forall i :: 0 <= i < |l.attributes| ==> AttributeBlanks(l.attributes[i]))
    && IsRun(l.close) && (forall i :: 0 <= i < |l.gaps| ==> IsRun(l.gaps[i]))
    && forall i :: 0 <= i < |l.kids| ==> Blanks(l.kids[i])
  }

  predicate AttributeBlanks(l: AttributeLayout) {
    l.before != [] && IsRun(l.before) && IsRun(l.beforeSign) && IsRun(l.afterSign)
  }

  function LayText(s: string, runs: seq<string>): string {
    if s == [] then []
    else if s[0] == ' ' then First(runs, " ") + LayText(s[1..], Later(runs))
    else Escape(s[0]) + LayText(s[1..], runs)
  }

  function Quote(l: AttributeLayout): char {
    if l.single then '\'' else '"'
  }

  function LayAttribute(a: Attribute, l: AttributeLayout): string {
    var q := [Quote(l)];
    a.name + l.beforeSign + "=" + l.afterSign + q + PutString(a.value) + q
  }

  function LayAttributes(attributes: seq<Attribute>, ls: seq<AttributeLayout>): string {
    if attributes == [] then []
    else
      var l := First(ls, AttributeLayout(" ", "", "", false));
      l.before + LayAttribute(attributes[0], l) + LayAttributes(attributes[1..], Later(ls))
  }

  function Lay(t: Xml, l: Layout): string
    decreases t, 0
  {
    match t
    case Text(text, cdata) => if cdata then "<![CDATA[" + text + "]]>" else LayText(text, l.spaces)
    case Comment(comment) => "<!--" + comment + "-->"
    case Element(name, attributes, kids) => "<" + name + LayAttributes(attributes, l.attributes) + LayBody(name, kids, l)
  }

  function LayBody(name: string, kids: seq<Xml>, l: Layout): string
    decreases kids, 1
  {
    l.close + if kids == [] && !l.open then "/>" else ">" + LayKids(kids, l.gaps, l.kids) + "</" + name + ">"
  }

  function LayKids(kids: seq<Xml>, gaps: seq<string>, ls: seq<Layout>): string
    decreases kids, 0
  {
    First(gaps, "") + if kids == [] then [] else Lay(kids[0], First(ls, PLAIN)) + LayKids(kids[1..], Later(gaps), Later(ls))
  }

  // ---------- Runs of white space ----------

  lemma BlankIsSpace(c: char)
    ensures IsBlank(c) <==> IsWhiteSpace(c)
  {
  }

  /** Exactly the run in front is skipped. */
  lemma {:induction false} RunIsSkipped(w: string, p: string)
    requires IsRun(w) && (p != [] ==> !IsBlank(p[0]))
    ensures DropSpace(w + p) == p
  {
    if w == [] {
      assert w + p == p;
      if p != [] {
        BlankIsSpace(p[0]);
      }
    } else {
      BlankIsSpace(w[0]);
      RunIsSkipped(w[1..], p);
      assert (w + p)[1..] == w[1..] + p;
    }
  }

  /** One piece of what is skipped in UTF-8: white space, U+FEFF, U+FFFE or U+FFFF. */
  predicate IsSkippedInUtf8(u: string) {
    || (|u| == 1 && IsBlank(u[0]))
    || u == [239 as char, 187 as char, 191 as char] || u == [239 as char, 191 as char, 190 as char]
    || u == [239 as char, 191 as char, 191 as char]
  }

  function Joined(us: seq<string>): string {
    if us == [] then [] else us[0] + Joined(us[1..])
  }

  lemma PieceIsSkipped(u: string, p: string)
    requires IsSkippedInUtf8(u)
    ensures DropMarks(u + p) == DropMarks(p)
  {
    assert |u| == 1 ==> (u + p)[0] == u[0] && (u + p)[1..] == p;
    assert |u| == 3 ==> (u + p)[0] == u[0] && (u + p)[1] == u[1] && (u + p)[2] == u[2] && (u + p)[3..] == p;
  }

  predicate StartsWithPiece(p: string) {
    (|p| >= 1 && IsSkippedInUtf8(p[..1])) || (|p| >= 3 && IsSkippedInUtf8(p[..3]))
  }

  lemma NoPieceIsSkipped(p: string)
    requires !StartsWithPiece(p)
    ensures DropMarks(p) == p
  {
    if |p| >= 1 {
      assert p[..1] == [p[0]];
      BlankIsSpace(p[0]);
    }
    if |p| >= 3 {
      assert p[..3] == [p[0], p[1], p[2]];
    }
  }

  /** In UTF-8, exactly the pieces in front are skipped. */
  lemma {:induction false} MarksAreSkipped(us: seq<string>, p: string)
    requires (forall i :: 0 <= i < |us| ==> IsSkippedInUtf8(us[i])) && !StartsWithPiece(p)
    ensures DropMarks(Joined(us) + p) == p
  {
    hide DropMarks, IsSkippedInUtf8, StartsWithPiece;
    if us == [] {
      assert Joined(us) + p == p;
      NoPieceIsSkipped(p);
    } else {
      PieceIsSkipped(us[0], Joined(us[1..]) + p);
      assert Joined(us) + p == us[0] + (Joined(us[1..]) + p);
      MarksAreSkipped(us[1..], p);
    }
  }

  // ---------- Texts ----------

  lemma {:induction false} RunInText(w: string, p: string, gap: bool)
    requires IsRun(w)
    ensures ReadTrim(w + p, "<", gap, Legacy) == ReadTrim(p, "<", gap || w != [], Legacy)
  {
    if w == [] {
      assert w + p == p;
    } else {
      BlankIsSpace(w[0]);
      RunInText(w[1..], p, true);
      assert (w + p)[1..] == w[1..] + p && (w + p)[0] == w[0] != '<';
    }
  }

  predicate AreRuns(runs: seq<string>) {
    forall i :: 0 <= i < |runs| ==> runs[i] != [] && IsRun(runs[i])
  }

  lemma FirstRun(runs: seq<string>)
    requires AreRuns(runs)
    ensures First(runs, " ") != [] && IsRun(First(runs, " ")) && AreRuns(Later(runs))
  {
  }

  lemma EndOfText(w: string, x: string, gap: bool)
    requires IsRun(w) && "<" <= x
    ensures ReadTrim(w + x, "<", gap, Legacy) == Done("", x)
  {
    RunInText(w, x, gap);
  }

  lemma LaidTextIs(s: string, runs: seq<string>)
    requires s != []
    ensures LayText(s, runs) == if s[0] == ' ' then First(runs, " ") + LayText(s[1..], Later(runs))
                                else Escape(s[0]) + LayText(s[1..], runs)
  {
    hide Escape;
  }

  /** A text whose single spaces are replaced by runs of white space is read as that text. */
  lemma {:induction false} LaidTextIsRead(s: string, runs: seq<string>, gap: bool, w: string, x: string)
    requires Condensed(s, gap) && AreRuns(runs) && IsRun(w) && "<" <= x
    ensures ReadTrim(LayText(s, runs) + w + x, "<", gap, Legacy) == Done(Gap(s, gap), x)
    decreases |s|
  {
    hide ReadTrim, LayText, Escape, IsRun, First, Later;
    if s == [] {
      NothingLaid(runs, w, x);
      EndOfText(w, x, false);
    } else {
      LaidTextIs(s, runs);
      CondensedTail(s, gap);
      hide Condensed;
      FirstRun(runs);
      var t, rest := s[1..], if s[0] == ' ' then Later(runs) else runs;
      var tail := LayText(t, rest) + w + x;
      LaidTextIsRead(t, rest, s[0] == ' ', w, x);
      if s[0] == ' ' {
        assert LayText(s, runs) + w + x == First(runs, " ") + tail;
        RunInText(First(runs, " "), tail, false);
      } else {
        assert LayText(s, runs) + w + x == Escape(s[0]) + tail;
        TrimmedCharacter(s[0], tail, gap, t, x);
        assert " " + [s[0]] + t == " " + ([s[0]] + t);
      }
      assert [s[0]] + t == s;
    }
  }

  lemma NothingLaid(runs: seq<string>, w: string, x: string)
    ensures LayText("", runs) + w + x == w + x
  {
  }

  lemma LaidTextStarts(s: string, runs: seq<string>)
    requires NormalText(s)
    ensures LayText(s, runs) != [] && !IsWhiteSpace(LayText(s, runs)[0]) && LayText(s, runs)[0] != '<'
  {
    assert LayText(s, runs)[0] == Escape(s[0])[0];
  }

  lemma LaidTextRoundTrip(s: string, runs: seq<string>, w: string, x: string)
    requires NormalText(s) && AreRuns(runs) && IsRun(w) && "<" <= x
    ensures ParseText(LayText(s, runs) + w + x) == Done(Text(s, false), x)
  {
    hide ReadTrim, LayText, IsRun;
    LaidTextStarts(s, runs);
    LaidTextIsRead(s, runs, false, w, x);
  }

  // ---------- Attributes ----------

  lemma SpacedSign(u: string, x: string)
    requires IsRun(u)
    ensures SkipWhiteSpace(u + "=" + x) == Done((), "=" + x)
  {
    assert u + "=" + x == u + ("=" + x);
    RunIsSkipped(u, "=" + x);
  }

  lemma NameBeforeRun(u: string, x: string)
    requires IsRun(u)
    ensures (u + "=" + x) != [] && !IsNameChar((u + "=" + x)[0])
  {
    if u != [] {
      assert (u + "=" + x)[0] == u[0];
    }
  }

  lemma LaidAttributeIsRead(a: Attribute, l: AttributeLayout, x: string)
    requires ValidName(a.name) && NormalValue(a.value) && IsRun(l.beforeSign) && IsRun(l.afterSign)
    ensures ParseAttribute(LayAttribute(a, l) + x) == Done(a, x)
  {
    hide *;
    var q := Quote(l);
    var quoted := [q] + PutString(a.value) + [q] + x;
    QuoteIs(l);
    LaidAttributeIs(a, l, x);
    NameBeforeRun(l.beforeSign, l.afterSign + quoted);
    ReadNameOfName(a.name, l.beforeSign + "=" + (l.afterSign + quoted));
    SpacedSign(l.beforeSign, l.afterSign + quoted);
    QuoteIsNoBlank(q);
    RunIsSkipped(l.afterSign, quoted);
    AttributeValueRoundTrip(a.value, q, x);
    SpacedAttribute(a.name, l.beforeSign + "=" + (l.afterSign + quoted), l.afterSign + quoted, quoted, a.value, x);
  }

  lemma QuoteIs(l: AttributeLayout)
    ensures IsQuote(Quote(l))
  {
  }

  lemma QuoteIsNoBlank(q: char)
    requires IsQuote(q)
    ensures !IsBlank(q)
  {
  }

  lemma LaidAttributeIs(a: Attribute, l: AttributeLayout, x: string)
    ensures var q := [Quote(l)];
            LayAttribute(a, l) + x
            == a.name + (l.beforeSign + "=" + (l.afterSign + (q + PutString(a.value) + q + x)))
  {
    hide PutString, Quote;
  }

  lemma SpacedAttribute(name: string, afterName: string, afterSign: string, quoted: string, value: string, x: string)
    requires ValidName(name) && ReadName(name + afterName) == Done(name, afterName)
    requires SkipWhiteSpace(afterName) == Done((), "=" + afterSign)
    requires afterSign != [] && DropSpace(afterSign) == quoted && quoted != []
    requires ReadAttributeValue(quoted) == Done(value, x)
    ensures ParseAttribute(name + afterName) == Done(Attribute(name, value), x)
  {
    hide ReadName, ReadAttributeValue, DropSpace;
    var p := name + afterName;
    assert p[0] == name[0] && IsNameStart(p[0]);
    assert ("=" + afterSign)[1..] == afterSign;
  }

  lemma LaidAttributeTurn(name: string, done: seq<Attribute>, w: string, p: string, a: Attribute, rest: string)
    requires IsRun(w) && p != [] && IsNameStart(p[0]) && ParseAttribute(p) == Done(a, rest)
    requires !HasName(done, a.name) && rest != []
    ensures ParseRest(name, done, w + p) == ParseRest(name, done + [a], rest)
  {
    hide ParseAttribute, HasName;
    assert !IsBlank(p[0]);
    RunIsSkipped(w, p);
  }

  lemma FirstAttribute(ls: seq<AttributeLayout>)
    requires forall i :: 0 <= i < |ls| ==> AttributeBlanks(ls[i])
    ensures AttributeBlanks(First(ls, AttributeLayout(" ", "", "", false)))
    ensures forall i :: 0 <= i < |Later(ls)| ==> AttributeBlanks(Later(ls)[i])
  {
  }

  lemma LaidAttributesAre(attributes: seq<Attribute>, ls: seq<AttributeLayout>, x: string)
    ensures LayAttributes(attributes, ls) + x
         == if attributes == [] then x
            else
              var l := First(ls, AttributeLayout(" ", "", "", false));
              l.before + (LayAttribute(attributes[0], l) + (LayAttributes(attributes[1..], Later(ls)) + x))
  {
    hide LayAttribute;
  }

  lemma LaidAttributeStarts(a: Attribute, l: AttributeLayout, x: string)
    requires ValidName(a.name)
    ensures var p := LayAttribute(a, l) + x; p != [] && IsNameStart(p[0])
  {
    hide PutString;
  }

  lemma NotYetThere(done: seq<Attribute>, attributes: seq<Attribute>)
    requires attributes != [] && DistinctNames(done + attributes)
    ensures !HasName(done, attributes[0].name) && DistinctNames(done + [attributes[0]] + attributes[1..])
    ensures done + [attributes[0]] + attributes[1..] == done + attributes
  {
    assert (done + attributes)[|done|] == attributes[0];
    assert forall i :: 0 <= i < |done| ==> (done + attributes)[i] == done[i];
    assert done + [attributes[0]] + attributes[1..] == done + attributes;
  }

  lemma {:induction false} LaidAttributesRoundTrip(name: string, done: seq<Attribute>, attributes: seq<Attribute>,
                                                   ls: seq<AttributeLayout>, x: string)
    requires DistinctNames(done + attributes) && x != []
    requires forall i :: 0 <= i < |attributes| ==>
               ValidName(attributes[i].name) && NormalValue(attributes[i].value)
    requires forall i :: 0 <= i < |ls| ==> AttributeBlanks(ls[i])
    ensures ParseRest(name, done, LayAttributes(attributes, ls) + x) == ParseRest(name, done + attributes, x)
    decreases |attributes|
  {
    hide *;
    LaidAttributesAre(attributes, ls, x);
    if attributes == [] {
      assert done + attributes == done;
    } else {
      var a, l := attributes[0], First(ls, AttributeLayout(" ", "", "", false));
      var rest := LayAttributes(attributes[1..], Later(ls)) + x;
      FirstAttribute(ls);
      BlanksIn(l);
      LaidAttributeIsRead(a, l, rest);
      LaidAttributeStarts(a, l, rest);
      NotYetThere(done, attributes);
      LaidAttributeTurn(name, done, l.before, LayAttribute(a, l) + rest, a, rest);
      LaidAttributesRoundTrip(name, done + [a], attributes[1..], Later(ls), x);
    }
  }

  lemma BlanksIn(l: AttributeLayout)
    requires AttributeBlanks(l)
    ensures l.before != [] && IsRun(l.before) && IsRun(l.beforeSign) && IsRun(l.afterSign)
  {
  }

  // ---------- Names and bare values ----------

  predicate IsNameLetter(c: char) {
    'a' <= c <= 'z' || 'A' <= c <= 'Z' || c as int >= 127 || c == '_'
  }

  predicate IsNamePart(c: char) {
    IsNameLetter(c) || '0' <= c <= '9' || c == '-' || c == '.' || c == ':'
  }

  /** A letter, an underscore or a byte from 127 on, and then these, digits, '-', '.' and ':', are read as a name,
      up to the first other character. */
  lemma NameIsRead(name: string, x: string)
    requires name != [] && IsNameLetter(name[0]) && forall i :: 0 <= i < |name| ==> IsNamePart(name[i])
    requires x == [] || !IsNamePart(x[0])
    ensures ReadName(name + x) == Done(name, x)
  {
    forall c: char ensures (IsNameLetter(c) <==> IsNameStart(c)) && (IsNamePart(c) <==> IsNameChar(c)) {
      NamePartIs(c);
    }
    hide IsNameLetter, IsNamePart, IsNameStart, IsNameChar, ReadName;
    assert ValidName(name);
    ReadNameOfName(name, x);
  }

  lemma NamePartIs(c: char)
    ensures (IsNameLetter(c) <==> IsNameStart(c)) && (IsNamePart(c) <==> IsNameChar(c))
  {
  }

  /** Anything else at the front is no name. */
  lemma NoNameIsRead(x: string)
    requires x == [] || !IsNameLetter(x[0])
    ensures ReadName(x) == Null
  {
  }

  lemma {:induction false} BareRunIs(v: string, x: string)
    requires forall i :: 0 <= i < |v| ==> !IsBlank(v[i]) && v[i] != '/' && v[i] != '>'
    requires x == [] || IsBlank(x[0]) || x[0] == '/' || x[0] == '>'
    ensures BareRun(v + x) == |v|
  {
    if v == [] {
      assert v + x == x;
    } else {
      BlankIsSpace(v[0]);
      assert (v + x)[1..] == v[1..] + x;
      BareRunIs(v[1..], x);
    }
  }

  /** A value without quotes is taken as it stands, up to white space or the end of the tag. */
  lemma BareValueIsRead(name: string, u: string, w: string, v: string, x: string)
    requires ValidName(name) && IsRun(u) && IsRun(w)
    requires v != [] && !IsQuote(v[0]) && forall i :: 0 <= i < |v| ==> !IsBlank(v[i]) && v[i] != '/' && v[i] != '>'
    requires x == [] || IsBlank(x[0]) || x[0] == '/' || x[0] == '>'
    ensures ParseAttribute(name + (u + "=" + (w + (v + x)))) == Done(Attribute(name, v), x)
  {
    hide BareRun, ReadName, ParseAttribute;
    NameBeforeRun(u, w + (v + x));
    ReadNameOfName(name, u + "=" + (w + (v + x)));
    SpacedSign(u, w + (v + x));
    RunIsSkipped(w, v + x);
    BareRunIs(v, x);
    assert (v + x)[..|v|] == v && (v + x)[|v|..] == x && (v + x)[0] == v[0];
    SpacedAttribute(name, u + "=" + (w + (v + x)), w + (v + x), v + x, v, x);
  }

  // ---------- Elements ----------

  lemma LaidEmptyBody(name: string, attributes: seq<Attribute>, w: string, x: string)
    requires IsRun(w)
    ensures ParseRest(name, attributes, w + "/>" + x) == Done(Element(name, attributes, []), x)
  {
    assert w + "/>" + x == w + ("/>" + x);
    RunIsSkipped(w, "/>" + x);
    assert ("/>" + x)[2..] == x;
  }

  lemma LaidFilledBody(name: string, attributes: seq<Attribute>, w: string, kids: seq<Xml>, body: string, x: string)
    requires IsRun(w) && ReadValue(body) == Done(kids, EndTag(name) + x)
    ensures ParseRest(name, attributes, w + ">" + body) == Done(Element(name, attributes, kids), x)
  {
    hide ReadValue;
    assert w + ">" + body == w + (">" + body);
    RunIsSkipped(w, ">" + body);
    var q := EndTag(name) + x;
    assert (">" + body)[1..] == body;
    assert q[|EndTag(name)|..] == x && q[..|EndTag(name)|] == EndTag(name);
  }

  /** What follows the name of an element. */
  lemma LaidNameEnds(attributes: seq<Attribute>, ls: seq<AttributeLayout>, w: string, x: string)
    requires (forall i :: 0 <= i < |ls| ==> AttributeBlanks(ls[i])) && IsRun(w)
    requires x != [] && (x[0] == '/' || x[0] == '>')
    ensures var y := LayAttributes(attributes, ls) + (w + x); y != [] && !IsNameChar(y[0])
  {
    if attributes == [] {
      assert LayAttributes(attributes, ls) + (w + x) == w + x;
      assert (w + x)[0] == if w == [] then x[0] else w[0];
    } else {
      hide LayAttribute;
      var l := First(ls, AttributeLayout(" ", "", "", false));
      FirstAttribute(ls);
      assert (LayAttributes(attributes, ls) + (w + x))[0] == l.before[0];
    }
  }

  function Closing(kids: seq<Xml>, l: Layout, name: string): string {
    if kids == [] && !l.open then "/>" else ">" + LayKids(kids, l.gaps, l.kids) + EndTag(name)
  }

  lemma LaidElementIs(t: Xml, l: Layout, x: string)
    requires t.Element?
    ensures var c := Closing(t.kids, l, t.name);
            && Lay(t, l) + x == "<" + t.name + (LayAttributes(t.attributes, l.attributes) + (l.close + (c + x)))
            && c != [] && (c[0] == '/' || c[0] == '>')
  {
    hide LayAttributes, LayKids;
  }

  lemma BlanksAre(l: Layout)
    requires Blanks(l)
    ensures AreRuns(l.spaces) && IsRun(l.close)
    ensures forall i :: 0 <= i < |l.attributes| ==> AttributeBlanks(l.attributes[i])
    ensures forall i :: 0 <= i < |l.gaps| ==> IsRun(l.gaps[i])
    ensures forall i :: 0 <= i < |l.kids| ==> Blanks(l.kids[i])
  {
    hide IsRun, AttributeBlanks;
  }

  /** A normal element is read from any layout: the same tree, and the rest untouched. */
  lemma {:induction false} LaidElementRoundTrip(t: Xml, l: Layout, x: string)
    requires t.Element? && Normal(t) && Blanks(l)
    ensures ParseElement(Lay(t, l) + x) == Done(t, x)
    decreases t, 0
  {
    hide *;
    var c := Closing(t.kids, l, t.name);
    var y := l.close + (c + x);
    LaidElementIs(t, l, x);
    BlanksAre(l);
    ElementIsNormal(t);
    LaidNameEnds(t.attributes, l.attributes, l.close, c + x);
    ElementHead(t.name, LayAttributes(t.attributes, l.attributes) + y);
    LaidAttributesRoundTrip(t.name, [], t.attributes, l.attributes, y);
    assert [] + t.attributes == t.attributes;
    LaidBodyRoundTrip(t, l, x);
  }

  lemma ClosingIs(t: Xml, l: Layout, x: string)
    requires t.Element?
    ensures var c := Closing(t.kids, l, t.name);
            if t.kids == [] && !l.open then l.close + (c + x) == l.close + "/>" + x
            else l.close + (c + x) == l.close + ">" + (LayKids(t.kids, l.gaps, l.kids) + EndTag(t.name) + x)
  {
    hide LayKids;
  }

  lemma ReadValueIs(body: string)
    requires body != []
    ensures ReadValue(body) == ReadKids([], DropSpace(body))
  {
    hide ReadKids;
  }

  lemma {:induction false} LaidBodyRoundTrip(t: Xml, l: Layout, x: string)
    requires t.Element? && Normal(t) && Blanks(l)
    ensures ParseRest(t.name, t.attributes, l.close + (Closing(t.kids, l, t.name) + x)) == Done(t, x)
    decreases t.kids, 2
  {
    hide *;
    ClosingIs(t, l, x);
    BlanksAre(l);
    KidsAreNormal(t);
    if t.kids == [] && !l.open {
      LaidEmptyBody(t.name, t.attributes, l.close, x);
    } else {
      var body := LayKids(t.kids, l.gaps, l.kids) + EndTag(t.name) + x;
      LaidKidsRoundTrip([], t.kids, l.gaps, l.kids, t.name, x);
      EndTagIsThere(t.name, LayKids(t.kids, l.gaps, l.kids), x);
      ReadValueIs(body);
      assert [] + t.kids == t.kids;
      LaidFilledBody(t.name, t.attributes, l.close, t.kids, body, x);
    }
  }

  lemma EndTagIsThere(name: string, front: string, x: string)
    ensures front + EndTag(name) + x != []
  {
  }

  lemma KidsAreNormal(t: Xml)
    requires t.Element? && Normal(t)
    ensures NormalKids(t.kids)
  {
    hide NormalKids;
  }

  // ---------- Children ----------

  lemma LaidKidsAre(kids: seq<Xml>, gaps: seq<string>, ls: seq<Layout>, x: string)
    ensures LayKids(kids, gaps, ls) + x
         == First(gaps, "") + if kids == [] then x
                              else Lay(kids[0], First(ls, PLAIN)) + (LayKids(kids[1..], Later(gaps), Later(ls)) + x)
  {
    hide Lay;
  }

  lemma LaidKidStarts(t: Xml, l: Layout, x: string)
    requires Normal(t)
    ensures var p := Lay(t, l) + x;
            p != [] && !IsBlank(p[0]) && (p[0] == '<' <==> !IsPlainText(t))
  {
    hide LayAttributes, LayBody, LayText;
    if IsPlainText(t) {
      LaidTextStarts(t.text, l.spaces);
      BlankIsSpace(LayText(t.text, l.spaces)[0]);
    }
  }

  lemma FirstGap(gaps: seq<string>)
    requires forall i :: 0 <= i < |gaps| ==> IsRun(gaps[i])
    ensures IsRun(First(gaps, "")) && forall i :: 0 <= i < |Later(gaps)| ==> IsRun(Later(gaps)[i])
  {
  }

  lemma FirstLayout(ls: seq<Layout>)
    requires forall i :: 0 <= i < |ls| ==> Blanks(ls[i])
    ensures Blanks(First(ls, PLAIN)) && forall i :: 0 <= i < |Later(ls)| ==> Blanks(Later(ls)[i])
  {
  }

  /** What comes behind the first gap: a child that is no text, or the end. */
  lemma AfterGap(kids: seq<Xml>, gaps: seq<string>, ls: seq<Layout>, x: string)
    requires NormalKids(kids) && (forall i :: 0 <= i < |gaps| ==> IsRun(gaps[i]))
    requires x != [] ==> x[0] == '<'
    ensures var p := LayKids(kids, gaps, ls) + x;
            var y := DropSpace(p);
            && p == First(gaps, "") + y && IsRun(First(gaps, ""))
            && (y != [] ==> !IsBlank(y[0])) && (kids == [] ==> y == x)
            && (kids != [] ==> y == Lay(kids[0], First(ls, PLAIN)) + (LayKids(kids[1..], Later(gaps), Later(ls)) + x))
            && (kids != [] ==> y != [] && (IsPlainText(kids[0]) || y[0] == '<'))
  {
    hide *;
    LaidKidsAre(kids, gaps, ls, x);
    FirstGap(gaps);
    TagIsNoBlank();
    if kids == [] {
      RunIsSkipped(First(gaps, ""), x);
    } else {
      FirstKidNormal(kids);
      var y := Lay(kids[0], First(ls, PLAIN)) + (LayKids(kids[1..], Later(gaps), Later(ls)) + x);
      LaidKidStarts(kids[0], First(ls, PLAIN), LayKids(kids[1..], Later(gaps), Later(ls)) + x);
      RunIsSkipped(First(gaps, ""), y);
    }
  }

  lemma TagIsNoBlank()
    ensures !IsBlank('<')
  {
  }

  lemma LaidTextKid(done: seq<Xml>, s: string, runs: seq<string>, w: string, y: string)
    requires NormalText(s) && AreRuns(runs) && IsRun(w) && y != [] && y[0] == '<'
    ensures ReadKids(done, LayText(s, runs) + (w + y)) == ReadKids(done + [Text(s, false)], y)
  {
    hide ParseText, LayText, IsRun;
    StartsWithTag(y);
    LaidTextRoundTrip(s, runs, w, y);
    LaidTextStarts(s, runs);
    assert LayText(s, runs) + (w + y) == LayText(s, runs) + w + y;
    assert (LayText(s, runs) + (w + y))[0] == LayText(s, runs)[0];
  }

  /** A child that is no text, and the white space after it. */
  lemma LaidNodeTurn(done: seq<Xml>, p: string, t: Xml, tail: string)
    requires ParsesTo(p, t, tail) && tail != []
    ensures ReadKids(done, p) == ReadKids(done + [t], DropSpace(tail))
  {
    hide ParseNode;
  }

  lemma LaidLeafIs(t: Xml, l: Layout)
    requires !t.Element? && !IsPlainText(t)
    ensures Lay(t, l) == Print(t)
  {
  }

  lemma LaidElementNode(t: Xml, l: Layout, x: string)
    requires t.Element? && Normal(t) && ParseElement(Lay(t, l) + x) == Done(t, x)
    ensures ParsesTo(Lay(t, l) + x, t, x)
  {
    hide ParseElement, Identify, LayAttributes, LayBody;
    var y := LayAttributes(t.attributes, l.attributes) + LayBody(t.name, t.kids, l) + x;
    assert Lay(t, l) + x == "<" + t.name + y;
    hide Lay;
    IdentifyElement(t.name, y);
  }

  lemma LaidNodeParses(t: Xml, l: Layout, x: string)
    requires Normal(t) && !IsPlainText(t) && Blanks(l)
    requires t.Element? ==> ParseElement(Lay(t, l) + x) == Done(t, x)
    ensures ParsesTo(Lay(t, l) + x, t, x)
  {
    hide Lay, ParseElement, ParsesTo, Blanks;
    if t.Element? {
      LaidElementNode(t, l, x);
    } else {
      LaidLeafIs(t, l);
      match t {
        case Text(text, _) => CDataNodeRoundTrip(text, x);
        case Comment(comment) => CommentNodeRoundTrip(comment, x);
      }
    }
  }

  lemma EndTagIs(name: string, x: string)
    ensures EndTag(name) + x != [] && (EndTag(name) + x)[0] == '<'
  {
  }

  lemma TextIsNormal(t: Xml)
    requires IsPlainText(t) && Normal(t)
    ensures NormalText(t.text) && t == Text(t.text, false)
    ensures forall l :: Lay(t, l) == LayText(t.text, l.spaces)
  {
  }

  /** Children with any white space around them are read back up to the end tag. */
  lemma {:induction false} LaidKidsRoundTrip(done: seq<Xml>, kids: seq<Xml>, gaps: seq<string>, ls: seq<Layout>,
                                             name: string, x: string)
    requires NormalKids(kids) && (forall i :: 0 <= i < |gaps| ==> IsRun(gaps[i]))
    requires forall i :: 0 <= i < |ls| ==> Blanks(ls[i])
    ensures ReadKids(done, DropSpace(LayKids(kids, gaps, ls) + EndTag(name) + x)) == Done(done + kids, EndTag(name) + x)
    decreases kids, 1
  {
    hide *;
    var end := EndTag(name) + x;
    EndTagIs(name, x);
    AfterGap(kids, gaps, ls, end);
    assert LayKids(kids, gaps, ls) + EndTag(name) + x == LayKids(kids, gaps, ls) + end;
    if kids == [] {
      EndTagStops(done, name, x);
      assert done + kids == done;
    } else {
      var t, l := kids[0], First(ls, PLAIN);
      var tail := LayKids(kids[1..], Later(gaps), Later(ls)) + end;
      FirstKidNormal(kids);
      FirstGap(gaps);
      FirstLayout(ls);
      AfterGap(kids[1..], Later(gaps), Later(ls), end);
      LaidKidsRoundTrip(done + [t], kids[1..], Later(gaps), Later(ls), name, x);
      assert LayKids(kids[1..], Later(gaps), Later(ls)) + EndTag(name) + x == tail;
      assert done + [t] + kids[1..] == done + kids;
      if IsPlainText(t) {
        TextIsNormal(t);
        BlanksAre(l);
        LaidTextKid(done, t.text, l.spaces, First(Later(gaps), ""), DropSpace(tail));
      } else {
        if t.Element? {
          LaidElementRoundTrip(t, l, tail);
        }
        LaidNodeParses(t, l, tail);
        LaidNodeTurn(done, Lay(t, l) + tail, t, tail);
      }
    }
  }

  // ---------- Documents ----------

  lemma DocumentNodeTurn(done: seq<Xml>, p: string, t: Xml, rest: string)
    requires ParsesTo(p, t, rest)
    ensures ParseDocumentFrom(done, p) == ParseDocumentFrom(done + [t], DropSpace(rest))
  {
    hide ParseNode;
  }

  lemma {:induction false} LaidDocumentIsRead(done: seq<Xml>, kids: seq<Xml>, gaps: seq<string>, ls: seq<Layout>)
    requires NormalKids(kids) && forall i :: 0 <= i < |kids| ==> !IsPlainText(kids[i])
    requires forall i :: 0 <= i < |gaps| ==> IsRun(gaps[i])
    requires forall i :: 0 <= i < |ls| ==> Blanks(ls[i])
    ensures ParseDocumentFrom(done, DropSpace(LayKids(kids, gaps, ls))) == Done(done + kids, "")
    decreases |kids|
  {
    hide *;
    AfterGap(kids, gaps, ls, "");
    assert LayKids(kids, gaps, ls) + "" == LayKids(kids, gaps, ls);
    if kids == [] {
      NothingIsLeft(done);
      assert done + kids == done;
    } else {
      var t, l := kids[0], First(ls, PLAIN);
      var tail := LayKids(kids[1..], Later(gaps), Later(ls));
      assert tail + "" == tail;
      FirstKidNormal(kids);
      FirstGap(gaps);
      FirstLayout(ls);
      if t.Element? {
        LaidElementRoundTrip(t, l, tail);
      }
      LaidNodeParses(t, l, tail);
      DocumentNodeTurn(done, Lay(t, l) + tail, t, tail);
      LaidDocumentIsRead(done + [t], kids[1..], Later(gaps), Later(ls));
      assert done + [t] + kids[1..] == done + kids;
    }
  }

  lemma NothingIsLeft(done: seq<Xml>)
    ensures ParseDocumentFrom(done, "") == Done(done, "")
  {
  }

  /** A document of comments, sections and elements, written with any white space around and in them, is read back
      with nothing left over. */
  lemma LaidDocumentRoundTrip(kids: seq<Xml>, gaps: seq<string>, ls: seq<Layout>)
    requires kids != [] && NormalKids(kids) && forall i :: 0 <= i < |kids| ==> !IsPlainText(kids[i])
    requires forall i :: 0 <= i < |gaps| ==> IsRun(gaps[i])
    requires forall i :: 0 <= i < |ls| ==> Blanks(ls[i])
    ensures ParseDocument(LayKids(kids, gaps, ls)) == Done(kids, "")
  {
    hide ParseDocumentFrom, LayKids, DropSpace, NormalKids, Blanks, IsRun;
    AfterGap(kids, gaps, ls, "");
    assert LayKids(kids, gaps, ls) + "" == LayKids(kids, gaps, ls);
    LaidDocumentIsRead([], kids, gaps, ls);
    assert [] + kids == kids;
  }

  // ---------- What is not kept, and what is refused ----------

  /** `w` with every character written as PutString does. */
  function Escaped(w: string): string {
    if w == [] then [] else Escape(w[0]) + Escaped(w[1..])
  }

  lemma {:induction false} EscapedRunIsRead(w: string, gap: bool, x: string)
    requires IsRun(w) && ' ' !in w && w != [] && "<" <= x
    ensures ReadTrim(Escaped(w) + x, "<", gap, Legacy) == Done(Gap(w, gap), x)
  {
    hide ReadTrim, Escape;
    assert Escaped(w) + x == Escape(w[0]) + (Escaped(w[1..]) + x);
    if |w| > 1 {
      EscapedRunIsRead(w[1..], false, x);
      TrimmedCharacter(w[0], Escaped(w[1..]) + x, gap, w[1..], x);
    } else {
      assert Escaped(w[1..]) + x == x;
      EndOfText("", x, false);
      assert "" + x == x;
      TrimmedCharacter(w[0], x, gap, "", x);
    }
    assert [w[0]] + w[1..] == w && " " + [w[0]] + w[1..] == " " + w;
  }

  /** A text of nothing but white space, though written in references, is no child. */
  lemma BlankTextIsDropped(done: seq<Xml>, w: string, y: string)
    requires IsRun(w) && ' ' !in w && w != [] && y != [] && y[0] == '<'
    ensures ReadKids(done, Escaped(w) + y) == ReadKids(done, y)
  {
    StartsWithTag(y);
    EscapedRunIsRead(w, false, y);
    EscapedStarts(w, y);
    assert forall i :: 0 <= i < |w| ==> IsWhiteSpace(w[i]) by {
      forall i | 0 <= i < |w| ensures IsWhiteSpace(w[i]) {
        BlankIsSpace(w[i]);
      }
    }
    hide ReadTrim, Escaped;
  }

  lemma EscapedStarts(w: string, y: string)
    requires IsRun(w) && ' ' !in w && w != []
    ensures Escaped(w) != [] && (Escaped(w) + y)[0] == '&'
  {
    assert Escape(w[0])[0] == '&';
  }

  /** An element whose end tag has another name is refused. */
  lemma OtherEndTagIsRefused(name: string, attributes: seq<Attribute>, w: string, kids: seq<Xml>, gaps: seq<string>,
                             ls: seq<Layout>, other: string, x: string)
    requires IsRun(w) && NormalKids(kids) && (forall i :: 0 <= i < |gaps| ==> IsRun(gaps[i]))
    requires forall i :: 0 <= i < |ls| ==> Blanks(ls[i])
    requires '>' !in name && '>' !in other && name != other
    ensures ParseRest(name, attributes, w + ">" + (LayKids(kids, gaps, ls) + "</" + other + ">" + x)) == Null
  {
    hide LayKids, ReadKids, Blanks, NormalKids;
    var body := LayKids(kids, gaps, ls) + EndTag(other) + x;
    assert LayKids(kids, gaps, ls) + "</" + other + ">" + x == body;
    LaidKidsRoundTrip([], kids, gaps, ls, other, x);
    assert [] + kids == kids;
    EndTagIsThere(other, LayKids(kids, gaps, ls), x);
    ReadValueIs(body);
    OtherTag(name, other, x);
    RefusedBody(name, attributes, w, kids, body, EndTag(other) + x);
  }

  lemma SameTag(name: string, other: string, x: string)
    requires '>' !in name && '>' !in other && EndTag(name) <= EndTag(other) + x
    ensures name == other
  {
    var p := EndTag(other) + x;
    TagInFront(name, p);
    TagInFront(other, p);
    hide *;
    assert |name| == |other|;
    assert forall i :: 0 <= i < |name| ==> name[i] == p[i + 2] == other[i];
  }

  lemma TagInFront(name: string, p: string)
    requires '>' !in name && EndTag(name) <= p
    ensures |p| > |name| + 2 && p[|name| + 2] == '>'
    ensures forall i :: 0 <= i < |name| ==> p[i + 2] == name[i]
    ensures forall i {:trigger p[i]} :: 2 <= i < |name| + 2 ==> p[i] != '>'
  {
    var tag := EndTag(name);
    assert forall i :: 0 <= i < |tag| ==> p[i] == tag[i];
    assert forall i :: 2 <= i < |name| + 2 ==> p[i] == name[i - 2];
  }

  lemma OtherTag(name: string, other: string, x: string)
    requires '>' !in name && '>' !in other && name != other
    ensures !(EndTag(name) <= EndTag(other) + x)
  {
    hide EndTag;
    if EndTag(name) <= EndTag(other) + x {
      SameTag(name, other, x);
    }
  }

  lemma RefusedBody(name: string, attributes: seq<Attribute>, w: string, kids: seq<Xml>, body: string, q: string)
    requires IsRun(w) && ReadValue(body) == Done(kids, q) && !(EndTag(name) <= q)
    ensures ParseRest(name, attributes, w + ">" + body) == Null
  {
    hide ReadValue, EndTag;
    assert w + ">" + body == w + (">" + body);
    RunIsSkipped(w, ">" + body);
    assert (">" + body)[1..] == body;
  }

  /** A second attribute of the same name is refused. */
  lemma RepeatedAttributeIsRefused(name: string, done: seq<Attribute>, a: Attribute, l: AttributeLayout, x: string)
    requires ValidName(a.name) && NormalValue(a.value) && AttributeBlanks(l) && x != []
    requires exists i :: 0 <= i < |done| && done[i].name == a.name
    ensures ParseRest(name, done, l.before + (LayAttribute(a, l) + x)) == Null
  {
    hide LayAttribute, ParseAttribute, IsRun;
    LaidAttributeIsRead(a, l, x);
    LaidAttributeStarts(a, l, x);
    var p := LayAttribute(a, l) + x;
    NoBlankStart(p[0]);
    RunIsSkipped(l.before, p);
  }

  lemma NoBlankStart(c: char)
    requires IsNameStart(c)
    ensures !IsBlank(c) && c != '/' && c != '>'
  {
  }

  /** A value, a comment or a section without its end runs past the end of the input. */
  lemma UnclosedIsWild(w: string, q: char)
    requires '&' !in w && q !in w && '-' !in w && ']' !in w && IsQuote(q)
    ensures ReadAttributeValue([q] + w) == Wild
    ensures ParseComment("<!--" + w) == Wild
    ensures ParseCData("<![CDATA[" + w) == Wild
  {
    hide ReadKeep, RunBefore, ParseCData;
    assert ([q] + w)[1..] == w && ("<!--" + w)[4..] == w && ("<!--" + w)[..4] == "<!--";
    PlainIsKept(w, [q]);
    PlainIsKept(w, "-->");
    NoEndBefore(w);
    assert w[|w|..] == "";
    PlainIsKept("", "]]>");
    CDataIsParsed(w);
  }

  lemma {:induction false} NoEndBefore(w: string)
    requires ']' !in w
    ensures RunBefore(w, "]]>") == |w|
  {
    if w != [] {
      FirstIsIn("]]>", w);
      NoEndBefore(w[1..]);
    }
  }

  /** A name without '=' is refused as an attribute. */
  lemma MissingSignIsRefused(name: string, u: string, x: string)
    requires ValidName(name) && IsRun(u) && (u == [] && x != [] ==> !IsNameChar(x[0]))
    requires x != [] ==> !IsBlank(x[0]) && x[0] != '='
    ensures ParseAttribute(name + (u + x)) == Null
  {
    hide ReadName;
    assert u + x != [] ==> (u + x)[0] == if u == [] then x[0] else u[0];
    assert u + x == [] || !IsNameChar((u + x)[0]) by {
      if u != [] {
        BlankIsNoName(u[0]);
      }
    }
    ReadNameOfName(name, u + x);
    RunIsSkipped(u, x);
    var p := name + (u + x);
    assert p[0] == name[0] && IsNameStart(p[0]);
    hide DropSpace;
  }

  lemma BlankIsNoName(c: char)
    requires IsBlank(c)
    ensures !IsNameChar(c)
  {
  }

  /** A tag that is not closed is refused: no more input, or a '/' without its '>'. */
  lemma OpenTagIsRefused(name: string, attributes: seq<Attribute>, w: string, x: string)
    requires IsRun(w) && (x == [] || x[0] != '>')
    ensures ParseRest(name, attributes, w + "/" + x) == Null
    ensures w != [] ==> ParseRest(name, attributes, w) == Null
  {
    assert w + "/" + x == w + ("/" + x);
    RunIsSkipped(w, "/" + x);
    RunIsSkipped(w, "");
    assert w + "" == w;
  }
}
