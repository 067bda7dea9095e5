/** Element trees as values: what `StreamOut` writes and what `Parse` reads, in a single-byte encoding with
    white space condensed. */
module XmlTree {
  import opened XmlText

  datatype Attribute = Attribute(name: string, value: string)

  datatype Xml =
    | Element(name: string, attributes: seq<Attribute>, kids: seq<Xml>)
    | Text(text: string, cdata: bool)
    | Comment(comment: string)

  // ---------- StreamOut ----------

  function QuoteFor(value: string): (q: char)
    ensures IsQuote(q)
  {
    if '"' in value then '\'' else '"'
  }

  function PrintAttribute(a: Attribute): string {
    PutString(a.name) + "=" + [QuoteFor(a.value)] + PutString(a.value) + [QuoteFor(a.value)]
  }

  function PrintAttributes(attributes: seq<Attribute>): string {
    if attributes == [] then []
    else " " + PrintAttribute(attributes[0]) + PrintAttributes(attributes[1..])
  }

  function Print(t: Xml): string
    decreases t, 0
  {
    match t
    case Text(text, cdata) => if cdata then "<![CDATA[" + text + "]]>" else PutString(text)
    case Comment(comment) => "<!--" + comment + "-->"
    case Element(name, attributes, kids) =>
      "<" + name + PrintAttributes(attributes) + PrintBody(name, kids)
  }

  function PrintBody(name: string, kids: seq<Xml>): string
    decreases kids, 1
  {
    if kids == [] then " />" else ">" + PrintKids(kids) + EndTag(name)
  }

  function PrintKids(kids: seq<Xml>): string
    decreases kids, 0
  {
    if kids == [] then [] else Print(kids[0]) + PrintKids(kids[1..])
  }

  function EndTag(name: string): string {
    "</" + name + ">"
  }

  // ---------- Parse ----------

  /** `TiXmlAttribute::Parse`. */
  function ParseAttribute(p: string): (r: Outcome<Attribute>)
    ensures r.Done? ==> |r.rest| < |p|
  {
    var (_, p1) :- SkipWhiteSpace(p);
    var (name, p2) :- ReadName(p1);
    var (_, p3) :- SkipWhiteSpace(p2);
    if p3 == [] || p3[0] != '=' then Null
    else
      var (_, p4) :- SkipWhiteSpace(p3[1..]);
      if p4 == [] then Null
      else
        var (value, rest) :- ReadAttributeValue(p4);
        Done(Attribute(name, value), rest)
  }

  function ReadAttributeValue(p: string): (r: Outcome<string>)
    requires p != []
    ensures r.Done? ==> |r.rest| <= |p|
  {
    if IsQuote(p[0]) then AfterTag(ReadKeep(p[1..], [p[0]], Legacy), [p[0]])
    else Done(p[..BareRun(p)], p[BareRun(p)..])
  }

  /** Length of an attribute value without quotes. */
  function BareRun(p: string): (n: nat)
    ensures n <= |p|
  {
    if p == [] || IsWhiteSpace(p[0]) || p[0] == '/' || p[0] == '>' then 0 else 1 + BareRun(p[1..])
  }

  /** `TiXmlText::Parse` outside CDATA: the pointer handed back is at the '<' or at the end. */
  function ParseText(p: string): (r: Outcome<Xml>)
    requires p != []
    ensures r.Done? ==> r.value.Text? && |r.rest| <= |p|
    ensures r.Done? && p[0] != '<' ==> |r.rest| < |p|
  {
    var (text, rest) :- ReadTrim(DropSpace(p), "<", false, Legacy);
    Done(Text(text, false), rest)
  }

  predicate Blank(s: string) {
    forall i :: 0 <= i < |s| ==> IsWhiteSpace(s[i])
  }

  /** Length of the text before `endTag`, or of all of `p`. */
  function RunBefore(p: string, endTag: string): (n: nat)
    ensures n <= |p| && (n < |p| ==> endTag <= p[n..])
  {
    if p == [] || endTag <= p then 0 else 1 + RunBefore(p[1..], endTag)
  }

  /** `TiXmlText::Parse` of a CDATA section: the loop copies the characters unread, then `ReadText` is called
      on what follows only to step over the end tag. */
  function ParseCData(p: string): (r: Outcome<Xml>)
    ensures r.Done? ==> |r.rest| < |p|
  {
    if "<![CDATA[" <= p then
      var n := RunBefore(p[9..], "]]>");
      var (_, rest) :- AfterTag(ReadKeep(p[9..][n..], "]]>", Legacy), "]]>");
      Done(Text(p[9..][..n], true), rest)
    else Null
  }

  /** `TiXmlComment::Parse`. */
  function ParseComment(p: string): (r: Outcome<Xml>)
    ensures r.Done? ==> |r.rest| < |p|
  {
    if "<!--" <= p then
      var (comment, rest) :- AfterTag(ReadKeep(p[4..], "-->", Legacy), "-->");
      Done(Comment(comment), rest)
    else Null
  }

  datatype NodeKind = ElementNode | CommentNode | CDataNode | OtherNode | NoNode

  predicate StartsXmlHeader(p: string) {
    && |p| >= 5 && p[0] == '<' && p[1] == '?'
    && (p[2] == 'x' || p[2] == 'X') && (p[3] == 'm' || p[3] == 'M') && (p[4] == 'l' || p[4] == 'L')
  }

  /** `Identify` where no white space is in front. */
  function Identify(p: string): NodeKind {
    if p == [] || p[0] != '<' then NoNode
    else if StartsXmlHeader(p) then OtherNode
    else if "<!--" <= p then CommentNode
    else if "<![CDATA[" <= p then CDataNode
    else if "<!" <= p then OtherNode
    else if |p| > 1 && IsNameStart(p[1]) then ElementNode
    else OtherNode
  }

  /** `node->Parse` on the node that `Identify` chose. */
  function ParseNode(p: string): (r: Outcome<Xml>)
    requires p != [] && p[0] == '<'
    ensures r.Done? ==> |r.rest| < |p|
    decreases |p|, 3
  {
    match Identify(p)
    case ElementNode => ParseElement(p)
    case CommentNode => ParseComment(p)
    case CDataNode => ParseCData(p)
    case _ => Unmodelled
  }

  /** `TiXmlElement::Parse`. */
  function ParseElement(p: string): (r: Outcome<Xml>)
    ensures r.Done? ==> r.value.Element? && |r.rest| < |p|
    decreases |p|, 2
  {
    var (_, p1) :- SkipWhiteSpace(p);
    if p1 == [] || p1[0] != '<' then Null
    else
      var (_, p2) :- SkipWhiteSpace(p1[1..]);
      var (name, p3) :- ReadName(p2);
      if p3 == [] then Null else ParseRest(name, [], p3)
  }

  predicate HasName(attributes: seq<Attribute>, name: string) {
    exists i :: 0 <= i < |attributes| && attributes[i].name == name
  }

  /** The attribute loop of `TiXmlElement::Parse`; a repeated attribute name ends the parse. */
  function ParseRest(name: string, attributes: seq<Attribute>, p: string): (r: Outcome<Xml>)
    requires p != []
    ensures r.Done? ==> r.value.Element? && |r.rest| < |p|
    decreases |p|, 1
  {
    var p1 := DropSpace(p);
    if AtTagEnd(p1) then ParseTagEnd(name, attributes, p1)
    else
      var (a, p2) :- ParseAttribute(p1);
      if p2 == [] || HasName(attributes, a.name) then Null
      else ParseRest(name, attributes + [a], p2)
  }

  predicate AtTagEnd(p: string) {
    p == [] || p[0] == '/' || p[0] == '>'
  }

  /** What follows the attributes: "/>", or ">" with the element's value and end tag. */
  function ParseTagEnd(name: string, attributes: seq<Attribute>, p: string): (r: Outcome<Xml>)
    requires AtTagEnd(p)
    ensures r.Done? ==> r.value.Element? && |r.rest| < |p|
    decreases |p|, 0
  {
    if p == [] then Null
    else if p[0] == '/' then
      if |p| > 1 && p[1] == '>' then Done(Element(name, attributes, []), p[2..]) else Null
    else
      var (kids, p2) :- ReadValue(p[1..]);
      if EndTag(name) <= p2 then Done(Element(name, attributes, kids), p2[|EndTag(name)|..]) else Null
  }

  /** `TiXmlElement::ReadValue`. */
  function ReadValue(p: string): (r: Outcome<seq<Xml>>)
    ensures r.Done? ==> |r.rest| <= |p|
    decreases |p|, 5
  {
    var (_, p1) :- SkipWhiteSpace(p);
    ReadKids([], p1)
  }

  /** The loop of `ReadValue`. */
  function ReadKids(kids: seq<Xml>, p: string): (r: Outcome<seq<Xml>>)
    ensures r.Done? ==> |r.rest| <= |p|
    decreases |p|, 4
  {
    if p == [] then Done(kids, p)
    else if p[0] != '<' then
      var (text, p1) :- ParseText(p);
      var (_, p2) :- SkipWhiteSpace(p1);
      ReadKids(if Blank(text.text) then kids else kids + [text], p2)
    else if "</" <= p then Done(kids, p)
    else
      var (kid, p1) :- ParseNode(p);
      var (_, p2) :- SkipWhiteSpace(p1);
      ReadKids(kids + [kid], p2)
  }

  /** `TiXmlDocument::Parse`: the nodes found before the first thing that is no node, and what is left. The
      source hands back a null pointer when nothing is left. */
  function ParseDocument(p: string): (r: Outcome<seq<Xml>>)
  {
    var (_, p1) :- SkipWhiteSpace(p);
    var (kids, p2) :- ParseDocumentFrom([], p1);
    if kids == [] then Null else Done(kids, p2)
  }

  function ParseDocumentFrom(kids: seq<Xml>, p: string): (r: Outcome<seq<Xml>>)
    decreases |p|
  {
    if p == [] || p[0] != '<' then Done(kids, p)
    else
      var (kid, p1) :- ParseNode(p);
      if p1 == [] then Done(kids + [kid], p1) else ParseDocumentFrom(kids + [kid], DropSpace(p1))
  }

  // ---------- Normal form ----------

  predicate ValidName(name: string) {
    name != [] && IsNameStart(name[0]) && forall i :: 0 <= i < |name| ==> IsNameChar(name[i])
  }

  predicate NormalValue(s: string) {
    NulFree(s) && NoHexReference(s)
  }

  predicate SingleSpaced(s: string) {
    forall i :: 0 <= i && i + 1 < |s| ==> !(s[i] == ' ' && s[i + 1] == ' ')
  }

  predicate NormalText(s: string) {
    NormalValue(s) && !Blank(s) && s[0] != ' ' && s[|s| - 1] != ' ' && SingleSpaced(s)
  }

  predicate Avoids(s: string, tag: string) {
    forall i :: 0 <= i <= |s| ==> !(tag <= s[i..])
  }

  /** Every '&' of a comment must be one that the reader leaves alone. */
  predicate NormalComment(s: string) {
    && NulFree(s) && Avoids(s, "-->")
    && Avoids(s, "&#") && Avoids(s, "&amp;") && Avoids(s, "&lt;") && Avoids(s, "&gt;")
    && Avoids(s, "&quot;") && Avoids(s, "&apos;")
  }

  predicate DistinctNames(attributes: seq<Attribute>) {
    forall i, j :: 0 <= i < j < |attributes| ==> attributes[i].name != attributes[j].name
  }

  predicate IsPlainText(t: Xml) {
    t.Text? && !t.cdata
  }

  predicate Normal(t: Xml) {
    match t
    case Text(text, cdata) => if cdata then NulFree(text) && Avoids(text, "]]>") else NormalText(text)
    case Comment(comment) => NormalComment(comment)
    case Element(name, attributes, kids) =>
      && ValidName(name) && DistinctNames(attributes)
      && (forall i :: 0 <= i < |attributes| ==>
            ValidName(attributes[i].name) && NormalValue(attributes[i].value))
      && NormalKids(kids)
  }

  predicate NormalKids(kids: seq<Xml>) {
    && (forall i :: 0 <= i < |kids| ==> Normal(kids[i]))
    && (forall i :: 0 <= i && i + 1 < |kids| ==> !(IsPlainText(kids[i]) && IsPlainText(kids[i + 1])))
  }

  // ---------- Reading back what was printed ----------

  lemma {:induction false} NameRunOfName(name: string, x: string)
    requires forall i :: 0 <= i < |name| ==> IsNameChar(name[i])
    requires x == [] || !IsNameChar(x[0])
    ensures NameRun(name + x) == |name|
  {
    if name != [] {
      NameRunOfName(name[1..], x);
      assert (name + x)[1..] == name[1..] + x;
    } else {
      assert name + x == x;
    }
  }

  lemma ReadNameOfName(name: string, x: string)
    requires ValidName(name) && (x == [] || !IsNameChar(x[0]))
    ensures ReadName(name + x) == Done(name, x)
  {
    NameRunOfName(name, x);
    assert (name + x)[..|name|] == name && (name + x)[|name|..] == x;
  }

  lemma {:induction false} NamesAreNotEscaped(name: string)
    requires forall i :: 0 <= i < |name| ==> IsNameChar(name[i])
    ensures PutString(name) == name
  {
    if name != [] {
      assert IsNameChar(name[0]);
      NamesAreNotEscaped(name[1..]);
      assert [name[0]] + name[1..] == name;
    }
  }

  lemma AttributeValueRoundTrip(value: string, q: char, x: string)
    requires NormalValue(value) && IsQuote(q)
    ensures ReadAttributeValue([q] + PutString(value) + [q] + x) == Done(value, x)
  {
    var p := [q] + PutString(value) + [q] + x;
    assert p[1..] == PutString(value) + [q] + x;
    EscapingRoundTrip(value, q, x);
    assert ([q] + x)[1..] == x;
  }

  lemma AttributeRoundTrip(a: Attribute, x: string)
    requires ValidName(a.name) && NormalValue(a.value)
    ensures ParseAttribute(PrintAttribute(a) + x) == Done(a, x)
  {
    hide PutString, ReadName, ReadAttributeValue, ParseAttribute, QuoteFor;
    var q := QuoteFor(a.value);
    var quoted := [q] + PutString(a.value) + [q] + x;
    NamesAreNotEscaped(a.name);
    assert PrintAttribute(a) + x == a.name + ("=" + quoted);
    hide PrintAttribute;
    ReadNameOfName(a.name, "=" + quoted);
    AttributeValueRoundTrip(a.value, q, x);
    hide NormalValue;
    AttributeIsRead(a.name, quoted, a.value, x);
  }

  /** How an attribute is written: its value between double quotes, or single ones if it holds a double one. */
  lemma WrittenAttribute(a: Attribute)
    requires ValidName(a.name)
    ensures PrintAttribute(a) == if '"' in a.value then a.name + "='" + PutString(a.value) + "'"
                                 else a.name + "=\"" + PutString(a.value) + "\""
  {
    NamesAreNotEscaped(a.name);
    hide PutString;
  }

  /** How elements are written: each attribute after a space, " />" without children, and a start and an end tag
      around them. */
  lemma WrittenElement(name: string, attributes: seq<Attribute>, a: Attribute, kids: seq<Xml>, kid: Xml)
    ensures Print(Element(name, [], [])) == "<" + name + " />"
    ensures kids != [] ==> Print(Element(name, [], kids)) == "<" + name + ">" + PrintKids(kids) + "</" + name + ">"
    ensures PrintAttributes(attributes + [a]) == PrintAttributes(attributes) + " " + PrintAttribute(a)
    ensures PrintKids(kids + [kid]) == PrintKids(kids) + Print(kid)
  {
    hide PrintAttribute, PrintKids, PrintAttributes;
    assert PrintAttributes([]) == "" by {
      NoAttributesWritten();
    }
    LastAttributeWritten(attributes, a);
    LastKidWritten(kids, kid);
  }

  lemma NoAttributesWritten()
    ensures PrintAttributes([]) == ""
  {
  }

  lemma {:induction false} LastAttributeWritten(attributes: seq<Attribute>, a: Attribute)
    ensures PrintAttributes(attributes + [a]) == PrintAttributes(attributes) + " " + PrintAttribute(a)
  {
    hide PrintAttribute;
    if attributes == [] {
      assert [] + [a] == [a] && [a][1..] == [];
    } else {
      assert (attributes + [a])[1..] == attributes[1..] + [a];
      LastAttributeWritten(attributes[1..], a);
    }
  }

  lemma {:induction false} LastKidWritten(kids: seq<Xml>, kid: Xml)
    ensures PrintKids(kids + [kid]) == PrintKids(kids) + Print(kid)
  {
    hide Print;
    if kids == [] {
      assert [] + [kid] == [kid] && [kid][1..] == [];
    } else {
      assert (kids + [kid])[1..] == kids[1..] + [kid];
      LastKidWritten(kids[1..], kid);
    }
  }

  lemma AttributeIsRead(name: string, quoted: string, value: string, x: string)
    requires ValidName(name) && quoted != [] && IsQuote(quoted[0])
    requires ReadName(name + ("=" + quoted)) == Done(name, "=" + quoted)
    requires ReadAttributeValue(quoted) == Done(value, x)
    ensures ParseAttribute(name + ("=" + quoted)) == Done(Attribute(name, value), x)
  {
    hide ReadName, ReadAttributeValue;
    var p := name + ("=" + quoted);
    assert p[0] == name[0] && IsNameStart(p[0]);
    assert ("=" + quoted)[1..] == quoted;
  }

  lemma TrimmedCharacter(c: char, tail: string, gap: bool, text: string, x: string)
    requires c != ' ' && ReadTrim(tail, "<", false, Legacy) == Done(text, x)
    ensures ReadTrim(Escape(c) + tail, "<", gap, Legacy) == Done(if gap then " " + [c] + text else [c] + text, x)
  {
    var p := Escape(c) + tail;
    EscapeDecodes(c, tail);
    assert p[0] == Escape(c)[0] && p[0] != '<' && !IsWhiteSpace(p[0]);
  }

  lemma TrimmedSpace(tail: string, text: string, x: string)
    requires ReadTrim(tail, "<", true, Legacy) == Done(text, x)
    ensures ReadTrim(" " + tail, "<", false, Legacy) == Done(text, x)
  {
    var p := " " + tail;
    assert p[0] == ' ' && p[1..] == tail;
    assert "<"[0] == '<';
  }

  /** Text whose spaces are single and inside, once a first part has been read; `gap` says that a space has
      been read just before. */
  predicate Condensed(s: string, gap: bool) {
    NoHexReference(s) && SingleSpaced(s) && (s != [] ==> s[|s| - 1] != ' ') && (gap ==> s != [] && s[0] != ' ')
  }

  function Gap(s: string, gap: bool): string {
    if gap then " " + s else s
  }

  lemma CondensedTail(s: string, gap: bool)
    requires s != [] && Condensed(s, gap)
    ensures Condensed(s[1..], s[0] == ' ') && !StartsHexReference(s) && !(gap && s[0] == ' ')
  {
  }

  lemma TrimmedStep(c: char, t: string, gap: bool, tail: string, x: string)
    requires ReadTrim(tail, "<", c == ' ', Legacy) == Done(Gap(t, c == ' '), x) && !(gap && c == ' ')
    ensures ReadTrim(Escape(c) + tail, "<", gap, Legacy) == Done(Gap([c] + t, gap), x)
  {
    hide ReadTrim;
    if c == ' ' {
      TrimmedSpace(tail, " " + t, x);
    } else {
      TrimmedCharacter(c, tail, gap, t, x);
      assert " " + [c] + t == " " + ([c] + t);
    }
  }

  /** Condensing white space gives escaped text back if its spaces are single and inside. */
  lemma {:induction false} TextIsRead(s: string, gap: bool, x: string)
    requires Condensed(s, gap) && "<" <= x
    ensures ReadTrim(PutString(s) + x, "<", gap, Legacy) == Done(Gap(s, gap), x)
  {
    hide ReadTrim, PutString, Escape;
    if s == [] {
      EmptyTextIsRead(x);
    } else {
      var t := s[1..];
      CondensedTail(s, gap);
      CondensedIsEscaped(s, gap, x);
      hide Condensed;
      TextIsRead(t, s[0] == ' ', x);
      TrimmedStep(s[0], t, gap, PutString(t) + x, x);
      assert [s[0]] + t == s;
    }
  }

  lemma CondensedIsEscaped(s: string, gap: bool, x: string)
    requires s != [] && Condensed(s, gap)
    ensures PutString(s) + x == Escape(s[0]) + (PutString(s[1..]) + x)
  {
    hide Escape;
  }

  lemma EmptyTextIsRead(x: string)
    requires "<" <= x
    ensures ReadTrim(PutString("") + x, "<", false, Legacy) == Done("", x)
  {
    assert PutString("") + x == x;
  }

  lemma TextStartsUnspaced(s: string)
    requires NormalText(s)
    ensures PutString(s) != [] && !IsWhiteSpace(PutString(s)[0]) && PutString(s)[0] != '<'
  {
    assert PutString(s)[0] == Escape(s[0])[0];
  }

  lemma TextRoundTrip(s: string, x: string)
    requires NormalText(s) && "<" <= x
    ensures ParseText(PutString(s) + x) == Done(Text(s, false), x)
  {
    hide ReadTrim, PutString;
    TextStartsUnspaced(s);
    TextIsRead(s, false, x);
  }

  lemma {:induction false} RunBeforeTag(s: string, tag: string, x: string)
    requires |tag| == 3 && tag[0] == tag[1] != tag[2]
    requires Avoids(s, tag)
    ensures RunBefore(s + tag + x, tag) == |s|
  {
    hide *;
    var p := s + tag + x;
    RunBeforeIs(p, tag);
    if s == [] {
      assert p == tag + x && tag <= tag + x;
    } else {
      AvoidsTail(s, tag);
      TagNotSplit(s, tag, x);
      RunBeforeTag(s[1..], tag, x);
      assert p[1..] == s[1..] + tag + x;
    }
  }

  lemma RunBeforeIs(p: string, tag: string)
    ensures RunBefore(p, tag) == if p == [] || tag <= p then 0 else 1 + RunBefore(p[1..], tag)
  {
  }

  lemma PrefixIsPointwise(tag: string, p: string)
    ensures tag <= p <==> |tag| <= |p| && forall i :: 0 <= i < |tag| ==> p[i] == tag[i]
  {
    if |tag| <= |p| && forall i :: 0 <= i < |tag| ==> p[i] == tag[i] {
      assert p[..|tag|] == tag;
    }
  }

  /** An end tag of three characters does not start before the one that is meant. */
  lemma TagNotSplit(s: string, tag: string, x: string)
    requires |tag| == 3 && tag[0] == tag[1] != tag[2]
    requires s != [] && !(tag <= s)
    ensures !(tag <= s + tag + x)
  {
    var p := s + tag + x;
    PrefixIsPointwise(tag, s);
    PrefixIsPointwise(tag, p);
    assert p[|s|] == p[|s| + 1] == tag[0] && p[|s| + 2] == tag[2];
    assert forall i :: 0 <= i < |s| ==> p[i] == s[i];
  }

  lemma AvoidsTail(s: string, tag: string)
    requires s != [] && Avoids(s, tag)
    ensures Avoids(s[1..], tag) && !(tag <= s)
  {
    assert s[0..] == s;
    forall i | 0 <= i <= |s[1..]| ensures !(tag <= s[1..][i..]) {
      assert s[1..][i..] == s[i + 1..];
    }
  }

  lemma AtEndTag(text: string, tag: string, x: string)
    requires |tag| == 3
    ensures ReadKeep(tag + x, tag, Legacy) == Done("", tag + x)
    ensures AfterTag(Done(text, tag + x), tag) == Done(text, x)
  {
    assert (tag + x)[..3] == tag && (tag + x)[3..] == x;
  }

  lemma CDataIsPrinted(s: string, x: string)
    ensures Print(Text(s, true)) + x == "<![CDATA[" + (s + "]]>" + x)
  {
  }

  lemma CDataIsParsed(q: string)
    ensures var n := RunBefore(q, "]]>");
            ParseCData("<![CDATA[" + q)
            == match AfterTag(ReadKeep(q[n..], "]]>", Legacy), "]]>")
               case Done(_, rest) => Done(Text(q[..n], true), rest)
               case Null => Null
               case Wild => Wild
               case Unmodelled => Unmodelled
  {
    hide RunBefore, AfterTag, ReadKeep;
    var p := "<![CDATA[" + q;
    assert p[9..] == q && p[..9] == "<![CDATA[";
  }

  lemma CDataRoundTrip(s: string, x: string)
    requires NulFree(s) && Avoids(s, "]]>")
    ensures ParseCData(Print(Text(s, true)) + x) == Done(Text(s, true), x)
  {
    hide *;
    var q := s + "]]>" + x;
    CDataIsPrinted(s, x);
    CDataIsParsed(q);
    RunBeforeTag(s, "]]>", x);
    assert q[..|s|] == s && q[|s|..] == "]]>" + x;
    AtEndTag("", "]]>", x);
  }

  /** The parser, which stops at the first NUL, reads a printed section back exactly if the section holds neither a
      NUL nor the end tag, whatever follows it. */
  lemma CDataRoundTripsExactly(s: string, x: string)
    ensures ParseCData(CString(Print(Text(s, true)) + x)) == Done(Text(s, true), CString(x))
       <==> NulFree(s) && Avoids(s, "]]>")
  {
    hide *;
    var p := CString(Print(Text(s, true)) + x);
    if NulFree(s) {
      CDataIsNulFree(s);
      CStringOf(Print(Text(s, true)), x);
      if Avoids(s, "]]>") {
        CDataRoundTrip(s, CString(x));
      } else {
        CDataIs(s, CString(x));
        EndsEarly(s, "]]>", CString(x));
      }
    } else {
      CDataTextIsNulFree(p);
    }
  }

  lemma CDataIsNulFree(s: string)
    requires NulFree(s)
    ensures NulFree(Print(Text(s, true)))
  {
  }

  lemma CStringOf(s: string, x: string)
    requires NulFree(s)
    ensures CString(s + x) == s + CString(x)
  {
    var n, k := Find(s + x, '\0', 0), Find(x, '\0', 0);
    assert forall i :: 0 <= i < |s| ==> (s + x)[i] == s[i];
    assert forall i :: |s| <= i < |s + x| ==> (s + x)[i] == x[i - |s|];
    assert k < |x| ==> (s + x)[|s| + k] == '\0';
    assert n == |s| + k;
    assert (s + x)[..n] == s + x[..k];
  }

  lemma CDataTextIsNulFree(p: string)
    requires NulFree(p)
    ensures ParseCData(p).Done? ==> ParseCData(p).value.Text? && NulFree(ParseCData(p).value.text)
  {
    hide RunBefore, AfterTag, ReadKeep;
  }

  lemma CDataIs(s: string, x: string)
    ensures var r := ParseCData(Print(Text(s, true)) + x);
            r.Done? ==> r.value == Text((s + "]]>" + x)[..RunBefore(s + "]]>" + x, "]]>")], true)
  {
    hide *;
    CDataIsPrinted(s, x);
    CDataIsParsed(s + "]]>" + x);
  }

  lemma {:induction false} FirstTag(p: string, tag: string, i: nat)
    requires i < RunBefore(p, tag)
    ensures !(tag <= p[i..])
  {
    if i > 0 {
      FirstTag(p[1..], tag, i - 1);
      assert p[1..][i - 1..] == p[i..];
    } else {
      assert p[0..] == p;
    }
  }

  /** An end tag inside the text ends it there. */
  lemma EndsEarly(s: string, tag: string, x: string)
    requires tag != [] && !Avoids(s, tag)
    ensures (s + tag + x)[..RunBefore(s + tag + x, tag)] != s
  {
    hide RunBefore;
    var i :| 0 <= i <= |s| && tag <= s[i..];
    var p := s + tag + x;
    assert p[i..] == s[i..] + (tag + x);
    if i < RunBefore(p, tag) {
      FirstTag(p, tag, i);
    }
  }

  lemma CommentCharacter(s: string, x: string)
    requires s != [] && NormalComment(s)
    ensures GetChar(s + "-->" + x, Legacy) == Done([s[0]], s[1..] + "-->" + x)
  {
    var p := s + "-->" + x;
    assert p[1..] == s[1..] + "-->" + x;
    if s[0] == '&' {
      PlainAmpersand(s, "-->" + x);
      assert p == s + ("-->" + x);
    }
  }

  lemma PlainAmpersand(s: string, x: string)
    requires s != [] && s[0] == '&' && NormalComment(s) && x != [] && x[0] == '-'
    ensures GetEntity(s + x) == Character('&', (s + x)[1..])
  {
    assert s[0..] == s;
    var p := s + x;
    NotAPrefix(s, x, "&#");
    assert |p| > 1 && p[1] == '#' ==> "&#" <= p;
    NotAPrefix(s, x, "&amp;");
    NotAPrefix(s, x, "&lt;");
    NotAPrefix(s, x, "&gt;");
    NotAPrefix(s, x, "&quot;");
    NotAPrefix(s, x, "&apos;");
  }

  lemma NotAPrefix(s: string, x: string, entity: string)
    requires !(entity <= s) && '-' !in entity && x != [] && x[0] == '-'
    ensures !(entity <= s + x)
  {
    PrefixIsPointwise(entity, s);
    PrefixIsPointwise(entity, s + x);
    assert (s + x)[|s|] == '-';
  }

  lemma {:induction false} CommentIsRead(s: string, x: string)
    requires NormalComment(s)
    ensures ReadKeep(s + "-->" + x, "-->", Legacy) == Done(s, "-->" + x)
  {
    hide *;
    CommentStarts(s, x);
    if s != [] {
      NormalCommentTail(s);
      CommentIsRead(s[1..], x);
      assert [s[0]] + s[1..] == s;
    }
  }

  /** One turn of the loop over the text of a comment. */
  lemma CommentStarts(s: string, x: string)
    requires NormalComment(s)
    ensures ReadKeep(s + "-->" + x, "-->", Legacy)
         == if s == [] then Done("", "-->" + x)
            else
              match ReadKeep(s[1..] + "-->" + x, "-->", Legacy)
              case Done(text, q) => Done([s[0]] + text, q)
              case failure => failure
  {
    hide GetChar, NormalComment;
    if s == [] {
      assert s + "-->" + x == "-->" + x;
    } else {
      CommentAvoids(s);
      TagNotSplit(s, "-->", x);
      CommentCharacter(s, x);
    }
  }

  lemma CommentAvoids(s: string)
    requires s != [] && NormalComment(s)
    ensures !("-->" <= s)
  {
    AvoidsTail(s, "-->");
  }

  lemma NormalCommentTail(s: string)
    requires s != [] && NormalComment(s)
    ensures NormalComment(s[1..])
  {
    AvoidsTail(s, "-->");
    AvoidsTail(s, "&#");
    AvoidsTail(s, "&amp;");
    AvoidsTail(s, "&lt;");
    AvoidsTail(s, "&gt;");
    AvoidsTail(s, "&quot;");
    AvoidsTail(s, "&apos;");
  }

  lemma CommentRoundTrip(s: string, x: string)
    requires NormalComment(s)
    ensures ParseComment(Print(Comment(s)) + x) == Done(Comment(s), x)
  {
    var p := Print(Comment(s)) + x;
    var q := s + "-->" + x;
    assert p == "<!--" + q;
    assert p[4..] == q && p[..4] == "<!--";
    CommentIsRead(s, x);
    assert ("-->" + x)[3..] == x;
  }

  // Elements.

  lemma AttributesStart(attributes: seq<Attribute>, body: string)
    requires body != [] && (body[0] == ' ' || body[0] == '>')
    ensures var p := PrintAttributes(attributes) + body;
            p != [] && (p[0] == ' ' || p[0] == '>')
  {
    if attributes == [] {
      assert PrintAttributes(attributes) + body == body;
    }
  }

  /** One turn of the attribute loop. */
  lemma AttributeTurn(name: string, done: seq<Attribute>, p: string, a: Attribute, rest: string)
    requires p != [] && IsNameStart(p[0]) && ParseAttribute(p) == Done(a, rest)
    requires !HasName(done, a.name) && rest != []
    ensures ParseRest(name, done, " " + p) == ParseRest(name, done + [a], rest)
  {
    hide ParseAttribute, HasName;
    assert (" " + p)[1..] == p && (" " + p)[0] == ' ';
    assert DropSpace(" " + p) == p;
  }

  lemma AttributeStep(name: string, done: seq<Attribute>, a: Attribute, x: string)
    requires ValidName(a.name) && NormalValue(a.value) && !HasName(done, a.name) && x != []
    ensures ParseRest(name, done, " " + PrintAttribute(a) + x) == ParseRest(name, done + [a], x)
  {
    hide ParseRest, ParseAttribute;
    var p := PrintAttribute(a) + x;
    NamesAreNotEscaped(a.name);
    assert p[0] == a.name[0];
    hide PrintAttribute;
    AttributeRoundTrip(a, x);
    AttributeTurn(name, done, p, a, x);
    assert " " + PrintAttribute(a) + x == " " + p;
  }

  lemma {:induction false} AttributesRoundTrip(name: string, done: seq<Attribute>, attributes: seq<Attribute>, x: string)
    requires DistinctNames(done + attributes)
    requires forall i :: 0 <= i < |attributes| ==>
               ValidName(attributes[i].name) && NormalValue(attributes[i].value)
    requires x != [] && (x[0] == ' ' || x[0] == '>')
    ensures ParseRest(name, done, PrintAttributes(attributes) + x) == ParseRest(name, done + attributes, x)
    decreases |attributes|
  {
    hide ParseRest, PrintAttribute;
    if attributes == [] {
      assert PrintAttributes(attributes) + x == x && done + attributes == done;
    } else {
      var a := attributes[0];
      var tail := PrintAttributes(attributes[1..]) + x;
      assert PrintAttributes(attributes) + x == " " + PrintAttribute(a) + tail;
      AttributesStart(attributes[1..], x);
      assert !HasName(done, a.name) by {
        assert (done + attributes)[|done|] == a;
        assert forall i :: 0 <= i < |done| ==> (done + attributes)[i] == done[i];
      }
      AttributeStep(name, done, a, tail);
      assert done + [a] + attributes[1..] == done + attributes;
      AttributesRoundTrip(name, done + [a], attributes[1..], x);
    }
  }

  lemma EmptyBody(name: string, attributes: seq<Attribute>, x: string)
    ensures ParseRest(name, attributes, " />" + x) == Done(Element(name, attributes, []), x)
  {
    var p := " />" + x;
    assert p[1..] == "/>" + x;
    assert DropSpace(p) == "/>" + x;
    assert ("/>" + x)[2..] == x;
  }

  lemma FilledBody(name: string, attributes: seq<Attribute>, kids: seq<Xml>, body: string, x: string)
    requires ReadValue(body) == Done(kids, EndTag(name) + x)
    ensures ParseRest(name, attributes, ">" + body) == Done(Element(name, attributes, kids), x)
  {
    var p := ">" + body;
    var q := EndTag(name) + x;
    assert p[1..] == body && DropSpace(p) == p;
    assert q[|EndTag(name)|..] == x && q[..|EndTag(name)|] == EndTag(name);
  }

  lemma ElementHead(name: string, y: string)
    requires ValidName(name) && y != [] && !IsNameChar(y[0])
    ensures ParseElement("<" + name + y) == ParseRest(name, [], y)
  {
    hide ParseRest, ReadName;
    var p := "<" + name + y;
    assert p[0] == '<' && p[1..] == name + y;
    assert IsNameStart((name + y)[0]);
    ReadNameOfName(name, y);
  }

  lemma IdentifyElement(name: string, y: string)
    requires ValidName(name)
    ensures Identify("<" + name + y) == ElementNode
    ensures !("</" <= "<" + name + y)
  {
    var p := "<" + name + y;
    assert p[0] == '<' && p[1] == name[0] && IsNameStart(p[1]);
    assert "<!--"[1] == '!' && "<![CDATA["[1] == '!' && "<!"[1] == '!' && "</"[1] == '/';
  }

  lemma IdentifyComment(y: string)
    ensures Identify("<!--" + y) == CommentNode
    ensures !("</" <= "<!--" + y)
  {
    var p := "<!--" + y;
    assert p[..4] == "<!--" && p[1] == '!';
    assert "</"[1] == '/';
  }

  lemma IdentifyCData(y: string)
    ensures Identify("<![CDATA[" + y) == CDataNode
    ensures !("</" <= "<![CDATA[" + y)
  {
    var p := "<![CDATA[" + y;
    assert p[..9] == "<![CDATA[" && p[1] == '!' && p[2] == '[';
    assert "</"[1] == '/' && "<!--"[2] == '-';
  }

  /** What stands between an element's attributes and the end of the element. */
  lemma BodyStarts(name: string, kids: seq<Xml>, x: string)
    ensures var p := PrintBody(name, kids) + x;
            p != [] && (p[0] == ' ' || p[0] == '>')
  {
  }

  lemma ElementIsPrinted(t: Xml, x: string)
    requires t.Element?
    ensures Print(t) + x == "<" + t.name + (PrintAttributes(t.attributes) + (PrintBody(t.name, t.kids) + x))
  {
    hide PrintAttributes, PrintBody;
  }

  lemma ElementIsNormal(t: Xml)
    requires t.Element? && Normal(t)
    ensures ValidName(t.name) && DistinctNames([] + t.attributes)
    ensures forall i :: 0 <= i < |t.attributes| ==>
              ValidName(t.attributes[i].name) && NormalValue(t.attributes[i].value)
  {
    hide ValidName, NormalValue, NormalKids, DistinctNames;
    assert [] + t.attributes == t.attributes;
  }

  lemma NameEnds(c: char)
    requires c == ' ' || c == '>'
    ensures !IsNameChar(c)
  {
  }

  lemma {:induction false} ElementRoundTrip(t: Xml, x: string)
    requires t.Element? && Normal(t)
    ensures ParseElement(Print(t) + x) == Done(t, x)
    decreases t, 0
  {
    hide *;
    var y := PrintBody(t.name, t.kids) + x;
    var z := PrintAttributes(t.attributes) + y;
    ElementIsPrinted(t, x);
    ElementIsNormal(t);
    BodyStarts(t.name, t.kids, x);
    AttributesStart(t.attributes, y);
    NameEnds(z[0]);
    ElementHead(t.name, z);
    AttributesRoundTrip(t.name, [], t.attributes, y);
    assert [] + t.attributes == t.attributes;
    BodyRoundTrip(t, x);
  }

  lemma {:induction false} BodyRoundTrip(t: Xml, x: string)
    requires t.Element? && Normal(t)
    ensures ParseRest(t.name, t.attributes, PrintBody(t.name, t.kids) + x) == Done(t, x)
    decreases t.kids, 2
  {
    hide ParseRest, Print, ReadKids;
    if t.kids == [] {
      EmptyBody(t.name, t.attributes, x);
    } else {
      var body := PrintKids(t.kids) + EndTag(t.name) + x;
      assert PrintBody(t.name, t.kids) + x == ">" + body;
      KidsStart(t.kids, t.name, x);
      KidsRoundTrip([], t.kids, t.name, x);
      assert [] + t.kids == t.kids;
      FilledBody(t.name, t.attributes, t.kids, body, x);
    }
  }

  lemma KidStarts(t: Xml, x: string)
    requires Normal(t)
    ensures var p := Print(t) + x;
            p != [] && !IsWhiteSpace(p[0]) && (p[0] == '<' <==> !IsPlainText(t))
  {
    if IsPlainText(t) {
      TextStartsUnspaced(t.text);
    }
  }

  lemma KidsStart(kids: seq<Xml>, name: string, x: string)
    requires NormalKids(kids)
    ensures var p := PrintKids(kids) + EndTag(name) + x;
            p != [] && !IsWhiteSpace(p[0]) && (kids == [] || !IsPlainText(kids[0]) ==> "<" <= p)
  {
    hide *;
    FirstKidPrinted(kids);
    if kids == [] {
      EndTagStarts(name, x);
    } else {
      FirstKidNormal(kids);
      FourParts(Print(kids[0]), PrintKids(kids[1..]), EndTag(name), x);
      KidStarts(kids[0], PrintKids(kids[1..]) + EndTag(name) + x);
    }
    StartsWithTag(PrintKids(kids) + EndTag(name) + x);
  }

  lemma EndTagStarts(name: string, x: string)
    ensures var p := [] + EndTag(name) + x; p != [] && p[0] == '<' && !IsWhiteSpace(p[0])
  {
  }

  lemma StartsWithTag(p: string)
    requires p != []
    ensures p[0] == '<' ==> "<" <= p
  {
    assert p[0] == '<' ==> p[..1] == "<";
  }

  /** `p` is not an end tag and the node at its front is `t`, followed by `x`. */
  predicate ParsesTo(p: string, t: Xml, x: string) {
    p != [] && p[0] == '<' && !("</" <= p) && ParseNode(p) == Done(t, x)
  }

  lemma CDataNodeRoundTrip(text: string, x: string)
    requires NulFree(text) && Avoids(text, "]]>")
    ensures ParsesTo(Print(Text(text, true)) + x, Text(text, true), x)
  {
    hide ParseCData, Identify;
    CDataRoundTrip(text, x);
    IdentifyCData(text + "]]>" + x);
    assert Print(Text(text, true)) + x == "<![CDATA[" + (text + "]]>" + x);
  }

  lemma CommentNodeRoundTrip(comment: string, x: string)
    requires NormalComment(comment)
    ensures ParsesTo(Print(Comment(comment)) + x, Comment(comment), x)
  {
    hide ParseComment, Identify;
    CommentRoundTrip(comment, x);
    IdentifyComment(comment + "-->" + x);
    assert Print(Comment(comment)) + x == "<!--" + (comment + "-->" + x);
  }

  lemma ElementNodeRoundTrip(t: Xml, x: string)
    requires t.Element? && Normal(t) && ParseElement(Print(t) + x) == Done(t, x)
    ensures ParsesTo(Print(t) + x, t, x)
  {
    hide ParseElement, Identify, PrintAttributes, PrintBody;
    var y := PrintAttributes(t.attributes) + PrintBody(t.name, t.kids) + x;
    assert Print(t) + x == "<" + t.name + y;
    hide Print;
    IdentifyElement(t.name, y);
  }

  /** The children printed before the end tag are read back up to that end tag. */
  lemma {:induction false} KidsRoundTrip(done: seq<Xml>, kids: seq<Xml>, name: string, x: string)
    requires NormalKids(kids)
    ensures ReadKids(done, PrintKids(kids) + EndTag(name) + x) == Done(done + kids, EndTag(name) + x)
    decreases kids, 1
  {
    hide *;
    if kids == [] {
      PrintKidsSplits(kids, name, x);
      assert done + kids == done;
      EndTagStops(done, name, x);
    } else {
      var tail := PrintKids(kids[1..]) + EndTag(name) + x;
      PrintKidsSplits(kids, name, x);
      if IsPlainText(kids[0]) {
        TextKid(done, kids[0], tail);
      } else {
        if kids[0].Element? {
          ElementRoundTrip(kids[0], tail);
        }
        NodeKid(done, kids[0], tail);
      }
      assert done + [kids[0]] + kids[1..] == done + kids;
      KidsRoundTrip(done + [kids[0]], kids[1..], name, x);
    }
  }

  lemma PrintKidsSplits(kids: seq<Xml>, name: string, x: string)
    requires NormalKids(kids)
    ensures var p := PrintKids(kids) + EndTag(name) + x;
            if kids == [] then p == EndTag(name) + x
            else
              var tail := PrintKids(kids[1..]) + EndTag(name) + x;
              && p == Print(kids[0]) + tail && Normal(kids[0]) && NormalKids(kids[1..])
              && tail != [] && !IsWhiteSpace(tail[0]) && (IsPlainText(kids[0]) ==> "<" <= tail)
  {
    hide *;
    FirstKidPrinted(kids);
    if kids != [] {
      FirstKidNormal(kids);
      KidsStart(kids[1..], name, x);
      FourParts(Print(kids[0]), PrintKids(kids[1..]), EndTag(name), x);
    } else {
      assert PrintKids(kids) + EndTag(name) == EndTag(name);
    }
  }

  lemma FirstKidPrinted(kids: seq<Xml>)
    ensures PrintKids(kids) == if kids == [] then [] else Print(kids[0]) + PrintKids(kids[1..])
  {
  }

  lemma FirstKidNormal(kids: seq<Xml>)
    requires NormalKids(kids) && kids != []
    ensures Normal(kids[0]) && NormalKids(kids[1..])
    ensures IsPlainText(kids[0]) ==> kids[1..] == [] || !IsPlainText(kids[1..][0])
  {
    hide Normal;
  }

  lemma FourParts(a: string, b: string, c: string, d: string)
    ensures a + b + c + d == a + (b + c + d)
  {
  }

  lemma EndTagStops(done: seq<Xml>, name: string, x: string)
    ensures ReadKids(done, EndTag(name) + x) == Done(done, EndTag(name) + x)
  {
    var p := EndTag(name) + x;
    assert p[..2] == "</" && p[0] == '<';
  }

  lemma TextKid(done: seq<Xml>, t: Xml, tail: string)
    requires IsPlainText(t) && Normal(t) && "<" <= tail
    ensures ReadKids(done, Print(t) + tail) == ReadKids(done + [t], tail)
  {
    hide ParseText, PutString;
    TextRoundTrip(t.text, tail);
    TextStartsUnspaced(t.text);
    assert (PutString(t.text) + tail)[0] == PutString(t.text)[0];
    assert tail[0] == '<';
  }

  lemma ParsedKid(done: seq<Xml>, p: string, t: Xml, tail: string)
    requires ParsesTo(p, t, tail) && tail != [] && !IsWhiteSpace(tail[0])
    ensures ReadKids(done, p) == ReadKids(done + [t], tail)
  {
    hide ParseNode;
  }

  lemma NodeKid(done: seq<Xml>, t: Xml, tail: string)
    requires Normal(t) && !IsPlainText(t) && tail != [] && !IsWhiteSpace(tail[0])
    requires t.Element? ==> ParseElement(Print(t) + tail) == Done(t, tail)
    ensures ReadKids(done, Print(t) + tail) == ReadKids(done + [t], tail)
  {
    hide ReadKids, ParseElement, Print, ParsesTo;
    match t {
      case Text(text, _) => CDataNodeRoundTrip(text, tail);
      case Comment(comment) => CommentNodeRoundTrip(comment, tail);
      case Element(_, _, _) => ElementNodeRoundTrip(t, tail);
    }
    ParsedKid(done, Print(t) + tail, t, tail);
  }
}
