/** What the elements of a configuration mean: conditions, variables, lists, deletions. */
module ConfElements {
  import opened AttributeRing
  import opened ConfManager
  import opened Numbers
  import opened Options
  import opened XmlTree

  // ---------- Names and attributes ----------

  predicate SameLetter(a: char, b: char) {
    a == b || ('a' <= a <= 'z' && b as int == a as int - 32) || ('A' <= a <= 'Z' && b as int == a as int + 32)
  }

  /** Names without NUL are the same exactly if they differ in the case of letters at most. */
  lemma {:induction false} NamesIgnoreCase(a: string, b: string)
    requires '\0' !in a && '\0' !in b
    ensures SameName(a, b) <==> |a| == |b| && forall i :: 0 <= i < |a| ==> SameLetter(a[i], b[i])
  {
    if |a| == |b| {
      CharsIgnoreCase(a, b);
    }
  }

  lemma {:induction false} CharsIgnoreCase(a: string, b: string)
    requires '\0' !in a && '\0' !in b && |a| == |b|
    ensures SameChars(a, b) <==> forall i :: 0 <= i < |a| ==> SameLetter(a[i], b[i])
  {
    if a != [] {
      CharsIgnoreCase(a[1..], b[1..]);
      LetterIgnoresCase(a[0], b[0]);
      hide SameLetter, LowerChar;
      assert forall i :: 1 <= i < |a| ==> a[i] == a[1..][i - 1] && b[i] == b[1..][i - 1];
      if forall i :: 0 <= i < |a| ==> SameLetter(a[i], b[i]) {
        forall i | 0 <= i < |a[1..]| ensures SameLetter(a[1..][i], b[1..][i]) {
          assert SameLetter(a[i + 1], b[i + 1]);
        }
      }
    }
  }

  lemma LetterIgnoresCase(a: char, b: char)
    ensures LowerChar(a) == LowerChar(b) <==> SameLetter(a, b)
  {
  }

  /** The first attribute with the name is the one looked up; without one the value is empty. */
  lemma {:induction false} FirstWithNameIsFound(attributes: seq<Attribute>, name: string, k: nat)
    requires k <= |attributes| && (k < |attributes| ==> SameName(attributes[k].name, name))
    requires forall i :: 0 <= i < k ==> !SameName(attributes[i].name, name)
    ensures MyAttribute(attributes, name) == if k < |attributes| then attributes[k].value else ""
  {
    hide SameName;
    if k > 0 {
      FirstWithNameIsFound(attributes[1..], name, k - 1);
    }
  }

  // ---------- Conditions ----------

  /** The value of a variable; one that was never set is empty. */
  function ValueOf(st: State, name: string): string {
    if name in st.data.simple then st.data.simple[name] else ""
  }

  predicate IsElement(t: Xml, name: string) {
    t.Element? && SameName(t.name, name)
  }

  predicate DoOfType(t: Xml, kind: string) {
    IsElement(t, "do") && AttributeOf(t, "type") == kind
  }

  /** `k` is the last "do" of a type, or there is none and `k` is the number of children. */
  predicate IsLastDo(kids: seq<Xml>, kind: string, k: nat) {
    && k <= |kids| && (k < |kids| ==> DoOfType(kids[k], kind))
    && forall i :: 0 <= i < |kids| && (i > k || k == |kids|) ==> !DoOfType(kids[i], kind)
  }

  /** What an expression says: its variables are equal and it asks for that, or they differ and it asks for that. */
  predicate Says(e: Xml, st: State) {
    var a, b := ValueOf(st, AttributeOf(e, "value1")), ValueOf(st, AttributeOf(e, "value2"));
    e.Element? && e.kids != [] && e.kids[0].Text? && ((e.kids[0].text == "equal" && a == b) || (e.kids[0].text == "diff" && a != b))
  }

  lemma ExpressionIs(e: Xml, st: State)
    requires e.Element? && e.kids != []
    ensures Expression(e, st.data) <==> Says(e, st)
  {
    hide AttributeOf;
    assert "equal" != "diff" && "equal" != "" && "diff" != "";
  }

  lemma {:induction false} LastDoIs(kids: seq<Xml>, kind: string, k: nat, n: nat)
    requires IsLastDo(kids, kind, k) && n <= |kids| && (k < |kids| ==> k < n)
    ensures LastDo(kids, kind, n) == k
  {
    hide AttributeOf, SameName;
    if n > 0 && n - 1 != k {
      assert !DoOfType(kids[n - 1], kind);
      LastDoIs(kids, kind, k, n - 1);
    }
  }

  /** The first `n` children of a header are expressions with a child and operators in turn, and it ends there or
      with a child out of turn. */
  predicate TurnsEnd(kids: seq<Xml>, n: nat) {
    && n <= |kids|
    && (forall i :: 0 <= i < n && i % 2 == 0 ==> InTurnAt(kids, i) && kids[i].Element? && kids[i].kids != [])
    && (forall i :: 0 <= i < n && i % 2 == 1 ==> InTurnAt(kids, i))
    && (n < |kids| ==> !InTurnAt(kids, n))
  }

  predicate InTurnAt(kids: seq<Xml>, i: nat)
    requires i < |kids|
  {
    SameName(Value(kids[i]), if i % 2 == 0 then "expression" else "operator")
  }

  /** The first `m` expressions taken together from left to right; an operator that is neither "or" nor "and" drops
      the expression after it. */
  function Folded(kids: seq<Xml>, m: nat, st: State): bool
    requires m > 0 && 2 * m <= |kids| + 1
  {
    var last := Says(kids[2 * m - 2], st);
    if m == 1 then last
    else
      var before, op := Folded(kids, m - 1, st), AttributeOf(kids[2 * m - 3], "value");
      if op == "or" then before || last else if op == "and" then before && last else before
  }

  lemma ValueTurn(kids: seq<Xml>, i: nat, op: Operator, res: bool, d: Data)
    requires i < |kids| && InTurnAt(kids, i) && (i % 2 == 0 ==> HasKids(kids[i]))
    ensures HeaderValue(kids, i, op, res, d)
         == if i % 2 == 1 then HeaderValue(kids, i + 1, OperatorOf(kids[i]), res, d)
            else HeaderValue(kids, i + 1, Undefined, Combined(op, i == 0, res, Expression(kids[i], d)), d)
  {
    hide OperatorOf, Combined, Expression, SameName;
  }

  lemma ValueEnds(kids: seq<Xml>, i: nat, op: Operator, res: bool, d: Data)
    requires i <= |kids| && (i < |kids| ==> !InTurnAt(kids, i))
    ensures HeaderValue(kids, i, op, res, d) == Some(res)
  {
    hide OperatorOf, Combined, Expression, SameName;
  }

  lemma OneMoreFolded(kids: seq<Xml>, m: nat, st: State)
    requires m > 0 && 2 * m < |kids|
    ensures Combined(OperatorOf(kids[2 * m - 1]), false, Folded(kids, m, st), Says(kids[2 * m], st))
         == Folded(kids, m + 1, st)
  {
    hide Says, AttributeOf;
    assert |"or"| != |"and"|;
  }

  /** From behind the first `m` expressions on. */
  lemma {:induction false} FoldFrom(kids: seq<Xml>, m: nat, n: nat, st: State)
    requires TurnsEnd(kids, n) && m > 0 && 2 * m - 1 <= n
    ensures 2 * m - 1 <= |kids| && (n + 1) / 2 > 0 && 2 * ((n + 1) / 2) <= |kids| + 1
    ensures HeaderValue(kids, 2 * m - 1, Undefined, Folded(kids, m, st), st.data) == Some(Folded(kids, (n + 1) / 2, st))
    decreases n - m
  {
    hide Folded, Says, Expression, Combined, OperatorOf, HeaderValue, SameName;
    var i, res := 2 * m - 1, Folded(kids, m, st);
    if i == n {
      ValueEnds(kids, i, Undefined, res, st.data);
    } else {
      ValueTurn(kids, i, Undefined, res, st.data);
      var op := OperatorOf(kids[i]);
      if i + 1 == n {
        ValueEnds(kids, i + 1, op, res, st.data);
      } else {
        ValueTurn(kids, i + 1, op, res, st.data);
        ExpressionIs(kids[i + 1], st);
        OneMoreFolded(kids, m, st);
        NotFirst(i + 1);
        FoldFrom(kids, m + 1, n, st);
      }
    }
  }

  lemma NotFirst(i: nat)
    ensures i > 0 ==> (i == 0) == false
  {
  }

  /** A header is taken together from left to right, up to the first child out of turn, whatever held before. */
  lemma HeaderIsLeftFold(kids: seq<Xml>, n: nat, res: bool, st: State)
    requires TurnsEnd(kids, n) && n > 0
    ensures 2 * ((n + 1) / 2) <= |kids| + 1
    ensures HeaderValue(kids, 0, Undefined, res, st.data) == Some(Folded(kids, (n + 1) / 2, st))
  {
    hide *;
    FirstTurn(kids, n);
    ValueTurn(kids, 0, Undefined, res, st.data);
    ExpressionIs(kids[0], st);
    FirstFolded(kids, res, st);
    FoldFrom(kids, 1, n, st);
  }

  lemma FirstTurn(kids: seq<Xml>, n: nat)
    requires TurnsEnd(kids, n) && n > 0
    ensures n <= |kids| && InTurnAt(kids, 0) && HasKids(kids[0]) && kids[0].Element? && kids[0].kids != []
  {
    hide InTurnAt;
  }

  lemma FirstFolded(kids: seq<Xml>, res: bool, st: State)
    requires kids != []
    ensures Folded(kids, 1, st) == Says(kids[0], st)
    ensures forall value :: Combined(Undefined, true, res, value) == value
  {
    hide Says;
  }

  lemma {:induction false} OneHeader(kids: seq<Xml>, h: nat, n: nat, d: Data)
    requires h < |kids| && n <= |kids| && IsHeader(kids[h])
    requires forall i :: 0 <= i < |kids| && i != h ==> !IsHeader(kids[i])
    ensures EvalValue(kids, n, d)
         == if n <= h then Some(false) else HeaderValue(kids[h].kids, 0, Undefined, false, d)
  {
    hide IsHeader, HeaderValue;
    if n > 0 {
      OneHeader(kids, h, n - 1, d);
    }
  }

  /** An eval element with one header that starts with an expression runs the last branch for true exactly if the
      header, taken from left to right, holds, and there is a branch for true; else the last branch for false, if
      there is one. An expression holds if it asks for equality and its variables have the same value, or for
      difference and they have different ones. */
  lemma EvalRuns(t: Xml, files: Files, st: State, h: nat, n: nat, i: nat, j: nat)
    requires ContainerOf(t).Eval? && h < |t.kids| && IsElement(t.kids[h], "header")
    requires forall k :: 0 <= k < |t.kids| && k != h ==> !IsElement(t.kids[k], "header")
    requires TurnsEnd(t.kids[h].kids, n) && n > 0 && n <= |t.kids[h].kids|
    requires IsLastDo(t.kids, "true", i) && IsLastDo(t.kids, "false", j)
    ensures DumpedKid(t, files, st)
         == if Folded(t.kids[h].kids, (n + 1) / 2, st) && i < |t.kids| then Dumped(t.kids[i].kids, files, st)
            else if j < |t.kids| then Dumped(t.kids[j].kids, files, st)
            else Run(true, st)
  {
    hide *;
    EvalIsElement(t);
    HeaderNames(t.kids, h);
    OneHeader(t.kids, h, |t.kids|, st.data);
    HeaderIsLeftFold(t.kids[h].kids, n, false, st);
    KidIsEval(t, files, st);
    InList(t.kids, "true", i);
    InList(t.kids, "false", j);
    LastDoIs(t.kids, "true", i, |t.kids|);
    LastDoIs(t.kids, "false", j, |t.kids|);
    BranchFor(t.kids, Folded(t.kids[h].kids, (n + 1) / 2, st));
  }

  /** An eval element without a header runs the branch for false. */
  lemma NoHeaderRunsFalse(t: Xml, files: Files, st: State, j: nat)
    requires ContainerOf(t).Eval? && forall k :: 0 <= k < |t.kids| ==> !IsElement(t.kids[k], "header")
    requires IsLastDo(t.kids, "false", j)
    ensures DumpedKid(t, files, st) == if j < |t.kids| then Dumped(t.kids[j].kids, files, st) else Run(true, st)
  {
    hide *;
    EvalIsElement(t);
    NoHeaderNames(t.kids);
    NoHeader(t.kids, |t.kids|, st.data);
    KidIsEval(t, files, st);
    InList(t.kids, "false", j);
    LastDoIs(t.kids, "false", j, |t.kids|);
    BranchFor(t.kids, false);
  }

  lemma NoHeaderNames(kids: seq<Xml>)
    requires forall k :: 0 <= k < |kids| ==> !IsElement(kids[k], "header")
    ensures forall k :: 0 <= k < |kids| ==> !IsHeader(kids[k])
  {
    hide SameName;
  }

  lemma {:induction false} NoHeader(kids: seq<Xml>, n: nat, d: Data)
    requires n <= |kids| && forall k :: 0 <= k < |kids| ==> !IsHeader(kids[k])
    ensures EvalValue(kids, n, d) == Some(false)
  {
    hide IsHeader, HeaderValue;
    if n > 0 {
      NoHeader(kids, n - 1, d);
    }
  }

  lemma EvalIsElement(t: Xml)
    requires ContainerOf(t).Eval?
    ensures t.Element?
  {
  }

  lemma HeaderNames(kids: seq<Xml>, h: nat)
    requires h < |kids| && IsElement(kids[h], "header")
    requires forall k :: 0 <= k < |kids| && k != h ==> !IsElement(kids[k], "header")
    ensures kids[h].Element? && IsHeader(kids[h]) && forall k :: 0 <= k < |kids| && k != h ==> !IsHeader(kids[k])
  {
    forall t: Xml ensures t.Element? ==> (SameName(t.name, "header") <==> SameName("header", t.name)) {
      if t.Element? {
        Symmetric(t.name, "header");
      }
    }
    hide SameName;
  }

  lemma Symmetric(a: string, b: string)
    ensures SameName(a, b) <==> SameName(b, a)
  {
    if |a| == |b| {
      SymmetricChars(a, b);
    }
  }

  lemma {:induction false} SymmetricChars(a: string, b: string)
    requires |a| == |b|
    ensures SameChars(a, b) <==> SameChars(b, a)
  {
    if a != [] {
      SymmetricChars(a[1..], b[1..]);
    }
  }

  lemma InList(kids: seq<Xml>, kind: string, k: nat)
    requires IsLastDo(kids, kind, k)
    ensures k <= |kids| && (k < |kids| ==> kids[k].Element?)
  {
    hide SameName, AttributeOf;
  }

  lemma BranchFor(kids: seq<Xml>, holds: bool)
    ensures var i, j := LastDo(kids, "true", |kids|), LastDo(kids, "false", |kids|);
            Branch(kids, holds) == if holds && i < |kids| then i else j
  {
    hide LastDo;
  }

  // ---------- Variables, lists and deletions ----------

  function Named(kind: string, name: string, kids: seq<Xml>): Xml {
    Element(kind, [Attribute("name", name)], kids)
  }

  lemma NameIs(kind: string, name: string, kids: seq<Xml>)
    ensures AttributeOf(Named(kind, name, kids), "name") == name
  {
    assert Visited([Attribute("name", name)]) == [Attribute("name", name)];
  }

  lemma OtherLengths(a: string, b: string)
    requires |a| != |b|
    ensures !SameName(a, b)
  {
  }

  lemma OtherStarts(a: string, b: string)
    requires |a| == |b| > 0 && a[0] != '\0' && b[0] != '\0' && !SameLetter(a[0], b[0])
    ensures !SameName(a, b)
  {
    LetterIgnoresCase(a[0], b[0]);
    hide LowerChar, SameLetter;
  }

  /** The six containers, by name. */
  lemma ContainersAre(attributes: seq<Attribute>, kids: seq<Xml>)
    ensures ContainerOf(Element("requiere", attributes, kids)).Requiere?
    ensures ContainerOf(Element("include", attributes, kids)).Include?
    ensures ContainerOf(Element("var", attributes, kids)).Var?
    ensures ContainerOf(Element("del", attributes, kids)).Del?
    ensures ContainerOf(Element("list", attributes, kids)).List?
    ensures ContainerOf(Element("eval", attributes, kids)).Eval?
  {
    hide SameName;
    SameAs("requiere");
    SameAs("include");
    SameAs("var");
    SameAs("del");
    SameAs("list");
    SameAs("eval");
    OtherLengths("requiere", "include");
    OtherLengths("requiere", "var");
    OtherLengths("requiere", "del");
    OtherLengths("requiere", "list");
    OtherLengths("requiere", "eval");
    OtherLengths("include", "var");
    OtherLengths("include", "del");
    OtherLengths("include", "list");
    OtherLengths("include", "eval");
    OtherLengths("var", "list");
    OtherLengths("var", "eval");
    OtherLengths("del", "list");
    OtherLengths("del", "eval");
    OtherStarts("var", "del");
    OtherStarts("list", "eval");
  }

  lemma SameAs(a: string)
    requires '\0' !in a
    ensures SameName(a, a)
  {
    NamesIgnoreCase(a, a);
  }

  /** An include element loads its file unless the file is listed. */
  lemma IncludeLoads(file: string, cdata: bool, files: Files, st: State)
    ensures var r := DumpedKid(Element("include", [], [Text(file, cdata)]), files, st);
            && (file in st.included ==> r == Run(true, st))
            && (file !in st.included ==> r == Loaded(file, files, st))
  {
    var t := Element("include", [], [Text(file, cdata)]);
    ContainersAre([], t.kids);
    KidIsInclude(t, files, st);
    hide DumpedKid, Loaded, ContainerOf;
  }

  /** A required or included file that is no text is undefined, but an include element may be empty; a required file
      has no effect. */
  lemma FilesMustBeTexts(t: Xml, files: Files, st: State)
    requires ContainerOf(t).Requiere? || (ContainerOf(t).Include? && (t.kids == [] || !t.kids[0].Text?))
    ensures t.Element?
    ensures ContainerOf(t).Requiere? ==> DumpedKid(t, files, st) == Run(t.kids != [] && t.kids[0].Text?, st)
    ensures ContainerOf(t).Include? ==> DumpedKid(t, files, st) == Run(t.kids == [], st)
  {
    hide SameName, Loaded;
  }

  /** A file is walked from its first node to its last: of two variables of one name the later one stays. */
  lemma LaterVarStays(name: string, a: string, b: string, files: Files, st: State)
    requires a != "" && b != ""
    ensures var kids := [Named("var", name, [Text(a, false)]), Named("var", name, [Text(b, false)])];
            Dumped(kids, files, st) == Run(true, st.(data := st.data.(simple := st.data.simple[name := b])))
  {
    hide *;
    var kids := [Named("var", name, [Text(a, false)]), Named("var", name, [Text(b, false)])];
    VarSets(name, a, false, files, st);
    var mid := st.(data := st.data.(simple := st.data.simple[name := a]));
    VarSets(name, b, false, files, mid);
    assert kids[1..] == [kids[1]] && kids[1..][1..] == [];
    DumpedIs(kids, files, st);
    DumpedIs(kids[1..], files, mid);
    assert st.data.simple[name := a][name := b] == st.data.simple[name := b];
    DumpedIs([], files, mid.(data := mid.data.(simple := mid.data.simple[name := b])));
  }

  lemma KindsAre()
    ensures forall name, kids :: ContainerOf(Named("var", name, kids)).Var?
    ensures forall name, kids :: ContainerOf(Named("list", name, kids)).List?
    ensures forall name, kids :: ContainerOf(Named("del", name, kids)).Del?
  {
    hide ContainerOf;
    forall name: string, kids: seq<Xml>
      ensures ContainerOf(Named("var", name, kids)).Var? && ContainerOf(Named("list", name, kids)).List?
      ensures ContainerOf(Named("del", name, kids)).Del?
    {
      ContainersAre([Attribute("name", name)], kids);
    }
  }

  /** A variable with a text that is not empty gets that text; nothing else changes. */
  lemma VarSets(name: string, text: string, cdata: bool, files: Files, st: State)
    requires text != ""
    ensures DumpedKid(Named("var", name, [Text(text, cdata)]), files, st)
         == Run(true, st.(data := st.data.(simple := st.data.simple[name := text])))
  {
    var t := Named("var", name, [Text(text, cdata)]);
    KindsAre();
    NameIs("var", name, t.kids);
    VarIs(t, files, st);
    VarIsVar();
    hide ContainerOf, AttributeOf, SameName;
    assert ValuesOf(t.kids[0], Values(st.data, "", [])) == Values(st.data, text, []);
  }

  lemma VarIsVar()
    ensures SameName("var", "var") && SameName("add", "add") && SameName("list", "list")
  {
    NamesIgnoreCase("var", "var");
    NamesIgnoreCase("add", "add");
    NamesIgnoreCase("list", "list");
  }

  /** An element of a list. */
  function Add(text: string): Xml {
    Element("add", [], [Text(text, false)])
  }

  function Adds(texts: seq<string>): (r: seq<Xml>)
    ensures |r| == |texts| && forall i :: 0 <= i < |r| ==> r[i] == Add(texts[i])
  {
    if texts == [] then [] else [Add(texts[0])] + Adds(texts[1..])
  }

  lemma AddTurn(texts: seq<string>, name: string, v: Values)
    requires texts != [] && texts[0] != ""
    ensures var w := Pushed(name, Values(v.data, texts[0], v.many));
            && Added(Adds(texts), name, v) == Added(Adds(texts[1..]), name, w)
            && w.data.simple == v.data.simple && ListOf(w.data, name) == ListOf(v.data, name) + [texts[0]]
            && forall n :: n != name ==> ListOf(w.data, n) == ListOf(v.data, n)
  {
    VarIsVar();
    hide SameName;
    var kids := Adds(texts);
    assert kids[0] == Add(texts[0]) && kids[1..] == Adds(texts[1..]);
    hide Adds;
    assert IsAdd(kids[0]) && ValuesOf(kids[0].kids[0], v) == Values(v.data, texts[0], v.many);
  }

  lemma {:induction false} AddsGoBehind(texts: seq<string>, name: string, v: Values)
    requires forall i :: 0 <= i < |texts| ==> texts[i] != ""
    ensures var r := Added(Adds(texts), name, v).data;
            && r.simple == v.data.simple && ListOf(r, name) == ListOf(v.data, name) + texts
            && forall n :: n != name ==> ListOf(r, n) == ListOf(v.data, n)
    decreases |texts|
  {
    hide ListOf, Pushed, Added, Adds;
    if texts == [] {
      NoAdds(name, v);
      assert ListOf(v.data, name) + [] == ListOf(v.data, name);
    } else {
      AddTurn(texts, name, v);
      AddsGoBehind(texts[1..], name, Pushed(name, Values(v.data, texts[0], v.many)));
      assert ListOf(v.data, name) + [texts[0]] + texts[1..] == ListOf(v.data, name) + texts;
    }
  }

  lemma NoAdds(name: string, v: Values)
    ensures Added(Adds([]), name, v) == v
  {
  }

  /** A list element with texts to add puts them behind the list, in their order; nothing else changes. */
  lemma ListAppends(name: string, texts: seq<string>, files: Files, st: State)
    requires name != "" && forall i :: 0 <= i < |texts| ==> texts[i] != ""
    ensures var r := DumpedKid(Named("list", name, Adds(texts)), files, st);
            && r.ok && r.state.included == st.included && r.state.data.simple == st.data.simple
            && ListOf(r.state.data, name) == ListOf(st.data, name) + texts
            && forall n :: n != name ==> ListOf(r.state.data, n) == ListOf(st.data, n)
  {
    var t := Named("list", name, Adds(texts));
    KindsAre();
    NameIs("list", name, t.kids);
    ListIs(t, files, st);
    AddsGoBehind(texts, name, Values(st.data, "", []));
    hide ContainerOf, AttributeOf, Added, ListOf;
  }

  /** A list element that adds another list puts it in front. */
  lemma ListPrepends(name: string, other: string, files: Files, st: State)
    requires name != "" && Simple(st.data, other) == ""
    ensures var t := Named("list", name, [Element("add", [], [Named("list", other, [])])]);
            var r := DumpedKid(t, files, st);
            && r.ok && r.state.included == st.included && r.state.data.simple == st.data.simple
            && ListOf(r.state.data, name) == ListOf(st.data, other) + ListOf(st.data, name)
            && forall n :: n != name ==> ListOf(r.state.data, n) == ListOf(st.data, n)
  {
    var inner := Named("list", other, []);
    var add := Element("add", [], [inner]);
    var t := Named("list", name, [add]);
    KindsAre();
    NameIs("list", name, t.kids);
    NameIs("list", other, []);
    ListIs(t, files, st);
    VarIsVar();
    hide ContainerOf, AttributeOf, SameName;
    var v := Values(st.data, "", []);
    assert ValuesOf(inner, v) == Values(st.data, "", ListOf(st.data, other));
    assert t.kids[1..] == [] && IsAdd(add);
    assert Added(t.kids, name, v) == Pushed(name, ValuesOf(inner, v));
  }

  /** Deleting by name removes the variable and the list of that name, and nothing else. */
  lemma DelRemoves(name: string, files: Files, st: State)
    ensures var r := DumpedKid(Named("del", name, []), files, st);
            && r.ok && r.state.included == st.included
            && r.state.data == Data(st.data.simple - {name}, st.data.lists - {name})
  {
    var t := Named("del", name, []);
    KindsAre();
    NameIs("del", name, []);
    NoElem(name);
    hide ContainerOf, AttributeOf;
  }

  lemma NoElem(name: string)
    ensures AttributeOf(Named("del", name, []), "elem") == ""
  {
    var a := [Attribute("name", name)];
    assert Visited(a) == a;
    assert !SameChars("name", "elem") by {
      assert "name"[0] == 'n' && "elem"[0] == 'e';
    }
    FirstWithNameIsFound(a, "elem", 1);
  }

  /** Deleting the item at a position counted from 1 takes away that item; 0 counts as 1, and a position behind the
      end is undefined. */
  lemma DelTakesItem(name: string, n: nat, files: Files, st: State)
    ensures var t := Element("del", [Attribute("name", name), Attribute("elem", ToDecimal(n))], []);
            var list, k := ListOf(st.data, name), if n > 1 then n else 1;
            DumpedKid(t, files, st)
            == if k > |list| then Run(false, st)
               else Run(true, st.(data := st.data.(lists := st.data.lists[name := list[..k - 1] + list[k..]])))
  {
    var t := Element("del", [Attribute("name", name), Attribute("elem", ToDecimal(n))], []);
    TwoAttributes(name, ToDecimal(n));
    DelIsDel(t);
    AtoiOfDecimal(n, "");
    assert ToDecimal(n) + "" == ToDecimal(n);
    hide ContainerOf, AttributeOf, Atoi, ToDecimal;
  }

  lemma DelIsDel(t: Xml)
    requires t.Element? && t.name == "del"
    ensures ContainerOf(t).Del?
  {
    ContainersAre(t.attributes, t.kids);
  }

  lemma TwoAttributes(name: string, elem: string)
    requires elem != ""
    ensures var t := Element("del", [Attribute("name", name), Attribute("elem", elem)], []);
            AttributeOf(t, "name") == name && AttributeOf(t, "elem") == elem
  {
    var a := [Attribute("name", name), Attribute("elem", elem)];
    assert a[1..] == [Attribute("elem", elem)] && NextRun(a[1..]) == [Attribute("elem", elem)];
    assert Visited(a) == a;
    assert !SameChars("name", "elem") by {
      assert "name"[0] == 'n' && "elem"[0] == 'e';
    }
    NamesIgnoreCase("elem", "elem");
    NamesIgnoreCase("name", "name");
    FirstWithNameIsFound(a, "elem", 1);
    FirstWithNameIsFound(a, "name", 0);
  }
}
