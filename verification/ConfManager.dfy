/** Loading a configuration with variables, conditions and includes: which files are read, what they leave in memory,
    and that reading ends. */
module ConfManager {
  import opened AttributeRing
  import opened Numbers
  import opened Options
  import opened XmlTree

  // ---------- Documents ----------

  function LowerChar(c: char): char {
    if 'A' <= c <= 'Z' then (c as int + 32) as char else c
  }

  /** `InsensitiveCmp`, which compares up to the first NUL of either string. */
  predicate SameName(a: string, b: string) {
    |a| == |b| && SameChars(a, b)
  }

  predicate SameChars(a: string, b: string)
    requires |a| == |b|
  {
    a == [] || a[0] == '\0' || b[0] == '\0' || (LowerChar(a[0]) == LowerChar(b[0]) && SameChars(a[1..], b[1..]))
  }

  /** `MyAttribute`, on the attributes that `First` and `Next` visit. */
  function MyAttribute(attributes: seq<Attribute>, name: string): string {
    if attributes == [] then ""
    else if SameName(attributes[0].name, name) then attributes[0].value
    else MyAttribute(attributes[1..], name)
  }

  function AttributeOf(t: Xml, name: string): string {
    if t.Element? then MyAttribute(Visited(t.attributes), name) else ""
  }

  /** `ValueStr`: every kind of node has a value. */
  function Value(t: Xml): string {
    match t
    case Element(name, _, _) => name
    case Text(text, _) => text
    case Comment(comment) => comment
  }

  predicate HasKids(t: Xml) {
    t.Element? && t.kids != []
  }

  datatype Container = Requiere | Include | Var | Del | List | Eval | Other

  /** The search in the table of containers, in its order. */
  function ContainerOf(t: Xml): Container {
    if !t.Element? then Other
    else if SameName("requiere", t.name) then Requiere
    else if SameName("include", t.name) then Include
    else if SameName("var", t.name) then Var
    else if SameName("del", t.name) then Del
    else if SameName("list", t.name) then List
    else if SameName("eval", t.name) then Eval
    else Other
  }

  // ---------- Data ----------

  datatype Data = Data(simple: map<string, string>, lists: map<string, seq<string>>)

  /** Looking a name up in the maps adds it, empty, if it is missing, so a missing name is an empty one. */
  function Simple(d: Data, name: string): string {
    if name in d.simple then d.simple[name] else ""
  }

  function ListOf(d: Data, name: string): seq<string> {
    if name in d.lists then d.lists[name] else []
  }

  /** The data, with the two references that `GetValues` fills. */
  datatype Values = Values(data: Data, single: string, many: seq<string>)

  /** `GetValues` on a node: the value found further inside is stored on the way out. */
  function ValuesOf(t: Xml, v: Values): Values {
    if t.Text? then v.(single := t.text)
    else
      var name := AttributeOf(t, "name");
      var d := if HasKids(t) then Stored(Value(t), name, ValuesOf(t.kids[0], Values(v.data, "", []))) else v.data;
      Values(d, Simple(d, name), ListOf(d, name))
  }

  function Stored(kind: string, name: string, v: Values): Data {
    if SameName(kind, "var") && v.single != "" then v.data.(simple := v.data.simple[name := v.single])
    else if SameName(kind, "list") && v.many != [] then
      v.data.(lists := v.data.lists[name := v.many + ListOf(v.data, name)])
    else v.data
  }

  predicate IsAdd(t: Xml) {
    SameName(Value(t), "add") && HasKids(t)
  }

  /** The loop of `ManageList`; the two values stay from one turn to the next. */
  function Added(kids: seq<Xml>, name: string, v: Values): Values {
    if kids == [] then v
    else if IsAdd(kids[0]) then Added(kids[1..], name, Pushed(name, ValuesOf(kids[0].kids[0], v)))
    else Added(kids[1..], name, v)
  }

  function Pushed(name: string, v: Values): Values {
    var list := ListOf(v.data, name);
    v.(data := v.data.(lists := v.data.lists[name := if v.single != "" then list + [v.single] else v.many + list]))
  }

  function ListData(t: Xml, d: Data): Data {
    var name := AttributeOf(t, "name");
    if t.Element? && name != "" then Added(t.kids, name, Values(d, "", [])).data else d
  }

  /** `ManageDel`; erasing past the end of a list is not defined. */
  function Deleted(t: Xml, d: Data): Option<Data> {
    var name, elem := AttributeOf(t, "name"), AttributeOf(t, "elem");
    if elem == "" then Some(Data(d.simple - {name}, d.lists - {name}))
    else
      var list, k := ListOf(d, name), if Atoi(elem) > 1 then Atoi(elem) - 1 else 0;
      if k < |list| then Some(d.(lists := d.lists[name := list[..k] + list[k + 1..]])) else None
  }

  // ---------- Conditions ----------

  datatype Operator = Undefined | Or | And

  function OperatorOf(t: Xml): Operator {
    var value := AttributeOf(t, "value");
    if value == "or" then Or else if value == "and" then And else Undefined
  }

  /** `Eval_Expression`, on a node with a child. */
  predicate Expression(t: Xml, d: Data)
    requires HasKids(t)
  {
    var comparator := if t.kids[0].Text? then t.kids[0].text else "";
    var a, b := Simple(d, AttributeOf(t, "value1")), Simple(d, AttributeOf(t, "value2"));
    (comparator == "equal" && a == b) || (comparator == "diff" && a != b)
  }

  predicate Combined(op: Operator, first: bool, res: bool, value: bool) {
    match op
    case Undefined => if first then value else res
    case Or => res || value
    case And => res && value
  }

  function Expected(i: nat): string {
    if i % 2 == 0 then "expression" else "operator"
  }

  /** The loop over a header's children from `i` on: expressions and operators in turn, up to one out of turn. An
      expression without a child makes the code follow a null pointer. */
  function HeaderValue(kids: seq<Xml>, i: nat, op: Operator, res: bool, d: Data): Option<bool>
    requires i <= |kids|
    decreases |kids| - i
  {
    if i == |kids| || !SameName(Value(kids[i]), Expected(i)) then Some(res)
    else if i % 2 == 1 then HeaderValue(kids, i + 1, OperatorOf(kids[i]), res, d)
    else if !HasKids(kids[i]) then None
    else HeaderValue(kids, i + 1, Undefined, Combined(op, i == 0, res, Expression(kids[i], d)), d)
  }

  predicate IsHeader(t: Xml) {
    SameName(Value(t), "header") && t.Element?
  }

  /** What the headers among the first `n` children of an eval element come to; a header without an expression
      keeps what those before it came to. */
  function EvalValue(kids: seq<Xml>, n: nat, d: Data): Option<bool>
    requires n <= |kids|
  {
    if n == 0 then Some(false)
    else
      match EvalValue(kids, n - 1, d)
      case None => None
      case Some(res) =>
        if IsHeader(kids[n - 1]) then HeaderValue(kids[n - 1].kids, 0, Undefined, res, d) else Some(res)
  }

  predicate IsDo(t: Xml, kind: string) {
    t.Element? && SameName(t.name, "do") && AttributeOf(t, "type") == kind
  }

  /** The last `do` element of the kind among the first `n`, or the number of children. */
  function LastDo(kids: seq<Xml>, kind: string, n: nat): (k: nat)
    requires n <= |kids|
    ensures k <= |kids| && (k < |kids| ==> IsDo(kids[k], kind))
  {
    if n == 0 then |kids| else if IsDo(kids[n - 1], kind) then n - 1 else LastDo(kids, kind, n - 1)
  }

  /** The branch an eval element runs; without one for true, even a true one runs the one for false. */
  function Branch(kids: seq<Xml>, holds: bool): (k: nat)
    ensures k < |kids| ==> kids[k].Element? && SameName(kids[k].name, "do")
  {
    var t := LastDo(kids, "true", |kids|);
    if holds && t < |kids| then t else LastDo(kids, "false", |kids|)
  }

  /** No expression that the loop comes to lacks a child. */
  predicate HeaderSound(kids: seq<Xml>) {
    forall i :: 0 <= i < |kids| && i % 2 == 0 && InTurn(kids, i + 1) ==> HasKids(kids[i])
  }

  predicate InTurn(kids: seq<Xml>, n: nat)
    requires n <= |kids|
  {
    forall j :: 0 <= j < n ==> SameName(Value(kids[j]), Expected(j))
  }

  predicate HeadersSound(kids: seq<Xml>) {
    forall i :: 0 <= i < |kids| && IsHeader(kids[i]) ==> HeaderSound(kids[i].kids)
  }

  lemma {:induction false} HeaderIsDefinedExactly(kids: seq<Xml>, i: nat, op: Operator, res: bool, d: Data)
    requires i <= |kids| && InTurn(kids, i)
    requires forall j :: 0 <= j < i && j % 2 == 0 ==> HasKids(kids[j])
    ensures HeaderValue(kids, i, op, res, d).Some? <==> HeaderSound(kids)
    decreases |kids| - i
  {
    hide Expression, Combined, OperatorOf, SameName, Expected;
    if i < |kids| {
      if !SameName(Value(kids[i]), Expected(i)) {
        assert forall j :: i < j <= |kids| ==> !InTurn(kids, j);
      } else {
        assert InTurn(kids, i + 1);
        if i % 2 == 1 {
          HeaderIsDefinedExactly(kids, i + 1, OperatorOf(kids[i]), res, d);
        } else if HasKids(kids[i]) {
          HeaderIsDefinedExactly(kids, i + 1, Undefined, Combined(op, i == 0, res, Expression(kids[i], d)), d);
        }
      }
    }
  }

  lemma {:induction false} EvalIsDefinedExactly(kids: seq<Xml>, n: nat, d: Data)
    requires n <= |kids|
    ensures EvalValue(kids, n, d).Some? <==> HeadersSound(kids[..n])
  {
    hide HeaderValue, HeaderSound, IsHeader;
    if n > 0 {
      EvalIsDefinedExactly(kids, n - 1, d);
      var front, all := kids[..n - 1], kids[..n];
      assert forall i :: 0 <= i < n - 1 ==> front[i] == all[i];
      assert all[n - 1] == kids[n - 1];
      if EvalValue(kids, n - 1, d).Some? && IsHeader(kids[n - 1]) {
        HeaderIs(kids[n - 1], EvalValue(kids, n - 1, d).value, d);
      }
    }
  }

  lemma HeaderIs(t: Xml, res: bool, d: Data)
    requires IsHeader(t)
    ensures t.Element? && (HeaderValue(t.kids, 0, Undefined, res, d).Some? <==> HeaderSound(t.kids))
  {
    HeaderIsDefinedExactly(t.kids, 0, Undefined, res, d);
  }

  /** Expressions joined by the operator `op` alone. */
  predicate Joined(kids: seq<Xml>, op: Operator) {
    && InTurn(kids, |kids|) && |kids| % 2 == 1
    && forall i :: 0 <= i < |kids| ==> if i % 2 == 0 then HasKids(kids[i]) else OperatorOf(kids[i]) == op
  }

  predicate AllHold(kids: seq<Xml>, from: nat, d: Data) {
    forall i :: from <= i < |kids| && i % 2 == 0 && HasKids(kids[i]) ==> Expression(kids[i], d)
  }

  predicate OneHolds(kids: seq<Xml>, from: nat, d: Data) {
    exists i :: from <= i < |kids| && i % 2 == 0 && HasKids(kids[i]) && Expression(kids[i], d)
  }

  lemma {:induction false} JoinedFrom(kids: seq<Xml>, i: nat, op: Operator, res: bool, d: Data)
    requires Joined(kids, op) && op != Undefined && i <= |kids| && i % 2 == 1
    ensures HeaderValue(kids, i, Undefined, res, d)
         == Some(if op.And? then res && AllHold(kids, i, d) else res || OneHolds(kids, i, d))
    decreases |kids| - i
  {
    hide Expression, SameName, Expected, OperatorOf;
    if i < |kids| {
      var value := Expression(kids[i + 1], d);
      assert HeaderValue(kids, i, Undefined, res, d) == HeaderValue(kids, i + 1, op, res, d);
      JoinedFrom(kids, i + 2, op, Combined(op, false, res, value), d);
      assert i % 2 == 1 && (i + 1) % 2 == 0;
    }
  }

  /** A header of expressions joined by "and" holds exactly if all of them hold; joined by "or", if one does. */
  lemma HeaderOfOneOperator(kids: seq<Xml>, op: Operator, res: bool, d: Data)
    requires Joined(kids, op) && op != Undefined
    ensures HeaderValue(kids, 0, Undefined, res, d)
         == Some(if op.And? then AllHold(kids, 0, d) else OneHolds(kids, 0, d))
  {
    hide Expression, SameName, Expected, OperatorOf;
    JoinedFrom(kids, 1, op, Expression(kids[0], d), d);
  }

  // ---------- Loading ----------

  type Files = map<string, seq<Xml>>

  datatype State = State(included: seq<string>, data: Data)

  /** Where a run stands, or stopped because the code does something undefined. */
  datatype Run = Run(ok: bool, state: State)

  function Missing(files: Files, included: seq<string>): set<string> {
    set f | f in files && f !in included
  }

  lemma MissingShrinks(files: Files, b: seq<string>, c: seq<string>)
    requires b <= c
    ensures |Missing(files, c)| <= |Missing(files, b)|
    ensures forall f :: f in c && f !in b && f in files ==> |Missing(files, c)| < |Missing(files, b)|
  {
    assert forall f :: f in b ==> f in c;
    Smaller(Missing(files, c), Missing(files, b));
    forall f | f in c && f !in b && f in files ensures |Missing(files, c)| < |Missing(files, b)| {
      assert f in Missing(files, b) - Missing(files, c);
      Smaller(Missing(files, c), Missing(files, b) - {f});
    }
  }

  lemma Smaller(a: set<string>, b: set<string>)
    requires a <= b
    ensures |a| <= |b|
    decreases |a|
  {
    if a != {} {
      var x :| x in a;
      Smaller(a - {x}, b - {x});
    }
  }

  /** `Load`. A file that is missing or cannot be parsed is listed and otherwise without effect. */
  function Loaded(name: string, files: Files, st: State): (r: Run)
    ensures st.included + [name] <= r.state.included
    decreases |Missing(files, st.included + [name])|, if name in files then 2 else 0
  {
    var listed := st.(included := st.included + [name]);
    if name in files then Dumped(files[name], files, listed) else Run(true, listed)
  }

  /** `DumpToMemory` on the children of a container. */
  function Dumped(kids: seq<Xml>, files: Files, st: State): (r: Run)
    ensures st.included <= r.state.included
    decreases |Missing(files, st.included)|, 1, kids
  {
    if kids == [] then Run(true, st)
    else
      var r := DumpedKid(kids[0], files, st);
      if !r.ok then r
      else
        MissingShrinks(files, st.included, r.state.included);
        Dumped(kids[1..], files, r.state)
  }

  function DumpedKid(t: Xml, files: Files, st: State): (r: Run)
    ensures st.included <= r.state.included
    decreases |Missing(files, st.included)|, 1, t
  {
    match ContainerOf(t)
    case Requiere => Run(t.kids != [] && t.kids[0].Text?, st)
    case Include =>
      if t.kids == [] || !t.kids[0].Text? then Run(t.kids == [], st)
      else if t.kids[0].text in st.included then Run(true, st)
      else
        MissingShrinks(files, st.included, st.included + [t.kids[0].text]);
        Loaded(t.kids[0].text, files, st)
    case Var => Run(true, st.(data := ValuesOf(t, Values(st.data, "", [])).data))
    case Del => (match Deleted(t, st.data) case Some(d) => Run(true, st.(data := d)) case None => Run(false, st))
    case List => Run(true, st.(data := ListData(t, st.data)))
    case Eval =>
      (match EvalValue(t.kids, |t.kids|, st.data)
       case None => Run(false, st)
       case Some(holds) =>
         var k := Branch(t.kids, holds);
         if k < |t.kids| then Dumped(t.kids[k].kids, files, st) else Run(true, st))
    case Other => Run(true, st)
  }

  // ---------- Which files are listed ----------

  predicate IncludesText(t: Xml) {
    ContainerOf(t).Include? && t.kids != [] && t.kids[0].Text?
  }

  /** Every file that a list of nodes may include, at its top or in the branches of eval elements. */
  function IncludeTexts(kids: seq<Xml>): set<string> {
    set i, f | 0 <= i < |kids| && f in NodeTexts(kids[i]) :: f
  }

  function NodeTexts(t: Xml): set<string> {
    if IncludesText(t) then {t.kids[0].text}
    else if ContainerOf(t).Eval? then set i, f | 0 <= i < |t.kids| && f in BranchTexts(t.kids[i]) :: f
    else {}
  }

  function BranchTexts(t: Xml): set<string> {
    if t.Element? && SameName(t.name, "do") then IncludeTexts(t.kids) else {}
  }

  /** The file at position `k` was asked for by a file before it. */
  predicate AskedFor(files: Files, included: seq<string>, k: nat)
    requires k < |included|
  {
    exists j :: 0 <= j < k && included[j] in files && included[k] in IncludeTexts(files[included[j]])
  }

  /** From `was` on, only files not yet listed have been listed, and on request. */
  predicate Grown(files: Files, was: seq<string>, now: seq<string>) {
    was <= now && forall k :: |was| <= k < |now| ==> now[k] !in now[..k] && AskedFor(files, now, k)
  }

  /** All the files that the top level of `kids` includes are listed. */
  predicate Listed(kids: seq<Xml>, included: seq<string>) {
    forall i :: 0 <= i < |kids| && IncludesText(kids[i]) ==> kids[i].kids[0].text in included
  }

  /** The files listed from position `from` on have their includes listed too. */
  predicate Complete(files: Files, included: seq<string>, from: nat) {
    forall k :: from <= k < |included| && included[k] in files ==> Listed(files[included[k]], included)
  }

  lemma GrownTwice(files: Files, a: seq<string>, b: seq<string>, c: seq<string>)
    requires Grown(files, a, b) && Grown(files, b, c)
    ensures Grown(files, a, c)
  {
    hide IncludeTexts;
    forall k | |a| <= k < |c| ensures c[k] !in c[..k] && AskedFor(files, c, k) {
      if k < |b| {
        assert AskedFor(files, b, k);
        assert forall j :: 0 <= j <= k ==> b[j] == c[j];
        assert b[..k] == c[..k];
      }
    }
  }

  lemma ListedStays(kids: seq<Xml>, b: seq<string>, c: seq<string>)
    requires Listed(kids, b) && b <= c
    ensures Listed(kids, c)
  {
    hide IncludesText;
    assert forall f :: f in b ==> f in c;
  }

  lemma CompleteTwice(files: Files, a: nat, b: seq<string>, c: seq<string>)
    requires Complete(files, b, a) && Complete(files, c, |b|) && b <= c
    ensures Complete(files, c, a)
  {
    hide Listed;
    forall k | a <= k < |c| && c[k] in files ensures Listed(files[c[k]], c) {
      if k < |b| {
        assert b[k] == c[k];
        ListedStays(files[b[k]], b, c);
      }
    }
  }

  lemma FirstAsked(files: Files, was: seq<string>, file: string, name: string)
    requires name !in was && file in was && file in files && name in IncludeTexts(files[file])
    ensures Grown(files, was, was + [name])
  {
    hide IncludeTexts;
    var j :| 0 <= j < |was| && was[j] == file;
    var now := was + [name];
    assert now[j] == file && now[|was|] == name && now[..|was|] == was;
  }

  lemma NothingGrown(files: Files, was: seq<string>)
    ensures Grown(files, was, was) && Complete(files, was, |was|)
  {
  }

  lemma TextsOfKids(kids: seq<Xml>)
    requires kids != []
    ensures NodeTexts(kids[0]) <= IncludeTexts(kids) && IncludeTexts(kids[1..]) <= IncludeTexts(kids)
  {
    hide NodeTexts;
    assert forall i :: 0 <= i < |kids[1..]| ==> kids[1..][i] == kids[i + 1];
  }

  lemma TextsOfBranch(t: Xml, k: nat)
    requires ContainerOf(t).Eval? && k < |t.kids| && t.kids[k].Element? && SameName(t.kids[k].name, "do")
    ensures IncludeTexts(t.kids[k].kids) <= NodeTexts(t)
  {
    hide SameName, IncludeTexts;
    assert !IncludesText(t);
    forall f | f in IncludeTexts(t.kids[k].kids) ensures f in NodeTexts(t) {
      assert f in BranchTexts(t.kids[k]);
    }
  }

  /** Loading lists the file; then once each, files asked for by files listed before them; and if it goes through,
      all the includes at the top of the files listed. */
  lemma LoadLists(name: string, files: Files, st: State)
    ensures var r := Loaded(name, files, st);
            && Grown(files, st.included + [name], r.state.included)
            && (r.ok ==> Complete(files, r.state.included, |st.included|))
    decreases |Missing(files, st.included + [name])|, if name in files then 2 else 0
  {
    hide *;
    var listed := st.(included := st.included + [name]);
    LoadedIs(name, files, st);
    NothingGrown(files, listed.included);
    if name in files {
      DumpLists(files[name], name, files, listed);
      FileIsComplete(files, st.included, name, Loaded(name, files, st).state.included, Loaded(name, files, st).ok);
    } else {
      UnreadIsComplete(files, st.included, name);
    }
  }

  lemma LoadedIs(name: string, files: Files, st: State)
    ensures var listed := st.(included := st.included + [name]);
            Loaded(name, files, st) == if name in files then Dumped(files[name], files, listed) else Run(true, listed)
  {
    hide Dumped;
  }

  lemma FileIsComplete(files: Files, was: seq<string>, name: string, now: seq<string>, ok: bool)
    requires name in files && was + [name] <= now
    requires ok ==> Complete(files, now, |was| + 1) && Listed(files[name], now)
    ensures ok ==> Complete(files, now, |was|)
  {
    hide Listed;
    assert now[|was|] == (was + [name])[|was|] == name;
  }

  lemma UnreadIsComplete(files: Files, was: seq<string>, name: string)
    requires name !in files
    ensures Complete(files, was + [name], |was|)
  {
  }

  lemma DumpLists(kids: seq<Xml>, file: string, files: Files, st: State)
    requires file in st.included && file in files && IncludeTexts(kids) <= IncludeTexts(files[file])
    ensures var r := Dumped(kids, files, st);
            && Grown(files, st.included, r.state.included)
            && (r.ok ==> Complete(files, r.state.included, |st.included|) && Listed(kids, r.state.included))
    decreases |Missing(files, st.included)|, 1, kids
  {
    hide *;
    DumpedIs(kids, files, st);
    if kids == [] {
      NothingGrown(files, st.included);
      NothingListed(st.included);
    } else {
      TextsOfKids(kids);
      KidLists(kids[0], file, files, st);
      var r := DumpedKid(kids[0], files, st);
      if r.ok {
        MissingShrinks(files, st.included, r.state.included);
        DumpLists(kids[1..], file, files, r.state);
        var now := Dumped(kids, files, st).state.included;
        GrownTwice(files, st.included, r.state.included, now);
        if Dumped(kids, files, st).ok {
          CompleteTwice(files, |st.included|, r.state.included, now);
          KidStaysListed(kids[0], r.state.included, now);
          OneMoreListed(kids, now);
        }
      }
    }
  }

  lemma DumpedIs(kids: seq<Xml>, files: Files, st: State)
    ensures Dumped(kids, files, st)
         == if kids == [] then Run(true, st)
            else
              var r := DumpedKid(kids[0], files, st);
              if !r.ok then r else Dumped(kids[1..], files, r.state)
  {
    hide DumpedKid;
  }

  lemma NothingListed(included: seq<string>)
    ensures Listed([], included)
  {
  }

  predicate KidListed(t: Xml, included: seq<string>) {
    IncludesText(t) ==> t.kids[0].text in included
  }

  lemma KidStaysListed(t: Xml, b: seq<string>, c: seq<string>)
    requires KidListed(t, b) && b <= c
    ensures KidListed(t, c)
  {
    hide IncludesText;
    assert forall f :: f in b ==> f in c;
  }

  lemma OneMoreListed(kids: seq<Xml>, included: seq<string>)
    requires kids != [] && KidListed(kids[0], included) && Listed(kids[1..], included)
    ensures Listed(kids, included)
  {
    forall i | 0 <= i < |kids| && IncludesText(kids[i]) ensures kids[i].kids[0].text in included {
      if i > 0 {
        assert kids[i] == kids[1..][i - 1];
      }
    }
  }

  lemma KidLists(t: Xml, file: string, files: Files, st: State)
    requires file in st.included && file in files && NodeTexts(t) <= IncludeTexts(files[file])
    ensures var r := DumpedKid(t, files, st);
            && Grown(files, st.included, r.state.included)
            && (r.ok ==> Complete(files, r.state.included, |st.included|) && KidListed(t, r.state.included))
    decreases |Missing(files, st.included)|, 1, t
  {
    hide *;
    NothingGrown(files, st.included);
    if Include == ContainerOf(t) {
      KidIsInclude(t, files, st);
      if IncludesText(t) && t.kids[0].text !in st.included {
        var name := t.kids[0].text;
        NodeTextsOfInclude(t);
        FirstAsked(files, st.included, file, name);
        MissingShrinks(files, st.included, st.included + [name]);
        LoadLists(name, files, st);
        GrownTwice(files, st.included, st.included + [name], Loaded(name, files, st).state.included);
        NowListed(t, st.included, Loaded(name, files, st).state.included);
      } else {
        AlreadyListed(t, st.included);
      }
    } else if Eval == ContainerOf(t) {
      KidIsEval(t, files, st);
      NotIncluding(t, DumpedKid(t, files, st).state.included);
      var holds := EvalValue(t.kids, |t.kids|, st.data);
      if holds.Some? && Branch(t.kids, holds.value) < |t.kids| {
        var k := Branch(t.kids, holds.value);
        TextsOfBranch(t, k);
        DumpLists(t.kids[k].kids, file, files, st);
      }
    } else {
      KidIsOther(t, files, st);
      NotIncluding(t, st.included);
    }
  }

  lemma KidIsInclude(t: Xml, files: Files, st: State)
    requires ContainerOf(t).Include?
    ensures t.Element?
    ensures IncludesText(t) <==> t.kids != [] && t.kids[0].Text?
    ensures DumpedKid(t, files, st)
         == if !IncludesText(t) then Run(t.kids == [], st)
            else if t.kids[0].text in st.included then Run(true, st)
            else Loaded(t.kids[0].text, files, st)
  {
    hide Loaded, SameName;
  }

  lemma KidIsEval(t: Xml, files: Files, st: State)
    requires ContainerOf(t).Eval?
    ensures t.Element?
    ensures DumpedKid(t, files, st)
         == match EvalValue(t.kids, |t.kids|, st.data)
            case None => Run(false, st)
            case Some(holds) =>
              var k := Branch(t.kids, holds);
              if k < |t.kids| then Dumped(t.kids[k].kids, files, st) else Run(true, st)
  {
    hide Dumped, SameName, EvalValue, LastDo;
  }

  lemma KidIsOther(t: Xml, files: Files, st: State)
    requires !ContainerOf(t).Include? && !ContainerOf(t).Eval?
    ensures DumpedKid(t, files, st).state.included == st.included
  {
    hide ContainerOf, ValuesOf, Deleted, ListData;
  }

  lemma NodeTextsOfInclude(t: Xml)
    requires IncludesText(t)
    ensures t.kids[0].text in NodeTexts(t)
  {
  }

  lemma NowListed(t: Xml, was: seq<string>, now: seq<string>)
    requires IncludesText(t) && was + [t.kids[0].text] <= now
    ensures KidListed(t, now)
  {
    assert now[|was|] == (was + [t.kids[0].text])[|was|];
  }

  lemma AlreadyListed(t: Xml, included: seq<string>)
    requires IncludesText(t) ==> t.kids[0].text in included
    ensures KidListed(t, included)
  {
  }

  lemma NotIncluding(t: Xml, included: seq<string>)
    requires !ContainerOf(t).Include?
    ensures KidListed(t, included)
  {
  }

  // ---------- When loading goes through ----------

  /** Nothing undefined is met in `kids`: required and included files are texts, no header comes to an expression
      without a child, nothing is erased from a list by its position. */
  predicate Sound(kids: seq<Xml>) {
    forall i :: 0 <= i < |kids| ==> NodeSound(kids[i])
  }

  predicate NodeSound(t: Xml) {
    match ContainerOf(t)
    case Requiere => t.kids != [] && t.kids[0].Text?
    case Include => t.kids == [] || t.kids[0].Text?
    case Del => AttributeOf(t, "elem") == ""
    case Eval => HeadersSound(t.kids) && forall i :: 0 <= i < |t.kids| ==> BranchSound(t.kids[i])
    case _ => true
  }

  predicate BranchSound(t: Xml) {
    t.Element? && SameName(t.name, "do") ==> Sound(t.kids)
  }

  predicate AllSound(files: Files) {
    forall f :: f in files ==> Sound(files[f])
  }

  lemma LoadGoesThrough(name: string, files: Files, st: State)
    requires AllSound(files)
    ensures Loaded(name, files, st).ok
    decreases |Missing(files, st.included + [name])|, if name in files then 2 else 0
  {
    hide *;
    LoadedIs(name, files, st);
    if name in files {
      FileSound(files, name);
      DumpGoesThrough(files[name], files, st.(included := st.included + [name]));
    }
  }

  lemma FileSound(files: Files, name: string)
    requires AllSound(files) && name in files
    ensures Sound(files[name])
  {
  }

  lemma DumpGoesThrough(kids: seq<Xml>, files: Files, st: State)
    requires AllSound(files) && Sound(kids)
    ensures Dumped(kids, files, st).ok
    decreases |Missing(files, st.included)|, 1, kids
  {
    hide *;
    DumpedIs(kids, files, st);
    if kids != [] {
      SoundParts(kids);
      KidGoesThrough(kids[0], files, st);
      var r := DumpedKid(kids[0], files, st);
      MissingShrinks(files, st.included, r.state.included);
      DumpGoesThrough(kids[1..], files, r.state);
    }
  }

  lemma SoundParts(kids: seq<Xml>)
    requires Sound(kids) && kids != []
    ensures NodeSound(kids[0]) && Sound(kids[1..])
  {
    hide NodeSound;
  }

  lemma KidGoesThrough(t: Xml, files: Files, st: State)
    requires AllSound(files) && NodeSound(t)
    ensures DumpedKid(t, files, st).ok
    decreases |Missing(files, st.included)|, 1, t
  {
    hide *;
    if Include == ContainerOf(t) {
      KidIsInclude(t, files, st);
      SoundInclude(t);
      if IncludesText(t) && t.kids[0].text !in st.included {
        MissingShrinks(files, st.included, st.included + [t.kids[0].text]);
        LoadGoesThrough(t.kids[0].text, files, st);
      }
    } else if Eval == ContainerOf(t) {
      KidIsEval(t, files, st);
      SoundEval(t, st.data);
      var k := Branch(t.kids, EvalValue(t.kids, |t.kids|, st.data).value);
      if k < |t.kids| {
        SoundBranch(t, k);
        DumpGoesThrough(t.kids[k].kids, files, st);
      }
    } else {
      OtherGoesThrough(t, files, st);
    }
  }

  lemma SoundInclude(t: Xml)
    requires ContainerOf(t).Include? && NodeSound(t)
    ensures t.Element? && (t.kids == [] || IncludesText(t))
  {
  }

  lemma SoundEval(t: Xml, d: Data)
    requires ContainerOf(t).Eval? && NodeSound(t)
    ensures t.Element? && EvalValue(t.kids, |t.kids|, d).Some?
  {
    hide EvalValue, HeadersSound, BranchSound, SameName;
    EvalIsDefinedExactly(t.kids, |t.kids|, d);
    assert t.kids[..|t.kids|] == t.kids;
  }

  lemma SoundBranch(t: Xml, k: nat)
    requires ContainerOf(t).Eval? && NodeSound(t)
    requires k < |t.kids| && t.kids[k].Element? && SameName(t.kids[k].name, "do")
    ensures Sound(t.kids[k].kids)
  {
    hide SameName, HeadersSound, Sound;
    assert BranchSound(t.kids[k]);
  }

  lemma OtherGoesThrough(t: Xml, files: Files, st: State)
    requires !ContainerOf(t).Include? && !ContainerOf(t).Eval? && NodeSound(t)
    ensures DumpedKid(t, files, st).ok
  {
    hide ValuesOf, ListData, MyAttribute, SameName;
  }

  // ---------- What loading does to variables ----------

  /** The names that the elements in a list of nodes carry, at any depth. */
  function Names(kids: seq<Xml>): set<string> {
    if kids == [] then {} else NamesIn(kids[0]) + Names(kids[1..])
  }

  function NamesIn(t: Xml): set<string> {
    {AttributeOf(t, "name")} + if t.Element? then Names(t.kids) else {}
  }

  /** The two data differ at `names` only. */
  ghost predicate Within(d: Data, e: Data, names: set<string>) {
    forall n :: n !in names ==> Simple(d, n) == Simple(e, n) && ListOf(d, n) == ListOf(e, n)
  }

  lemma WithinTwice(a: Data, b: Data, c: Data, m: set<string>, n: set<string>)
    requires Within(a, b, m) && Within(b, c, n)
    ensures Within(a, c, m + n)
  {
    hide Simple, ListOf;
  }

  lemma WithinMore(a: Data, b: Data, m: set<string>, n: set<string>)
    requires Within(a, b, m) && m <= n
    ensures Within(a, b, n)
  {
    hide Simple, ListOf;
  }

  lemma KidNames(kids: seq<Xml>, i: nat)
    requires i < |kids|
    ensures NamesIn(kids[i]) <= Names(kids)
  {
    if i > 0 {
      KidNames(kids[1..], i - 1);
      assert kids[1..][i - 1] == kids[i];
    }
  }

  /** No variable has become empty, and lists have grown in front only. */
  ghost predicate Kept(d: Data, e: Data) {
    && (forall n :: Simple(d, n) != "" ==> Simple(e, n) != "")
    && (forall n :: EndsWith(ListOf(e, n), ListOf(d, n)))
  }

  predicate EndsWith(s: seq<string>, end: seq<string>) {
    |end| <= |s| && s[|s| - |end|..] == end
  }

  lemma EndsWithTwice(a: seq<string>, b: seq<string>, c: seq<string>)
    requires EndsWith(a, b) && EndsWith(b, c)
    ensures EndsWith(a, c)
  {
    assert a[|a| - |c|..] == a[|a| - |b|..][|b| - |c|..];
  }

  lemma KeptTwice(a: Data, b: Data, c: Data)
    requires Kept(a, b) && Kept(b, c)
    ensures Kept(a, c)
  {
    hide Simple, ListOf, EndsWith;
    forall n ensures EndsWith(ListOf(c, n), ListOf(a, n)) {
      EndsWithTwice(ListOf(c, n), ListOf(b, n), ListOf(a, n));
    }
  }

  lemma SimpleSet(d: Data, name: string, x: string)
    requires x != ""
    ensures var e := d.(simple := d.simple[name := x]); Within(d, e, {name}) && Kept(d, e)
  {
    var e := d.(simple := d.simple[name := x]);
    assert forall n :: Simple(e, n) == if n == name then x else Simple(d, n);
    assert forall n :: ListOf(e, n) == ListOf(d, n);
    hide Simple, ListOf;
  }

  lemma ListSet(d: Data, name: string, many: seq<string>)
    ensures var e := d.(lists := d.lists[name := many + ListOf(d, name)]); Within(d, e, {name}) && Kept(d, e)
  {
    var e := d.(lists := d.lists[name := many + ListOf(d, name)]);
    assert forall n :: Simple(e, n) == Simple(d, n);
    assert forall n :: ListOf(e, n) == if n == name then many + ListOf(d, name) else ListOf(d, n);
    hide Simple, ListOf;
  }

  lemma StoredKeeps(kind: string, name: string, v: Values)
    ensures Within(v.data, Stored(kind, name, v), {name}) && Kept(v.data, Stored(kind, name, v))
  {
    hide SameName, Within, Kept, ListOf;
    if SameName(kind, "var") && v.single != "" {
      SimpleSet(v.data, name, v.single);
    } else if SameName(kind, "list") && v.many != [] {
      ListSet(v.data, name, v.many);
    } else {
      WithinItself(v.data, {name});
      KeptItself(v.data);
    }
  }

  /** `GetValues` stores under the names it meets, never an empty value, and adds to lists in front only. */
  lemma {:induction false} ValuesStayWithin(t: Xml, v: Values)
    ensures Within(v.data, ValuesOf(t, v).data, NamesIn(t)) && Kept(v.data, ValuesOf(t, v).data)
  {
    hide Within, Kept, Stored, NamesIn, Simple, ListOf;
    if HasKids(t) {
      var w := Values(v.data, "", []);
      var inner, name := ValuesOf(t.kids[0], w), AttributeOf(t, "name");
      ValuesStayWithin(t.kids[0], w);
      StoredKeeps(Value(t), name, inner);
      KeptTwice(v.data, inner.data, Stored(Value(t), name, inner));
      WithinTwice(v.data, inner.data, Stored(Value(t), name, inner), NamesIn(t.kids[0]), {name});
      FirstNames(t);
      OwnName(t);
      WithinMore(v.data, Stored(Value(t), name, inner), NamesIn(t.kids[0]) + {name}, NamesIn(t));
    } else {
      WithinItself(v.data, NamesIn(t));
      KeptItself(v.data);
    }
  }

  lemma KeptItself(d: Data)
    ensures Kept(d, d)
  {
  }

  lemma OwnName(t: Xml)
    ensures AttributeOf(t, "name") in NamesIn(t)
  {
    hide AttributeOf;
  }

  lemma {:induction false} AddedStaysWithin(kids: seq<Xml>, name: string, v: Values)
    ensures Within(v.data, Added(kids, name, v).data, {name} + Names(kids))
  {
    hide Within, Simple, ListOf, ValuesOf, NamesIn, SameName;
    if kids == [] {
      WithinItself(v.data, {name} + Names(kids));
    } else if IsAdd(kids[0]) {
      var w := ValuesOf(kids[0].kids[0], v);
      ValuesStayWithin(kids[0].kids[0], v);
      FirstNames(kids[0]);
      PushedStaysWithin(name, w);
      AddedStaysWithin(kids[1..], name, Pushed(name, w));
      WithinTwice(v.data, w.data, Pushed(name, w).data, NamesIn(kids[0].kids[0]), {name});
      WithinTwice(v.data, Pushed(name, w).data, Added(kids, name, v).data,
                  NamesIn(kids[0].kids[0]) + {name}, {name} + Names(kids[1..]));
      WithinMore(v.data, Added(kids, name, v).data,
                 NamesIn(kids[0].kids[0]) + {name} + ({name} + Names(kids[1..])), {name} + Names(kids));
    } else {
      AddedStaysWithin(kids[1..], name, v);
      WithinMore(v.data, Added(kids, name, v).data, {name} + Names(kids[1..]), {name} + Names(kids));
    }
  }

  lemma WithinItself(d: Data, names: set<string>)
    ensures Within(d, d, names)
  {
  }

  lemma FirstNames(t: Xml)
    requires HasKids(t)
    ensures NamesIn(t.kids[0]) <= NamesIn(t)
  {
    hide AttributeOf;
    KidNames(t.kids, 0);
  }

  lemma PushedStaysWithin(name: string, v: Values)
    ensures Within(v.data, Pushed(name, v).data, {name})
  {
  }

  /** The names in the files that have been listed. */
  function NamesOfFiles(files: Files, included: seq<string>): set<string> {
    set f, n | f in files && f in included && n in Names(files[f]) :: n
  }

  lemma MoreFilesMoreNames(files: Files, b: seq<string>, c: seq<string>)
    requires b <= c
    ensures NamesOfFiles(files, b) <= NamesOfFiles(files, c)
  {
    hide Names;
    assert forall f :: f in b ==> f in c;
  }

  /** Loading changes variables and lists only under names that stand in the files it has listed. */
  lemma LoadStaysWithin(name: string, files: Files, st: State)
    ensures var r := Loaded(name, files, st);
            Within(st.data, r.state.data, NamesOfFiles(files, r.state.included))
    decreases |Missing(files, st.included + [name])|, if name in files then 2 else 0
  {
    hide *;
    var listed := st.(included := st.included + [name]);
    LoadedIs(name, files, st);
    var now := Loaded(name, files, st).state;
    if name in files {
      DumpStaysWithin(files[name], files, listed);
      NamesOfFile(files, name, listed.included, now.included);
      WithinMore(st.data, now.data, Names(files[name]) + NamesOfFiles(files, now.included),
                 NamesOfFiles(files, now.included));
    } else {
      WithinItself(st.data, NamesOfFiles(files, now.included));
    }
  }

  lemma NamesOfFile(files: Files, name: string, b: seq<string>, c: seq<string>)
    requires name in files && name in b && b <= c
    ensures Names(files[name]) <= NamesOfFiles(files, c)
  {
    hide Names;
    assert forall f :: f in b ==> f in c;
  }

  lemma DumpStaysWithin(kids: seq<Xml>, files: Files, st: State)
    ensures var r := Dumped(kids, files, st);
            Within(st.data, r.state.data, Names(kids) + NamesOfFiles(files, r.state.included))
    decreases |Missing(files, st.included)|, 1, kids
  {
    hide *;
    DumpedIs(kids, files, st);
    var now := Dumped(kids, files, st).state;
    var all := Names(kids) + NamesOfFiles(files, now.included);
    if kids == [] {
      WithinItself(st.data, all);
    } else {
      NamesOfKids(kids);
      KidStaysWithin(kids[0], files, st);
      var r := DumpedKid(kids[0], files, st);
      var some := NamesIn(kids[0]) + NamesOfFiles(files, r.state.included);
      if r.ok {
        MissingShrinks(files, st.included, r.state.included);
        DumpStaysWithin(kids[1..], files, r.state);
        MoreFilesMoreNames(files, r.state.included, now.included);
        var rest := Names(kids[1..]) + NamesOfFiles(files, now.included);
        WithinTwice(st.data, r.state.data, now.data, some, rest);
        WithinMore(st.data, now.data, some + rest, all);
      } else {
        WithinMore(st.data, now.data, some, all);
      }
    }
  }

  lemma NamesOfKids(kids: seq<Xml>)
    requires kids != []
    ensures Names(kids) == NamesIn(kids[0]) + Names(kids[1..])
  {
    hide NamesIn;
  }

  lemma KidStaysWithin(t: Xml, files: Files, st: State)
    ensures var r := DumpedKid(t, files, st);
            Within(st.data, r.state.data, NamesIn(t) + NamesOfFiles(files, r.state.included))
    decreases |Missing(files, st.included)|, 1, t
  {
    hide *;
    var now := DumpedKid(t, files, st).state;
    var all := NamesIn(t) + NamesOfFiles(files, now.included);
    WithinItself(st.data, all);
    if Include == ContainerOf(t) {
      KidIsInclude(t, files, st);
      if IncludesText(t) && t.kids[0].text !in st.included {
        MissingShrinks(files, st.included, st.included + [t.kids[0].text]);
        LoadStaysWithin(t.kids[0].text, files, st);
        WithinMore(st.data, now.data, NamesOfFiles(files, now.included), all);
      }
    } else if Eval == ContainerOf(t) {
      KidIsEval(t, files, st);
      var holds := EvalValue(t.kids, |t.kids|, st.data);
      if holds.Some? && Branch(t.kids, holds.value) < |t.kids| {
        var k := Branch(t.kids, holds.value);
        BranchNames(t, k);
        DumpStaysWithin(t.kids[k].kids, files, st);
        WithinMore(st.data, now.data, Names(t.kids[k].kids) + NamesOfFiles(files, now.included), all);
      }
    } else {
      OtherStaysWithin(t, files, st);
      WithinMore(st.data, now.data, NamesIn(t), all);
    }
  }

  lemma BranchNames(t: Xml, k: nat)
    requires t.Element? && k < |t.kids| && t.kids[k].Element?
    ensures Names(t.kids[k].kids) <= NamesIn(t)
  {
    hide AttributeOf, Names;
    KidNames(t.kids, k);
  }

  lemma OtherStaysWithin(t: Xml, files: Files, st: State)
    requires !ContainerOf(t).Include? && !ContainerOf(t).Eval?
    ensures Within(st.data, DumpedKid(t, files, st).state.data, NamesIn(t))
  {
    hide *;
    match ContainerOf(t) {
      case Var =>
        VarIs(t, files, st);
        ValuesStayWithin(t, Values(st.data, "", []));
      case List =>
        ListIs(t, files, st);
        ListStaysWithin(t, st.data);
      case Del =>
        DelIs(t, files, st);
        DeletedStaysWithin(t, st.data);
      case _ =>
        OtherIs(t, files, st);
        WithinItself(st.data, NamesIn(t));
    }
  }

  lemma VarIs(t: Xml, files: Files, st: State)
    requires ContainerOf(t).Var?
    ensures DumpedKid(t, files, st) == Run(true, st.(data := ValuesOf(t, Values(st.data, "", [])).data))
  {
    hide ContainerOf, ValuesOf;
  }

  lemma ListIs(t: Xml, files: Files, st: State)
    requires ContainerOf(t).List?
    ensures DumpedKid(t, files, st) == Run(true, st.(data := ListData(t, st.data)))
  {
    hide ContainerOf, ListData;
  }

  lemma DelIs(t: Xml, files: Files, st: State)
    requires ContainerOf(t).Del?
    ensures DumpedKid(t, files, st).state.data
         == match Deleted(t, st.data) case Some(d) => d case None => st.data
  {
    hide ContainerOf, Deleted;
  }

  lemma OtherIs(t: Xml, files: Files, st: State)
    requires ContainerOf(t).Requiere? || ContainerOf(t).Other?
    ensures DumpedKid(t, files, st).state == st
  {
    hide SameName;
  }

  lemma ListStaysWithin(t: Xml, d: Data)
    ensures Within(d, ListData(t, d), NamesIn(t))
  {
    hide Added, Within, AttributeOf, Names;
    var name := AttributeOf(t, "name");
    WithinItself(d, NamesIn(t));
    if t.Element? && name != "" {
      AddedStaysWithin(t.kids, name, Values(d, "", []));
      WithinMore(d, ListData(t, d), {name} + Names(t.kids), NamesIn(t));
    }
  }

  lemma DeletedStaysWithin(t: Xml, d: Data)
    ensures Within(d, match Deleted(t, d) case Some(e) => e case None => d, NamesIn(t))
  {
    hide AttributeOf, Names, Atoi;
  }

  // ---------- Chains of variables ----------

  /** Variables that hold one another, down to a text or to one that holds nothing. */
  predicate IsChain(t: Xml) {
    t.Text? || (t.Element? && SameName(t.name, "var") && (t.kids == [] || IsChain(t.kids[0])))
  }

  function ChainNames(t: Xml): set<string> {
    if t.Element? then {AttributeOf(t, "name")} + (if t.kids == [] then {} else ChainNames(t.kids[0])) else {}
  }

  /** The first value that is not empty: of the text, then of the variables from the inside out. */
  function Found(t: Xml, d: Data): string
    requires IsChain(t)
  {
    if t.Text? then t.text
    else
      var inner := if t.kids == [] then "" else Found(t.kids[0], d);
      if inner != "" then inner else Simple(d, AttributeOf(t, "name"))
  }

  function InnerText(t: Xml): string
    requires IsChain(t)
  {
    if t.Text? then t.text else if t.kids == [] then "" else InnerText(t.kids[0])
  }

  /** A chain takes the first value found, its outermost variable always; a text that is not empty goes to every
      variable of the chain. */
  lemma {:induction false} ChainTakesOneValue(t: Xml, v: Values)
    requires IsChain(t)
    ensures var r := ValuesOf(t, v);
            && r.single == Found(t, v.data) && (r.single == "" ==> r.data == v.data)
            && (t.Element? ==> Simple(r.data, AttributeOf(t, "name")) == r.single)
            && (forall n :: n in ChainNames(t) ==>
                              Simple(r.data, n) == r.single || Simple(r.data, n) == Simple(v.data, n))
            && (InnerText(t) != "" ==>
                  r.single == InnerText(t) && forall n :: n in ChainNames(t) ==> Simple(r.data, n) == r.single)
            && r.data.lists == v.data.lists
  {
    hide SameName, AttributeOf;
    if t.Element? {
      NoListName(t);
      if t.kids != [] {
        ChainTakesOneValue(t.kids[0], Values(v.data, "", []));
      }
    }
  }

  lemma NoListName(t: Xml)
    requires t.Element? && SameName(t.name, "var")
    ensures !SameName(t.name, "list") && SameName(Value(t), "var")
  {
    assert |"var"| != |"list"|;
  }

  // ---------- The code ----------

  class ConfManager {
    var included: seq<string>
    var simple: map<string, string>
    var lists: map<string, seq<string>>
    var loadedFile: string

    constructor ()
      ensures Now() == State([], Data(map[], map[])) && loadedFile == ""
    {
      included, simple, lists, loadedFile := [], map[], map[], "";
    }

    function Now(): State
      reads this
    {
      State(included, Data(simple, lists))
    }

    /** `Load`. The result is false if the code does something undefined. */
    method Load(name: string, files: Files) returns (ok: bool)
      modifies `included, `simple, `lists
      ensures Run(ok, Now()) == Loaded(name, files, old(Now()))
      decreases |Missing(files, included + [name])|, if name in files then 2 else 0
    {
      ghost var st := Now();
      LoadedIs(name, files, st);
      hide Dumped, Loaded;
      included := included + [name];
      ok := true;
      if name in files {
        ok := DumpToMemory(files[name], files);
      }
    }

    method DumpToMemory(kids: seq<Xml>, files: Files) returns (ok: bool)
      modifies `included, `simple, `lists
      ensures Run(ok, Now()) == Dumped(kids, files, old(Now()))
      decreases |Missing(files, included)|, 1, kids
    {
      hide *;
      ghost var st := Now();
      var i := 0;
      SameState();
      Whole(kids);
      while i < |kids|
        invariant 0 <= i <= |kids| && Dumped(kids, files, st) == Dumped(kids[i..], files, Now())
        invariant st.included <= included
      {
        ghost var before := Now();
        DumpedIs(kids[i..], files, before);
        FromOn(kids, i);
        SameState();
        MissingShrinks(files, st.included, before.included);
        ok := DumpKid(kids[i], files);
        if !ok {
          return;
        }
        assert before.included <= Now().included;
        SameState();
        i := i + 1;
      }
      DumpedIs(kids[i..], files, Now());
      ok := true;
    }

    lemma SameState()
      ensures Now().included == included && Now().data == Data(simple, lists)
    {
    }

    /** The dispatch of `DumpToMemory`. */
    method DumpKid(t: Xml, files: Files) returns (ok: bool)
      modifies `included, `simple, `lists
      ensures Run(ok, Now()) == DumpedKid(t, files, old(Now()))
      decreases |Missing(files, included)|, 1, t, 1
    {
      hide Loaded, Dumped, SameName, ValuesOf, Deleted, ListData, EvalValue, LastDo;
      match ContainerOf(t) {
        case Requiere => ok := t.kids != [] && t.kids[0].Text?;
        case Include => ok := ManageInclude(t, files);
        case Var =>
          var _, _ := GetValues(t, "", []);
          ok := true;
        case Del => ok := ManageDel(t);
        case List =>
          ManageList(t);
          ok := true;
        case Eval => ok := ManageEval(t, files);
        case Other => ok := true;
      }
    }

    /** `ManageInclude`: a file is loaded unless the search finds it in the list. */
    method ManageInclude(t: Xml, files: Files) returns (ok: bool)
      requires ContainerOf(t).Include?
      modifies `included, `simple, `lists
      ensures Run(ok, Now()) == DumpedKid(t, files, old(Now()))
      decreases |Missing(files, included)|, 1, t, 0
    {
      KidIsInclude(t, files, Now());
      hide DumpedKid, Loaded, ContainerOf;
      if t.kids == [] {
        return true;
      }
      if !t.kids[0].Text? {
        return false;
      }
      var name := t.kids[0].text;
      var i, stop := 0, false;
      while !stop && i < |included|
        invariant 0 <= i <= |included| && (stop <==> exists j :: 0 <= j < i && included[j] == name)
      {
        if name == included[i] {
          stop := true;
        }
        i := i + 1;
      }
      ok := true;
      if !stop {
        MissingShrinks(files, included, included + [name]);
        ok := Load(name, files);
      }
    }

    /** `GetValues`: `single` and `many` are the two references. */
    method GetValues(t: Xml, single: string, many: seq<string>) returns (single': string, many': seq<string>)
      modifies `simple, `lists
      ensures Values(Now().data, single', many') == ValuesOf(t, Values(old(Now().data), single, many))
      decreases t
    {
      hide AttributeOf, SameName;
      if t.Text? {
        return t.text, many;
      }
      var name := AttributeOf(t, "name");
      if HasKids(t) {
        var tmp, list := GetValues(t.kids[0], "", []);
        if SameName(Value(t), "var") && tmp != "" {
          simple := simple[name := tmp];
        } else if SameName(Value(t), "list") && list != [] {
          lists := lists[name := list + ListOf(Now().data, name)];
        }
      }
      return Simple(Now().data, name), ListOf(Now().data, name);
    }

    /** `ManageList`. */
    method ManageList(t: Xml)
      requires t.Element?
      modifies `simple, `lists
      ensures Now().data == ListData(t, old(Now().data))
    {
      hide AttributeOf, IsAdd, ValuesOf;
      var name := AttributeOf(t, "name");
      if name == "" {
        return;
      }
      var i, single, many := 0, "", [];
      ghost var start := Values(Now().data, single, many);
      Whole(t.kids);
      while i < |t.kids|
        invariant 0 <= i <= |t.kids| && included == old(included)
        invariant Added(t.kids, name, start) == Added(t.kids[i..], name, Values(Now().data, single, many))
      {
        FromOn(t.kids, i);
        if IsAdd(t.kids[i]) {
          AddHasKids(t.kids[i]);
          single, many := GetValues(t.kids[i].kids[0], single, many);
          var list := ListOf(Now().data, name);
          lists := lists[name := if single != "" then list + [single] else many + list];
        }
        i := i + 1;
      }
    }

    /** `ManageDel`: the loop goes to the position to erase, or to the end of the list. */
    method ManageDel(t: Xml) returns (ok: bool)
      modifies `simple, `lists
      ensures match Deleted(t, old(Now().data))
              case Some(d) => ok && Now().data == d
              case None => !ok && Now() == old(Now())
    {
      hide AttributeOf, Atoi;
      var name, elem := AttributeOf(t, "name"), AttributeOf(t, "elem");
      if elem == "" {
        simple, lists := simple - {name}, lists - {name};
        return true;
      }
      var list, i := ListOf(Now().data, name), 0;
      while i < |list| && i < Atoi(elem) - 1
        invariant 0 <= i <= |list| && (i == 0 || i <= Atoi(elem) - 1)
      {
        i := i + 1;
      }
      ok := i < |list|;
      if ok {
        lists := lists[name := list[..i] + list[i + 1..]];
      }
    }

    /** `ManageEval`. */
    method ManageEval(t: Xml, files: Files) returns (ok: bool)
      requires ContainerOf(t).Eval?
      modifies `included, `simple, `lists
      ensures Run(ok, Now()) == DumpedKid(t, files, old(Now()))
      decreases |Missing(files, included)|, 1, t, 0
    {
      ghost var st := Now();
      KidIsEval(t, files, st);
      hide DumpedKid, Dumped, ContainerOf, EvalValue, SameName;
      var holds, doTrue, doFalse;
      ok, holds, doTrue, doFalse := ScanEval(t.kids);
      if !ok {
        return;
      }
      if holds && doTrue < |t.kids| {
        ok := DumpToMemory(t.kids[doTrue].kids, files);
      } else if doFalse < |t.kids| {
        ok := DumpToMemory(t.kids[doFalse].kids, files);
      }
    }

    /** The loop of `ManageEval` over the children. */
    method ScanEval(kids: seq<Xml>) returns (ok: bool, holds: bool, doTrue: nat, doFalse: nat)
      ensures EvalValue(kids, |kids|, Now().data) == if ok then Some(holds) else None
      ensures ok ==> doTrue == LastDo(kids, "true", |kids|) && doFalse == LastDo(kids, "false", |kids|)
    {
      hide IsHeader, IsDo, HeaderValue;
      ok, holds := true, false;
      doTrue, doFalse := |kids|, |kids|;
      var i := 0;
      while i < |kids|
        invariant 0 <= i <= |kids| && ok && EvalValue(kids, i, Now().data) == Some(holds)
        invariant doTrue == LastDo(kids, "true", i) && doFalse == LastDo(kids, "false", i)
      {
        DoKinds(kids[i]);
        if IsHeader(kids[i]) {
          ok, holds := ScanHeader(kids[i].kids, holds);
          if !ok {
            StaysUndefined(kids, i + 1, Now().data);
            return;
          }
        } else if IsDo(kids[i], "true") {
          doTrue := i;
        } else if IsDo(kids[i], "false") {
          doFalse := i;
        }
        i := i + 1;
      }
    }

    /** The loop over a header's children. */
    method ScanHeader(kids: seq<Xml>, was: bool) returns (ok: bool, holds: bool)
      ensures HeaderValue(kids, 0, Undefined, was, Now().data) == if ok then Some(holds) else None
    {
      hide SameName, Expression, OperatorOf, Combined;
      ok, holds := true, was;
      var i, op, stop := 0, Undefined, false;
      while !stop && i < |kids|
        invariant 0 <= i <= |kids| && ok
        invariant HeaderValue(kids, 0, Undefined, was, Now().data)
               == if stop then Some(holds) else HeaderValue(kids, i, op, holds, Now().data)
        decreases |kids| - i, !stop
      {
        if i % 2 == 0 {
          if !SameName(Value(kids[i]), "expression") {
            stop := true;
          } else if !HasKids(kids[i]) {
            ok := false;
            return;
          } else {
            holds := Combined(op, i == 0, holds, Expression(kids[i], Now().data));
            op := Undefined;
          }
        } else {
          if !SameName(Value(kids[i]), "operator") {
            stop := true;
          } else {
            op := OperatorOf(kids[i]);
          }
        }
        if !stop {
          i := i + 1;
        }
      }
    }

    /** `Reload`: without a name the file loaded last is taken; variables and lists are cleared, the list of files
        is not. */
    method Reload(name: string, files: Files) returns (ok: bool)
      modifies this
      ensures loadedFile == if name == "" then old(loadedFile) else name
      ensures Run(ok, Now()) == Loaded(loadedFile, files, State(old(included), Data(map[], map[])))
      ensures Grown(files, old(included) + [loadedFile], included)
      ensures ok ==> Complete(files, included, |old(included)|)
      ensures Within(Data(map[], map[]), Now().data, NamesOfFiles(files, included))
      ensures AllSound(files) ==> ok
    {
      hide *;
      simple, lists := map[], map[];
      if name != "" {
        loadedFile := name;
      }
      ghost var st := State(included, Data(simple, lists));
      LoadLists(loadedFile, files, st);
      LoadStaysWithin(loadedFile, files, st);
      if AllSound(files) {
        LoadGoesThrough(loadedFile, files, st);
      }
      SameState();
      ok := Load(loadedFile, files);
      SameState();
    }
  }

  lemma AddHasKids(t: Xml)
    requires IsAdd(t)
    ensures HasKids(t)
  {
  }

  lemma {:induction false} StaysUndefined(kids: seq<Xml>, n: nat, d: Data)
    requires n <= |kids| && EvalValue(kids, n, d).None?
    ensures EvalValue(kids, |kids|, d).None?
    decreases |kids| - n
  {
    hide IsHeader, HeaderValue;
    if n < |kids| {
      StaysUndefined(kids, n + 1, d);
    }
  }

  lemma DoKinds(t: Xml)
    ensures IsHeader(t) ==> t.Element? && !IsDo(t, "true") && !IsDo(t, "false")
    ensures IsDo(t, "true") ==> !IsDo(t, "false")
  {
    assert |"true"| != |"false"| && |"do"| != |"header"|;
  }

  lemma Whole(kids: seq<Xml>)
    ensures kids[0..] == kids
  {
  }

  lemma FromOn(kids: seq<Xml>, i: nat)
    requires i < |kids|
    ensures kids[i..] != [] && kids[i..][0] == kids[i] && kids[i..][1..] == kids[i + 1..]
  {
  }

  /** One load of `root` into a new manager: it ends, whatever includes what; the root comes first, no file is
      listed twice, every other file was asked for by one before it, all the includes at the top of a file are
      listed, and only names in the files listed have values. */
  method LoadConfiguration(root: string, files: Files) returns (manager: ConfManager, ok: bool)
    ensures manager.loadedFile == root
    ensures manager.included != [] && manager.included[0] == root
    ensures forall j, k :: 0 <= j < k < |manager.included| ==> manager.included[j] != manager.included[k]
    ensures forall k :: 1 <= k < |manager.included| ==> AskedFor(files, manager.included, k)
    ensures ok ==> forall f :: f in manager.included && f in files ==> Listed(files[f], manager.included)
    ensures forall n :: n !in NamesOfFiles(files, manager.included) ==>
                          Simple(manager.Now().data, n) == "" && ListOf(manager.Now().data, n) == []
    ensures AllSound(files) ==> ok
  {
    hide Loaded, AskedFor, Listed, NamesOfFiles, AllSound;
    manager := new ConfManager();
    ok := manager.Reload(root, files);
    var now := manager.included;
    assert [root] <= now && now[0] == [root][0];
    assert forall j, k :: 0 <= j < k < |now| ==> now[..k][j] == now[j];
  }
}
