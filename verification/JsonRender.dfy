/** Documents and their texts: tokenising the text of a document gives back its tree. This fixes which
    characters separate, open, close and begin the parts of a text. */
module JsonRender {
  import opened Arith
  import opened JsonTree
  import opened JsonTokenizer
  import opened JsonLeaves

  /** A value together with the separators (blanks, commas, colons) that follow it. */
  datatype Doc =
    | Prim(text: string, gap: string)
    | Text(body: string, gap: string)
    | Cont(kind: Kind, lead: string, items: seq<Doc>, gap: string)

  predicate Separators(s: string) {
    forall i :: 0 <= i < |s| ==> s[i] in {' ', '\t', '\r', '\n', ',', ':'}
  }

  /** The text of the value alone. */
  function Core(d: Doc): (r: string)
    ensures |r| > 0 || (d.Prim? && d.text == "")
    decreases d, 0
  {
    match d
    case Prim(text, gap) => text
    case Text(body, gap) => "\"" + body + "\""
    case Cont(kind, lead, items, gap) =>
      if kind == Object then "{" + lead + Images(items) + "}" else "[" + lead + Images(items) + "]"
  }

  function Image(d: Doc): string
    decreases d, 1
  {
    Core(d) + d.gap
  }

  function Images(ds: seq<Doc>): string
    decreases ds, 2
  {
    if ds == [] then "" else Images(ds[..|ds| - 1]) + Image(ds[|ds| - 1])
  }

  /** The tree of a document whose text begins at p. */
  function Tree(d: Doc, p: nat): Node
    decreases d, 0
  {
    match d
    case Prim(text, gap) => Leaf(Primitive, p, p + |text|)
    case Text(body, gap) => Leaf(Str, p + 1, p + 1 + |body|)
    case Cont(kind, lead, items, gap) => Box(kind, p, p + |Core(d)|, Trees(items, p + 1 + |lead|))
  }

  function Trees(ds: seq<Doc>, p: nat): seq<Node>
    decreases ds, 1
  {
    if ds == [] then [] else
      var k := |ds| - 1;
      Trees(ds[..k], p) + [Tree(ds[k], p + |Images(ds[..k])|)]
  }

  /** A number, a truth value or null, as far as the tokenizer looks. */
  predicate IsPrim(s: string) {
    && s != "" && (s[0] in {'-', 't', 'f', 'n'} || '0' <= s[0] <= '9')
    && forall i :: 0 <= i < |s| ==> 32 <= s[i] as int < 127 && s[i] !in {' ', ',', ']', '}'}
  }

  /** The inside of a string: its escapes are valid, and it has no other quote. */
  ghost predicate IsString(s: string) {
    EndsString(s + "\"", |s| + 1, 0, |s|)
  }

  /** What may follow a primitive directly. */
  predicate Delimits(c: char) {
    c in {' ', '\t', '\r', '\n', ',', ']', '}'}
  }

  /** A document whose text is as it should be: a primitive is followed by something that delimits it. */
  ghost predicate Proper(d: Doc)
    decreases d, 0
  {
    && Separators(d.gap)
    && match d
       case Prim(text, gap) => IsPrim(text) && (gap != "" ==> Delimits(gap[0]))
       case Text(body, gap) => IsString(body)
       case Cont(kind, lead, items, gap) => (kind == Object || kind == Array) && Separators(lead) && ProperAll(items)
  }

  ghost predicate ProperAll(ds: seq<Doc>)
    decreases ds, 1
  {
    ds == [] || (
      var k := |ds| - 1;
      Proper(ds[k]) && ProperAll(ds[..k]) && (k > 0 && ds[k - 1].Prim? ==> ds[k - 1].gap != ""))
  }

  /** The number of tokens. */
  function Size(d: Doc): (r: nat)
    ensures r > 0
    decreases d, 0
  {
    if d.Cont? then 1 + SizeAll(d.items) else 1
  }

  function SizeAll(ds: seq<Doc>): nat
    decreases ds, 1
  {
    if ds == [] then 0 else SizeAll(ds[..|ds| - 1]) + Size(ds[|ds| - 1])
  }

  lemma {:induction false} TreeSize(d: Doc, p: nat)
    ensures |Flat(Tree(d, p))| == Size(d)
    decreases d, 0
  {
    if d.Cont? { TreesSize(d.items, p + 1 + |d.lead|); }
  }

  lemma TreesSnoc(ds: seq<Doc>, p: nat)
    requires ds != []
    ensures var k := |ds| - 1;
      Trees(ds, p) == Trees(ds[..k], p) + [Tree(ds[k], p + |Images(ds[..k])|)]
  {
  }

  lemma SizeSnoc(ds: seq<Doc>)
    requires ds != []
    ensures SizeAll(ds) == SizeAll(ds[..|ds| - 1]) + Size(ds[|ds| - 1])
  {
  }

  lemma NoTrees(p: nat)
    ensures |FlatForest(Trees([], p))| == SizeAll([]) == 0
  {
    EmptyForest();
  }

  lemma FlatSize(ns: seq<Node>, n: Node)
    ensures |FlatForest(ns + [n])| == |FlatForest(ns)| + |Flat(n)|
  {
    hide FlatForest, Flat;
    FlatSnoc(ns, n);
  }

  lemma {:induction false} TreesSize(ds: seq<Doc>, p: nat)
    ensures |FlatForest(Trees(ds, p))| == SizeAll(ds)
    decreases ds, 1
  {
    hide *;
    if ds == [] {
      NoTrees(p);
    } else {
      var k := |ds| - 1;
      var q := p + |Images(ds[..k])|;
      TreesSize(ds[..k], p);
      TreeSize(ds[k], q);
      TreesSnoc(ds, p);
      FlatSize(Trees(ds[..k], p), Tree(ds[k], q));
      SizeSnoc(ds);
    }
  }

  // ----- the run over a text

  /** The text js has s at p. */
  ghost predicate Has(js: string, p: nat, s: string) {
    p + |s| <= |js| && js[p..p + |s|] == s
  }

  lemma HasParts(js: string, p: nat, s: string, t: string)
    requires Has(js, p, s + t)
    ensures Has(js, p, s) && Has(js, p + |s|, t)
  {
    var u := s + t;
    assert u[..|s|] == s && u[|s|..] == t;
    assert js[p..p + |u|][..|s|] == js[p..p + |s|];
    assert js[p..p + |u|][|s|..] == js[p + |s|..p + |u|];
  }

  /** Separators change nothing. */
  lemma {:induction false} OverSeparators(js: string, len: nat, cap: nat, st: State, p: nat, s: string)
    requires Separators(s) && Has(js, p, s) && p + |s| <= len
    ensures RunFrom(js, len, cap, st, p) == RunFrom(js, len, cap, st, p + |s|)
    decreases |s|
  {
    hide RunFrom;
    if s != "" {
      assert s == s[..1] + s[1..];
      HasParts(js, p, s[..1], s[1..]);
      assert p < |js| && js[p] == s[0] by { HasFirst(js, p, s); }
      OneSeparator(js, len, cap, st, p);
      OverSeparators(js, len, cap, st, p + 1, s[1..]);
    }
  }

  lemma HasFirst(js: string, p: nat, s: string)
    requires Has(js, p, s) && s != ""
    ensures p < |js| && js[p] == s[0]
  {
    assert js[p] == js[p..p + |s|][0];
  }

  lemma OneSeparator(js: string, len: nat, cap: nat, st: State, p: nat)
    requires p < len && p < |js| && js[p] in {' ', '\t', '\r', '\n', ',', ':'}
    ensures RunFrom(js, len, cap, st, p) == RunFrom(js, len, cap, st, p + 1)
  {
    hide Tokens;
    assert !AtEnd(js, len, p) && IsBlank(js[p]);
    assert StepAt(js, len, cap, st, p) == Next(st, p + 1);
  }

  /** What follows the text of a document does not prolong it. */
  ghost predicate Follows(js: string, len: nat, d: Doc, q: nat) {
    d.Prim? && d.gap == "" ==> q < len && q < |js| && Delimits(js[q])
  }

  lemma OverPrim(js: string, len: nat, cap: nat, st: State, p: nat, text: string)
    requires IsPrim(text) && Has(js, p, text) && |Tokens(st)| < cap
    requires p + |text| < len && p + |text| < |js| && Delimits(js[p + |text|])
    ensures RunFrom(js, len, cap, st, p)
         == RunFrom(js, len, cap, Attach(st, Leaf(Primitive, p, p + |text|)), p + |text|)
  {
    hide Tokens, Attach;
    var q := p + |text|;
    assert forall i :: p <= i < q ==> js[i] == js[p..q][i - p];
    assert EndsRun(js, len, p, q);
    PrimitiveEndExact(js, len, p);
    assert js[p] == text[0];
    assert StepAt(js, len, cap, st, p) == Next(Attach(st, Leaf(Primitive, p, q)), q);
  }

  lemma OverString(js: string, len: nat, cap: nat, st: State, p: nat, body: string)
    requires IsString(body) && Has(js, p, "\"" + body + "\"") && p + |body| + 2 <= len && |Tokens(st)| < cap
    ensures RunFrom(js, len, cap, st, p)
         == RunFrom(js, len, cap, Attach(st, Leaf(Str, p + 1, p + 1 + |body|)), p + |body| + 2)
  {
    hide Tokens, Attach, StringEnd, EndsString;
    var q := p + 1 + |body|;
    assert "\"" + body + "\"" == "\"" + (body + "\"");
    HasParts(js, p, "\"", body + "\"");
    HasFirst(js, p, "\"");
    EndsThere(js, len, p + 1, body + "\"", |body|);
    StringEndExact(js, len, p + 1);
    assert StringEnd(js, len, p + 1) == Upto(q);
    assert StepAt(js, len, cap, st, p) == Next(Attach(st, Leaf(Str, p + 1, q)), q + 1);
  }

  lemma HasAt(js: string, p: nat, s: string, i: nat)
    requires Has(js, p, s) && i < |s|
    ensures p + i < |js| && js[p + i] == s[i]
  {
    assert js[p..p + |s|][i] == js[p + i];
  }

  lemma {:induction false} SlashesThere(js: string, p: nat, s: string, i: nat)
    requires Has(js, p, s) && i <= |s|
    ensures Slashes(js, p, p + i) == Slashes(s, 0, i)
  {
    if i > 0 {
      HasAt(js, p, s, i - 1);
      SlashesThere(js, p, s, i - 1);
    }
  }

  /** A string ends in the same place wherever it stands. */
  lemma EndsThere(js: string, len: nat, p: nat, s: string, n: nat)
    requires Has(js, p, s) && p + |s| <= len && EndsString(s, |s|, 0, n)
    ensures EndsString(js, len, p, p + n)
  {
    hide Has, BadEscape, Slashes;
    HasAt(js, p, s, n);
    forall i | p <= i <= p + n
      ensures i < |js| && js[i] == s[i - p] && (Free(js, p, i) <==> Free(s, 0, i - p))
    {
      HasAt(js, p, s, i - p);
      SlashesThere(js, p, s, i - p);
    }
    forall i | p <= i < p + n && Free(js, p, i) && js[i] == '\\'
      ensures !BadEscape(js, i)
    {
      EscapeThere(js, p, s, n, i - p);
    }
  }

  lemma EscapeThere(js: string, p: nat, s: string, n: nat, i: nat)
    requires Has(js, p, s) && EndsString(s, |s|, 0, n) && i < n && Free(s, 0, i) && s[i] == '\\'
    ensures !BadEscape(js, p + i)
  {
    hide Has, Free, SimpleEscape, IsHex;
    assert !BadEscape(s, i);
    HasAt(js, p, s, i + 1);
    if s[i + 1] == 'u' {
      forall at: nat | p + i + 2 <= at < p + i + 6
        ensures IsHex(At(js, at))
      {
        FourDigits(s, |s|, 0, n, i, at - (p + i + 2));
        HasAt(js, p, s, at - p);
      }
      DigitsThere(js, p + i + 2);
    }
  }

  lemma DigitsThere(js: string, p: nat)
    requires forall i: nat :: p <= i < p + 4 ==> IsHex(At(js, i))
    ensures !BadDigits(js, p, 4)
  {
    hide IsHex;
  }

  ghost function AttachAll(st: State, ns: seq<Node>): State {
    if ns == [] then st else Attach(AttachAll(st, ns[..|ns| - 1]), ns[|ns| - 1])
  }

  /** An open container with the children ns on top of the stack. */
  ghost function Holding(st: State, kind: Kind, p: nat, ns: seq<Node>): (r: State)
    ensures r.stack != [] && r.stack[|r.stack| - 1].kind == kind
  {
    st.(stack := st.stack + [Frame(kind, p, ns)])
  }

  /** Children collect in the innermost container, which closes to a node. */
  lemma {:induction false} AttachInside(st: State, kind: Kind, p: nat, ns: seq<Node>)
    ensures AttachAll(Open(st, kind, p), ns) == Holding(st, kind, p, ns)
  {
    if ns != [] {
      hide Attach, Open, Holding;
      var k := |ns| - 1;
      AttachInside(st, kind, p, ns[..k]);
      AttachOne(st, kind, p, ns[..k], ns[k]);
      assert ns == ns[..k] + [ns[k]];
    }
  }

  lemma AttachOne(st: State, kind: Kind, p: nat, ns: seq<Node>, n: Node)
    ensures Attach(Holding(st, kind, p, ns), n) == Holding(st, kind, p, ns + [n])
  {
    var mid := Holding(st, kind, p, ns);
    assert mid.stack[..|st.stack|] == st.stack;
  }

  lemma CloseInside(st: State, kind: Kind, p: nat, ns: seq<Node>, end: nat)
    ensures Close(Holding(st, kind, p, ns), end) == Attach(st, Box(kind, p, end, ns))
  {
    var full := Holding(st, kind, p, ns);
    assert full.stack[..|st.stack|] == st.stack;
  }

  lemma OpenStep(js: string, len: nat, cap: nat, st: State, p: nat, kind: Kind)
    requires p < len && p < |js| && |Tokens(st)| < cap
    requires (kind == Object && js[p] == '{') || (kind == Array && js[p] == '[')
    ensures RunFrom(js, len, cap, st, p) == RunFrom(js, len, cap, Open(st, kind, p), p + 1)
  {
    hide Tokens, Open;
    assert StepAt(js, len, cap, st, p) == Next(Open(st, kind, p), p + 1);
  }

  lemma CloseStep(js: string, len: nat, cap: nat, st: State, p: nat, kind: Kind)
    requires p < len && p < |js| && st.stack != [] && st.stack[|st.stack| - 1].kind == kind
    requires (kind == Object && js[p] == '}') || (kind == Array && js[p] == ']')
    ensures RunFrom(js, len, cap, st, p) == RunFrom(js, len, cap, Close(st, p + 1), p + 1)
  {
    hide Tokens, Close;
    assert StepAt(js, len, cap, st, p) == Next(Close(st, p + 1), p + 1);
  }

  /** The run over the text of a document attaches its tree. */
  lemma {:induction false} OverDoc(js: string, len: nat, cap: nat, st: State, d: Doc, p: nat)
    requires Proper(d) && Has(js, p, Image(d)) && p + |Image(d)| <= len && Follows(js, len, d, p + |Image(d)|)
    requires |Tokens(st)| + Size(d) <= cap
    ensures RunFrom(js, len, cap, st, p) == RunFrom(js, len, cap, Attach(st, Tree(d, p)), p + |Image(d)|)
    decreases d, 0
  {
    hide RunFrom, Tokens, Attach, IsString, IsPrim;
    var q := p + |Core(d)|;
    HasParts(js, p, Core(d), d.gap);
    OverSeparators(js, len, cap, Attach(st, Tree(d, p)), q, d.gap);
    match d
    case Prim(text, gap) =>
      if gap != "" { assert js[q] == js[q..q + |gap|][0] == gap[0]; }
      OverPrim(js, len, cap, st, p, text);
    case Text(body, gap) =>
      OverString(js, len, cap, st, p, body);
    case Cont(kind, lead, items, gap) =>
      OverContainer(js, len, cap, st, d, p);
  }

  lemma {:induction false} OverContainer(js: string, len: nat, cap: nat, st: State, d: Doc, p: nat)
    requires d.Cont? && Proper(d) && Has(js, p, Core(d)) && p + |Core(d)| <= len && |Tokens(st)| + Size(d) <= cap
    ensures RunFrom(js, len, cap, st, p) == RunFrom(js, len, cap, Attach(st, Tree(d, p)), p + |Core(d)|)
    decreases d, 0, 0
  {
    hide RunFrom, Tokens, Attach, AttachAll, Holding, Open, Close, Core, Images, Has, Delimits, Separators;
    var inner := p + 1 + |d.lead|;
    var end := inner + |Images(d.items)|;
    ContainerParts(js, p, d);
    OpenStep(js, len, cap, st, p, d.kind);
    var st1 := Open(st, d.kind, p);
    assert |Tokens(st1)| == |Tokens(st)| + 1 by { OpenTokens(st, d.kind, p); BumpSize(Tokens(st), Top(st)); }
    OverSeparators(js, len, cap, st1, p + 1, d.lead);
    OverDocs(js, len, cap, st1, d.items, inner);
    var ns := Trees(d.items, inner);
    AttachInside(st, d.kind, p, ns);
    CloseStep(js, len, cap, AttachAll(st1, ns), end, d.kind);
    CloseInside(st, d.kind, p, ns, end + 1);
  }

  /** The brackets of a container and what lies between them. */
  lemma ContainerParts(js: string, p: nat, d: Doc)
    requires d.Cont? && (d.kind == Object || d.kind == Array) && Has(js, p, Core(d))
    ensures var inner := p + 1 + |d.lead|;
      var end := inner + |Images(d.items)|;
      && |Core(d)| == end + 1 - p && p < |js| && end < |js|
      && (if d.kind == Object then js[p] == '{' && js[end] == '}' else js[p] == '[' && js[end] == ']')
      && Delimits(js[end]) && Has(js, p + 1, d.lead) && Has(js, inner, Images(d.items))
  {
    var first := if d.kind == Object then "{" else "[";
    var last := if d.kind == Object then "}" else "]";
    var inner, body := p + 1 + |d.lead|, Images(d.items);
    var end := inner + |body|;
    assert Core(d) == first + (d.lead + (body + last));
    hide Images, Core;
    hide Has;
    HasParts(js, p, first, d.lead + (body + last));
    HasParts(js, p + 1, d.lead, body + last);
    HasParts(js, inner, body, last);
    HasFirst(js, p, first);
    HasFirst(js, end, last);
  }

  lemma BumpSize(ts: seq<Token>, i: int)
    requires -1 <= i < |ts|
    ensures |Bump(ts, i)| == |ts|
  {
  }

  lemma NoDocs(st: State, p: nat)
    ensures Images([]) == "" && SizeAll([]) == 0 && AttachAll(st, Trees([], p)) == st
  {
  }

  /** The last of several documents, and what comes before it. */
  lemma LastDoc(js: string, len: nat, ds: seq<Doc>, p: nat)
    requires ds != [] && ProperAll(ds) && Has(js, p, Images(ds)) && p + |Images(ds)| <= len
    ensures var k := |ds| - 1;
      var init, d, q := ds[..k], ds[k], p + |Images(ds[..k])|;
      && ProperAll(init) && Proper(d) && SizeAll(ds) == SizeAll(init) + Size(d)
      && Has(js, p, Images(init)) && Has(js, q, Image(d)) && q + |Image(d)| == p + |Images(ds)|
      && (init != [] ==> Follows(js, len, init[k - 1], q))
  {
    hide Has, Proper, Image;
    var k := |ds| - 1;
    HasParts(js, p, Images(ds[..k]), Image(ds[k]));
  }

  lemma {:induction false} OverDocs(js: string, len: nat, cap: nat, st: State, ds: seq<Doc>, p: nat)
    requires ProperAll(ds) && Has(js, p, Images(ds)) && p + |Images(ds)| <= len
    requires ds != [] ==> Follows(js, len, ds[|ds| - 1], p + |Images(ds)|)
    requires |Tokens(st)| + SizeAll(ds) <= cap
    ensures RunFrom(js, len, cap, st, p) == RunFrom(js, len, cap, AttachAll(st, Trees(ds, p)), p + |Images(ds)|)
    ensures |Tokens(AttachAll(st, Trees(ds, p)))| == |Tokens(st)| + SizeAll(ds)
    decreases ds, 1
  {
    hide *;
    if ds == [] {
      NoDocs(st, p);
    } else {
      var k := |ds| - 1;
      var init, d, q := ds[..k], ds[k], p + |Images(ds[..k])|;
      LastDoc(js, len, ds, p);
      OverDocs(js, len, cap, st, init, p);
      var st1 := AttachAll(st, Trees(init, p));
      OverDoc(js, len, cap, st1, d, q);
      AttachLast(st, ds, p);
      AttachedSize(st1, d, q);
    }
  }

  lemma AttachLast(st: State, ds: seq<Doc>, p: nat)
    requires ds != []
    ensures var k := |ds| - 1;
      AttachAll(st, Trees(ds, p)) == Attach(AttachAll(st, Trees(ds[..k], p)), Tree(ds[k], p + |Images(ds[..k])|))
  {
    hide Attach;
    var k := |ds| - 1;
    var ns, t := Trees(ds[..k], p), Tree(ds[k], p + |Images(ds[..k])|);
    TreesSnoc(ds, p);
    assert (ns + [t])[..|ns|] == ns;
  }

  lemma AttachedSize(st: State, d: Doc, p: nat)
    ensures |Tokens(Attach(st, Tree(d, p)))| == |Tokens(st)| + Size(d)
  {
    hide Tokens, Attach, Tree, Flat;
    AttachTokens(st, Tree(d, p));
    BumpSize(Tokens(st), Top(st));
    TreeSize(d, p);
  }

  /** Tokenising a text that consists of one document, with separators around it, succeeds if there are enough
      tokens, and leaves exactly the document's tree. */
  lemma TokenisesDocument(lead: string, d: Doc, cap: nat)
    requires Separators(lead) && Proper(d) && (d.Prim? ==> d.gap != "") && Size(d) <= cap
    ensures var js := lead + Image(d);
      var r := RunFrom(js, |js|, cap, State([], []), 0);
      r == Run(State([], [Tree(d, |lead|)]), |js|, None) && |Tokens(r.st)| == Size(d)
  {
    hide Tokens, Attach, StepAt, RunFrom, Tree, Image, Proper, Separators, Size;
    var js, st := lead + Image(d), State([], []);
    assert js[0..|js|] == js;
    HasParts(js, 0, lead, Image(d));
    OverSeparators(js, |js|, cap, st, 0, lead);
    EmptyForest();
    OverDoc(js, |js|, cap, st, d, |lead|);
    var t := Tree(d, |lead|);
    RootTree(t);
    TreeSize(d, |lead|);
    AtTheEnd(js, cap, [t]);
  }

  lemma AtTheEnd(js: string, cap: nat, roots: seq<Node>)
    ensures RunFrom(js, |js|, cap, State([], roots), |js|) == Run(State([], roots), |js|, None)
  {
    hide StepAt;
  }

  lemma RootTree(t: Node)
    ensures Attach(State([], []), t) == State([], [t]) && Tokens(State([], [t])) == Flat(t)
  {
    FlatSnoc([], t);
    EmptyForest();
    assert [] + [t] == [t];
  }

  /** The text {"\n":1} followed by a line feed; the string is an escape. */
  lemma Example()
    ensures var d := Cont(Object, "", [Text("\\n", ":"), Prim("1", "")], "\n");
      Proper(d) && Size(d) == 3 && Image(d) == "{\"\\n\":1}\n"
  {
    var items := [Text("\\n", ":"), Prim("1", "")];
    EscapedLetter();
    assert items[..1] == [Text("\\n", ":")] && [Text("\\n", ":")][..0] == [];
    assert Images(items[..1]) == "\"\\n\":" && SizeAll(items[..1]) == 1 && ProperAll(items[..1]);
    assert Images(items) == "\"\\n\":1" && SizeAll(items) == 2 && ProperAll(items);
  }

  lemma EscapedLetter()
    ensures IsString("\\n")
  {
    var s := "\\n\"";
    assert "\\n" + "\"" == s && s[0] == '\\' && s[1] == 'n' && s[2] == '\"';
    assert Slashes(s, 0, 0) == 0 && Slashes(s, 0, 1) == 1 && Slashes(s, 0, 2) == 0;
    assert !BadEscape(s, 0);
  }
}
