/** The JSON tokenizer in its strict build: a flat token array filled in one pass, where the open
    containers are found again by scanning the array backwards. */
module JsonTokenizer {
  import opened Arith
  import opened JsonTree

  datatype Error = NoMem | Invalid | Partial

  datatype Result = Used(count: int) | Err(error: Error)

  // ----- the text: NUL-terminated, so reading may run one past the last character

  function At(js: string, p: nat): char {
    if p < |js| then js[p] else '\0'
  }

  predicate AtEnd(js: string, len: nat, p: nat) {
    p >= len || At(js, p) == '\0'
  }

  /** Where a leaf ends, or why it does not. */
  datatype Lexed = Upto(end: nat) | Fail(e: Error)

  predicate EndsPrimitive(c: char) {
    c == '\t' || c == '\r' || c == '\n' || c == ' ' || c == ',' || c == ']' || c == '}'
  }

  /** A primitive runs up to the first delimiter, over printable characters only. */
  ghost function PrimitiveEnd(js: string, len: nat, p: nat): (r: Lexed)
    ensures r.Upto? ==> p <= r.end < len && r.end < |js| && EndsPrimitive(js[r.end])
    ensures r.Upto? ==> forall i :: p <= i < r.end ==> 32 <= js[i] as int < 127 && !EndsPrimitive(js[i])
    decreases |js| - p
  {
    if AtEnd(js, len, p) then Fail(Partial)
    else if EndsPrimitive(js[p]) then Upto(p)
    else if js[p] as int < 32 || js[p] as int >= 127 then Fail(Invalid)
    else PrimitiveEnd(js, len, p + 1)
  }

  predicate SimpleEscape(c: char) {
    c == '\"' || c == '/' || c == '\\' || c == 'b' || c == 'f' || c == 'r' || c == 'n' || c == 't'
  }

  predicate IsHex(c: char) {
    '0' <= c <= '9' || 'A' <= c <= 'F' || 'a' <= c <= 'f'
  }

  /** The position after at most n hexadecimal digits; the end of the text cuts them short. */
  ghost function HexEnd(js: string, p: nat, n: nat): (r: Option<nat>)
    ensures r.Some? ==> p <= r.value && (p <= |js| ==> r.value <= |js|)
    decreases n
  {
    if n == 0 || At(js, p) == '\0' then Some(p)
    else if IsHex(At(js, p)) then HexEnd(js, p + 1, n - 1)
    else None
  }

  /** The position of the quote that ends the string whose next character is at p. */
  ghost function StringEnd(js: string, len: nat, p: nat): (r: Lexed)
    ensures r.Upto? ==> p <= r.end < len && r.end < |js| && js[r.end] == '\"'
    decreases |js| - p
  {
    if AtEnd(js, len, p) then Fail(Partial)
    else if js[p] == '\"' then Upto(p)
    else if js[p] != '\\' then StringEnd(js, len, p + 1)
    else if SimpleEscape(At(js, p + 1)) then StringEnd(js, len, p + 2)
    else if At(js, p + 1) != 'u' then Fail(Invalid)
    else match HexEnd(js, p + 2, 4)
      case None => Fail(Invalid)
      case Some(q) => StringEnd(js, len, q)
  }

  // ----- the reference: an explicit stack of open containers

  datatype Frame = Frame(kind: Kind, start: nat, kids: seq<Node>)

  datatype State = State(stack: seq<Frame>, roots: seq<Node>)

  /** Attaches a finished node to the innermost open container. */
  ghost function Attach(st: State, n: Node): State {
    if st.stack == [] then st.(roots := st.roots + [n]) else
      var k := |st.stack| - 1;
      st.(stack := st.stack[..k] + [st.stack[k].(kids := st.stack[k].kids + [n])])
  }

  ghost function Open(st: State, kind: Kind, p: nat): State {
    st.(stack := st.stack + [Frame(kind, p, [])])
  }

  /** Closes the innermost container. */
  ghost function Close(st: State, end: nat): State
    requires st.stack != []
  {
    var f := st.stack[|st.stack| - 1];
    Attach(st.(stack := st.stack[..|st.stack| - 1]), Box(f.kind, f.start, end, f.kids))
  }

  datatype Step = Next(st: State, pos: nat) | Stop(e: Error)

  predicate IsBlank(c: char) {
    c == '\t' || c == '\r' || c == '\n' || c == ':' || c == ',' || c == ' '
  }

  predicate StartsPrimitive(c: char) {
    c == '-' || '0' <= c <= '9' || c == 't' || c == 'f' || c == 'n'
  }

  /** What one pass of the main loop does at position p, with room for `cap` tokens. */
  ghost function StepAt(js: string, len: nat, cap: nat, st: State, p: nat): (r: Step)
    requires !AtEnd(js, len, p)
    ensures r.Next? ==> p < r.pos <= len && r.pos <= |js|
  {
    var full := |Tokens(st)| >= cap;
    var c := js[p];
    if c == '{' || c == '[' then
      if full then Stop(NoMem) else Next(Open(st, if c == '{' then Object else Array, p), p + 1)
    else if c == '}' || c == ']' then
      if st.stack == [] || st.stack[|st.stack| - 1].kind != (if c == '}' then Object else Array) then Stop(Invalid)
      else Next(Close(st, p + 1), p + 1)
    else if c == '\"' then
      match StringEnd(js, len, p + 1)
      case Fail(e) => Stop(e)
      case Upto(q) => if full then Stop(NoMem) else Next(Attach(st, Leaf(Str, p + 1, q)), q + 1)
    else if IsBlank(c) then Next(st, p + 1)
    else if StartsPrimitive(c) then
      match PrimitiveEnd(js, len, p)
      case Fail(e) => Stop(e)
      case Upto(q) => if full then Stop(NoMem) else Next(Attach(st, Leaf(Primitive, p, q)), q)
    else Stop(Invalid)
  }

  datatype Run = Run(st: State, pos: nat, error: Option<Error>)

  /** The whole run; an error leaves the state as it was before the failing step. */
  ghost function RunFrom(js: string, len: nat, cap: nat, st: State, p: nat): Run
    decreases |js| - p
  {
    if AtEnd(js, len, p) then Run(st, p, if st.stack == [] then None else Some(Partial))
    else match StepAt(js, len, cap, st, p)
      case Stop(e) => Run(st, p, Some(e))
      case Next(st', p') => RunFrom(js, len, cap, st', p')
  }

  // ----- the token array that stands for a state

  ghost function FrameTokens(f: Frame, extra: nat): (r: seq<Token>)
    ensures |r| == 1 + |FlatForest(f.kids)|
  {
    [Token(f.kind, f.start, -1, |f.kids| + extra)] + FlatForest(f.kids)
  }

  /** Open containers that have a further open container in them. */
  ghost function Below(fs: seq<Frame>): seq<Token> {
    if fs == [] then [] else Below(fs[..|fs| - 1]) + FrameTokens(fs[|fs| - 1], 1)
  }

  ghost function Tokens(st: State): seq<Token> {
    FlatForest(st.roots) +
    if st.stack == [] then [] else
      var k := |st.stack| - 1;
      Below(st.stack[..k]) + FrameTokens(st.stack[k], 0)
  }

  /** The index of the innermost open container, or -1. */
  ghost function Top(st: State): (r: int)
    ensures -1 <= r < |Tokens(st)| && (r == -1 <==> st.stack == [])
    ensures st.stack != [] ==> Tokens(st)[r].kind == st.stack[|st.stack| - 1].kind
  {
    if st.stack == [] then -1 else
      var k := |st.stack| - 1;
      |FlatForest(st.roots)| + |Below(st.stack[..k])|
  }

  predicate IsOpen(t: Token) {
    t.start != -1 && t.end == -1
  }

  /** i is what a backward scan from m - 1 finds. */
  ghost predicate LastOpen(ts: seq<Token>, m: nat, i: int)
    requires m <= |ts|
  {
    -1 <= i < m && (i >= 0 ==> IsOpen(ts[i])) && forall j :: i < j < m ==> !IsOpen(ts[j])
  }

  /** The backward scan finds the top of the stack. */
  lemma ScanFindsTop(st: State)
    ensures LastOpen(Tokens(st), |Tokens(st)|, Top(st))
  {
    if st.stack != [] {
      var f := st.stack[|st.stack| - 1];
      var low := FlatForest(st.roots) + Below(st.stack[..|st.stack| - 1]);
      assert Tokens(st) == low + [Token(f.kind, f.start, -1, |f.kids|)] + FlatForest(f.kids);
    }
  }

  /** One more child for token i, if there is one. */
  ghost function Bump(ts: seq<Token>, i: int): seq<Token>
    requires -1 <= i < |ts|
  {
    if i == -1 then ts else ts[i := ts[i].(size := ts[i].size + 1)]
  }

  /** The tokens below the top container's. */
  ghost function Low(st: State): seq<Token>
    requires st.stack != []
  {
    FlatForest(st.roots) + Below(st.stack[..|st.stack| - 1])
  }

  lemma TopToken(st: State)
    requires st.stack != []
    ensures var f := st.stack[|st.stack| - 1];
      && Top(st) == |Low(st)| && Tokens(st) == Low(st) + FrameTokens(f, 0)
      && Bump(Tokens(st), Top(st)) == Low(st) + FrameTokens(f, 1)
  {
  }

  lemma EmptyForest()
    ensures FlatForest([]) == [] && Tokens(State([], [])) == []
  {
  }

  lemma OpenTokens(st: State, kind: Kind, p: nat)
    ensures Tokens(Open(st, kind, p)) == Bump(Tokens(st), Top(st)) + [Token(kind, p, -1, 0)]
    ensures Top(Open(st, kind, p)) == |Tokens(st)|
  {
    hide FlatForest;
    var after := Open(st, kind, p);
    assert after.stack[..|st.stack|] == st.stack;
    assert FlatForest([]) == [] by { EmptyForest(); }
    if st.stack != [] { TopToken(st); }
    assert Low(after) == Bump(Tokens(st), Top(st));
    TopToken(after);
  }

  lemma AttachTokens(st: State, n: Node)
    ensures Tokens(Attach(st, n)) == Bump(Tokens(st), Top(st)) + Flat(n)
    ensures Top(Attach(st, n)) == Top(st)
  {
    hide FlatForest, Flat, Below;
    if st.stack == [] {
      FlatSnoc(st.roots, n);
    } else {
      AttachToFrame(st, n);
    }
  }

  lemma AttachToFrame(st: State, n: Node)
    requires st.stack != []
    ensures Tokens(Attach(st, n)) == Bump(Tokens(st), Top(st)) + Flat(n)
    ensures Top(Attach(st, n)) == Top(st)
  {
    hide FlatForest, Flat, Below;
    var k := |st.stack| - 1;
    var f := st.stack[k];
    FlatSnoc(f.kids, n);
    assert Attach(st, n).stack[..k] == st.stack[..k];
    TopToken(st);
    TopToken(Attach(st, n));
    assert FrameTokens(f.(kids := f.kids + [n]), 0) == FrameTokens(f, 1) + Flat(n);
    hide Tokens, Top, Bump, FrameTokens;
  }

  /** Closing only fills in the end of the top container's token. */
  lemma CloseTokens(st: State, end: nat)
    requires st.stack != []
    ensures Tokens(Close(st, end)) == Tokens(st)[Top(st) := Tokens(st)[Top(st)].(end := end)]
    ensures Top(Close(st, end)) < Top(st)
  {
    hide FlatForest, Below;
    var k := |st.stack| - 1;
    var f := st.stack[k];
    var popped := st.(stack := st.stack[..k]);
    var n := Box(f.kind, f.start, end, f.kids);
    AttachTokens(popped, n);
    PoppedTokens(st);
    TopToken(st);
    hide Tokens, Top, Bump;
    assert Tokens(Close(st, end)) == Low(st) + Flat(n);
    assert Flat(n) == FrameTokens(f, 0)[0 := FrameTokens(f, 0)[0].(end := end)];
  }

  lemma PoppedTokens(st: State)
    requires st.stack != []
    ensures var popped := st.(stack := st.stack[..|st.stack| - 1]);
      Bump(Tokens(popped), Top(popped)) == Low(st) && Top(popped) < |Low(st)|
  {
    var k := |st.stack| - 1;
    if k > 0 { TopToken(st.(stack := st.stack[..k])); }
  }

  // ----- every state the run passes through is placed in the text read so far

  ghost predicate PlacedState(js: string, roots: seq<Node>, stack: seq<Frame>, p: nat)
    decreases |stack|
  {
    if stack == [] then PlacedForest(js, roots, 0, p) else
      var f := stack[|stack| - 1];
      && f.start < p <= |js| && IsOpening(f.kind, js[f.start])
      && PlacedForest(js, f.kids, f.start + 1, p) && PlacedState(js, roots, stack[..|stack| - 1], f.start)
  }

  lemma PlacedLater(js: string, st: State, p: nat, q: nat)
    requires PlacedState(js, st.roots, st.stack, p) && p <= q <= |js|
    ensures PlacedState(js, st.roots, st.stack, q)
  {
    if st.stack == [] {
      PlacedWider(js, st.roots, 0, p, q);
    } else {
      var f := st.stack[|st.stack| - 1];
      PlacedWider(js, f.kids, f.start + 1, p, q);
    }
  }

  lemma PlacedAttach(js: string, st: State, n: Node, q: nat)
    requires PlacedState(js, st.roots, st.stack, n.start) && Placed(js, n, n.start, q)
    ensures PlacedState(js, Attach(st, n).roots, Attach(st, n).stack, q)
  {
    hide PlacedForest, Placed;
    if st.stack == [] {
      NodeFrom(js, n, 0, q);
      PlacedSnoc(js, st.roots, n, 0, q);
    } else {
      var k := |st.stack| - 1;
      var f := st.stack[k];
      assert q <= |js| by { NodeFrom(js, n, n.start, q); }
      NodeFrom(js, n, f.start + 1, q);
      PlacedSnoc(js, f.kids, n, f.start + 1, q);
      assert Attach(st, n).stack[..k] == st.stack[..k];
    }
  }

  lemma NodeFrom(js: string, n: Node, lo: nat, hi: nat)
    requires Placed(js, n, n.start, hi) && lo <= n.start
    ensures Placed(js, n, lo, hi) && n.start < hi <= |js|
  {
  }

  lemma PlacedStep(js: string, len: nat, cap: nat, st: State, p: nat)
    requires !AtEnd(js, len, p) && PlacedState(js, st.roots, st.stack, p) && StepAt(js, len, cap, st, p).Next?
    ensures var r := StepAt(js, len, cap, st, p); PlacedState(js, r.st.roots, r.st.stack, r.pos)
  {
    hide PlacedForest, PlacedState;
    var r := StepAt(js, len, cap, st, p);
    var c := js[p];
    if c == '{' || c == '[' {
      PlacedOpen(js, st, if c == '{' then Object else Array, p);
    } else if c == '}' || c == ']' {
      PlacedClose(js, st, p);
    } else if c == '\"' {
      PlacedLater(js, st, p, p + 1);
      PlacedAttach(js, st, Leaf(Str, p + 1, r.pos - 1), r.pos);
    } else if IsBlank(c) {
      PlacedLater(js, st, p, p + 1);
    } else {
      PlacedAttach(js, st, Leaf(Primitive, p, r.pos), r.pos);
    }
  }

  lemma PlacedOpen(js: string, st: State, kind: Kind, p: nat)
    requires p < |js| && PlacedState(js, st.roots, st.stack, p) && IsOpening(kind, js[p])
    ensures PlacedState(js, st.roots, Open(st, kind, p).stack, p + 1)
  {
    assert Open(st, kind, p).stack[..|st.stack|] == st.stack;
  }

  lemma PlacedClose(js: string, st: State, p: nat)
    requires p < |js| && st.stack != [] && PlacedState(js, st.roots, st.stack, p)
    requires IsClosing(st.stack[|st.stack| - 1].kind, js[p])
    ensures PlacedState(js, Close(st, p + 1).roots, Close(st, p + 1).stack, p + 1)
  {
    var k := |st.stack| - 1;
    var f := st.stack[k];
    PlacedAttach(js, st.(stack := st.stack[..k]), Box(f.kind, f.start, p + 1, f.kids), p + 1);
  }

  lemma {:induction false} PlacedRun(js: string, len: nat, cap: nat, st: State, p: nat)
    requires PlacedState(js, st.roots, st.stack, p)
    ensures var r := RunFrom(js, len, cap, st, p); PlacedState(js, r.st.roots, r.st.stack, r.pos)
    decreases |js| - p
  {
    if !AtEnd(js, len, p) {
      var s := StepAt(js, len, cap, st, p);
      if s.Next? {
        PlacedStep(js, len, cap, st, p);
        PlacedRun(js, len, cap, s.st, s.pos);
      }
    }
  }

  /** A successful run from the start leaves a token array that is a forest. */
  lemma SuccessIsForest(js: string, len: nat, cap: nat)
    requires RunFrom(js, len, cap, State([], []), 0).error == None
    ensures var r := RunFrom(js, len, cap, State([], []), 0);
      r.st.stack == [] && r.pos <= |js| && IsForest(js, Tokens(r.st), 0, r.pos, |r.st.roots|)
  {
    var r := RunFrom(js, len, cap, State([], []), 0);
    RunEnds(js, len, cap, State([], []), 0);
    PlacedRun(js, len, cap, State([], []), 0);
    PlacedIsForest(js, r.st.roots, 0, r.pos);
    assert Tokens(r.st) == FlatForest(r.st.roots);
  }

  // ----- every character is accounted for

  /** The token owns character i: it is one of a container's two brackets, or lies in a leaf, or is one of a
      string's two quotes. */
  predicate Owns(t: Token, i: int) {
    match t.kind
    case Object => i == t.start || i == t.end - 1
    case Array => i == t.start || i == t.end - 1
    case Primitive => t.start <= i < t.end
    case Str => t.start - 1 <= i <= t.end
  }

  ghost predicate Owned(ts: seq<Token>, i: int) {
    exists k :: 0 <= k < |ts| && Owns(ts[k], i)
  }

  /** Every character before p is a blank or owned by a token. */
  ghost predicate Accounted(js: string, ts: seq<Token>, p: nat) {
    p <= |js| && forall i :: 0 <= i < p ==> IsBlank(js[i]) || Owned(ts, i)
  }

  /** No token loses a character. */
  ghost predicate Keeps(ts: seq<Token>, us: seq<Token>) {
    |ts| <= |us| && forall k, i :: 0 <= k < |ts| && 0 <= i && Owns(ts[k], i) ==> Owns(us[k], i)
  }

  /** More characters, which the last or a changed token owns. */
  lemma AccountedMore(js: string, ts: seq<Token>, us: seq<Token>, k: nat, p: nat, q: nat)
    requires Accounted(js, ts, p) && Keeps(ts, us) && k < |us| && p <= q <= |js|
    requires forall i :: p <= i < q ==> Owns(us[k], i)
    ensures Accounted(js, us, q)
  {
    forall i | 0 <= i < q
      ensures IsBlank(js[i]) || Owned(us, i)
    {
      if i < p && !IsBlank(js[i]) {
        var j :| 0 <= j < |ts| && Owns(ts[j], i);
        assert Owns(us[j], i);
      } else if i >= p {
        assert Owns(us[k], i);
      }
    }
  }

  lemma BumpKeeps(ts: seq<Token>, top: int, t: Token)
    requires -1 <= top < |ts|
    ensures Keeps(ts, Bump(ts, top) + [t])
  {
    var us := Bump(ts, top) + [t];
    assert forall k :: 0 <= k < |ts| ==> us[k] == ts[k] || us[k] == ts[k].(size := ts[k].size + 1);
  }

  lemma CloseKeeps(ts: seq<Token>, top: nat, end: nat)
    requires top < |ts| && ts[top].end == -1 && (ts[top].kind == Object || ts[top].kind == Array)
    ensures Keeps(ts, ts[top := ts[top].(end := end)])
  {
  }

  lemma AccountedStep(js: string, len: nat, cap: nat, st: State, p: nat)
    requires !AtEnd(js, len, p) && Accounted(js, Tokens(st), p) && StepAt(js, len, cap, st, p).Next?
    ensures var r := StepAt(js, len, cap, st, p); Accounted(js, Tokens(r.st), r.pos)
  {
    hide Tokens, Top, Open, Attach, Close, Bump, Keeps, Accounted, StringEnd, PrimitiveEnd;
    var r := StepAt(js, len, cap, st, p);
    var c, ts := js[p], Tokens(st);
    if c == '{' || c == '[' {
      var t := Token(if c == '{' then Object else Array, p, -1, 0);
      OpenTokens(st, t.kind, p);
      Appended(js, st, t, p, p + 1);
    } else if c == '}' || c == ']' {
      AccountedClose(js, st, p);
    } else if c == '\"' {
      AttachTokens(st, Leaf(Str, p + 1, r.pos - 1));
      Appended(js, st, Token(Str, p + 1, r.pos - 1, 0), p, r.pos);
    } else if IsBlank(c) {
      AccountedBlank(js, ts, p);
    } else {
      AttachTokens(st, Leaf(Primitive, p, r.pos));
      Appended(js, st, Token(Primitive, p, r.pos, 0), p, r.pos);
    }
  }

  lemma Appended(js: string, st: State, t: Token, p: nat, q: nat)
    requires Accounted(js, Tokens(st), p) && p <= q <= |js| && forall i :: p <= i < q ==> Owns(t, i)
    ensures Accounted(js, Bump(Tokens(st), Top(st)) + [t], q)
  {
    hide Tokens, Top, Accounted, Keeps;
    var ts, us := Tokens(st), Bump(Tokens(st), Top(st)) + [t];
    BumpKeeps(ts, Top(st), t);
    assert us[|us| - 1] == t;
    AccountedMore(js, ts, us, |us| - 1, p, q);
  }

  lemma AccountedClose(js: string, st: State, p: nat)
    requires p < |js| && st.stack != [] && Accounted(js, Tokens(st), p)
    requires st.stack[|st.stack| - 1].kind == Object || st.stack[|st.stack| - 1].kind == Array
    ensures Accounted(js, Tokens(Close(st, p + 1)), p + 1)
  {
    hide Tokens, Top, Accounted, Keeps, Close;
    var ts, top := Tokens(st), Top(st);
    ScanFindsTop(st);
    CloseTokens(st, p + 1);
    CloseKeeps(ts, top, p + 1);
    var us := ts[top := ts[top].(end := p + 1)];
    AccountedMore(js, ts, us, top, p, p + 1);
  }

  lemma AccountedBlank(js: string, ts: seq<Token>, p: nat)
    requires p < |js| && IsBlank(js[p]) && Accounted(js, ts, p)
    ensures Accounted(js, ts, p + 1)
  {
  }

  lemma StartAccounted(js: string, len: nat, cap: nat)
    ensures var r := RunFrom(js, len, cap, State([], []), 0); Accounted(js, Tokens(r.st), r.pos)
  {
    hide RunFrom;
    AccountedRun(js, len, cap, State([], []), 0);
  }

  /** A run leaves no character of the text it has read unaccounted for. */
  lemma {:induction false} AccountedRun(js: string, len: nat, cap: nat, st: State, p: nat)
    requires Accounted(js, Tokens(st), p)
    ensures var r := RunFrom(js, len, cap, st, p); Accounted(js, Tokens(r.st), r.pos)
    decreases |js| - p
  {
    hide Accounted, Tokens, StepAt;
    if !AtEnd(js, len, p) {
      var s := StepAt(js, len, cap, st, p);
      if s.Next? {
        AccountedStep(js, len, cap, st, p);
        AccountedRun(js, len, cap, s.st, s.pos);
      }
    }
  }

  lemma RunEnds(js: string, len: nat, cap: nat, st: State, p: nat)
    requires p <= |js|
    ensures var r := RunFrom(js, len, cap, st, p);
      p <= r.pos <= |js| && (r.error == None ==> r.st.stack == [] && AtEnd(js, len, r.pos))
    decreases |js| - p
  {
  }

  // ----- the tokenizer itself

  class Parser {
    var pos: nat
    var toknext: nat
    var toksuper: int
    ghost var st: State

    /** The tokens used so far and the remembered parent are those of the explicit stack. */
    ghost predicate Valid(tokens: array<Token>)
      reads this, tokens
    {
      toknext <= tokens.Length && tokens[..toknext] == Tokens(st) && toksuper == Top(st)
    }

    constructor ()
      ensures pos == 0 && toknext == 0 && toksuper == -1 && st == State([], [])
    {
      pos, toknext, toksuper, st := 0, 0, -1, State([], []);
    }

    /** Scans a primitive; on success leaves pos on its last character. */
    method ParsePrimitive(js: string, len: nat, tokens: array<Token>) returns (r: Option<Error>)
      requires Valid(tokens) && !AtEnd(js, len, pos) && !EndsPrimitive(js[pos])
      modifies this`pos, this`toknext, tokens
      ensures match PrimitiveEnd(js, len, old(pos))
        case Fail(e) => r == Some(e) && Same(tokens, old(pos), old(toknext), old(tokens[..]))
        case Upto(q) =>
          if old(toknext) >= tokens.Length
          then r == Some(NoMem) && Same(tokens, old(pos), old(toknext), old(tokens[..]))
          else r == None && pos == q - 1 && toknext == old(toknext) + 1
               && tokens[..toknext] == old(tokens[..toknext]) + [Token(Primitive, old(pos), q, 0)]
    {
      var start := pos;
      while !AtEnd(js, len, pos) && !EndsPrimitive(js[pos])
        invariant start <= pos && PrimitiveEnd(js, len, pos) == PrimitiveEnd(js, len, start)
        invariant toknext == old(toknext) && tokens[..] == old(tokens[..])
        decreases |js| - pos
      {
        if js[pos] as int < 32 || js[pos] as int >= 127 {
          pos := start;
          return Some(Invalid);
        }
        pos := pos + 1;
      }
      if AtEnd(js, len, pos) {
        pos := start;
        return Some(Partial);
      }
      if toknext >= tokens.Length {
        pos := start;
        return Some(NoMem);
      }
      tokens[toknext] := Token(Primitive, start, pos, 0);
      toknext := toknext + 1;
      pos := pos - 1;
      return None;
    }

    ghost predicate Same(tokens: array<Token>, p: nat, n: nat, ts: seq<Token>)
      reads this, tokens
    {
      pos == p && toknext == n && tokens[..] == ts
    }

    /** Scans a string from its opening quote; on success leaves pos on the closing quote. */
    method ParseString(js: string, len: nat, tokens: array<Token>) returns (r: Option<Error>)
      requires Valid(tokens) && !AtEnd(js, len, pos)
      modifies this`pos, this`toknext, tokens
      ensures match StringEnd(js, len, old(pos) + 1)
        case Fail(e) => r == Some(e) && Same(tokens, old(pos), old(toknext), old(tokens[..]))
        case Upto(q) =>
          if old(toknext) >= tokens.Length
          then r == Some(NoMem) && Same(tokens, old(pos), old(toknext), old(tokens[..]))
          else r == None && pos == q && toknext == old(toknext) + 1
               && tokens[..toknext] == old(tokens[..toknext]) + [Token(Str, old(pos) + 1, q, 0)]
    {
      var start := pos;
      pos := pos + 1;
      while !AtEnd(js, len, pos)
        invariant start < pos <= |js| && StringEnd(js, len, pos) == StringEnd(js, len, start + 1)
        invariant toknext == old(toknext) && tokens[..] == old(tokens[..])
        decreases |js| - pos
      {
        var c := js[pos];
        if c == '\"' {
          if toknext >= tokens.Length {
            pos := start;
            return Some(NoMem);
          }
          tokens[toknext] := Token(Str, start + 1, pos, 0);
          toknext := toknext + 1;
          return None;
        }
        if c == '\\' {
          var ok := SkipEscape(js);
          if !ok {
            pos := start;
            return Some(Invalid);
          }
        }
        pos := pos + 1;
      }
      pos := start;
      return Some(Partial);
    }

    /** Moves from a backslash to the last character of the escape sequence. */
    method SkipEscape(js: string) returns (ok: bool)
      requires pos < |js| && js[pos] == '\\'
      modifies this`pos
      ensures ok <==> SimpleEscape(At(js, old(pos) + 1))
                      || (At(js, old(pos) + 1) == 'u' && HexEnd(js, old(pos) + 2, 4).Some?)
      ensures ok ==> old(pos) < pos < |js|
      ensures ok ==> pos + 1 == if At(js, old(pos) + 1) == 'u' then HexEnd(js, old(pos) + 2, 4).value else old(pos) + 2
    {
      pos := pos + 1;
      if At(js, pos) != 'u' {
        return SimpleEscape(At(js, pos));
      }
      pos := pos + 1;
      var i := 0;
      while i < 4 && At(js, pos) != '\0'
        invariant i <= 4 && old(pos) + 2 <= pos <= |js| && HexEnd(js, pos, 4 - i) == HexEnd(js, old(pos) + 2, 4)
      {
        if !IsHex(At(js, pos)) {
          return false;
        }
        pos := pos + 1;
        i := i + 1;
      }
      pos := pos - 1;
      return true;
    }

    /** One more child for the innermost open container, if there is one. */
    method CountChild(tokens: array<Token>)
      requires -1 <= toksuper < tokens.Length
      modifies tokens
      ensures tokens[..] == Bump(old(tokens[..]), toksuper)
    {
      if toksuper != -1 {
        tokens[toksuper] := tokens[toksuper].(size := tokens[toksuper].size + 1);
      }
    }

    method OpenBracket(c: char, tokens: array<Token>) returns (ok: bool)
      requires Valid(tokens) && (c == '{' || c == '[')
      modifies this`toknext, this`toksuper, this`st, tokens
      ensures Valid(tokens) && (ok <==> old(toknext) < tokens.Length)
      ensures ok ==> st == Open(old(st), if c == '{' then Object else Array, pos) && toknext == old(toknext) + 1
      ensures !ok ==> st == old(st) && toknext == old(toknext)
    {
      hide Tokens, Top, Open;
      if toknext >= tokens.Length {
        return false;
      }
      ghost var before := tokens[..toknext];
      var kind := if c == '{' then Object else Array;
      tokens[toknext] := tokens[toknext].(start := -1, end := -1, size := 0);
      toknext := toknext + 1;
      assert tokens[..toknext - 1] == before;
      CountChild(tokens);
      assert tokens[..toknext - 1] == Bump(before, toksuper);
      tokens[toknext - 1] := tokens[toknext - 1].(kind := kind, start := pos);
      toksuper := toknext - 1;
      OpenTokens(st, kind, pos);
      st := Open(st, kind, pos);
      assert tokens[..toknext] == tokens[..toknext - 1] + [tokens[toknext - 1]];
      return true;
    }

    /** The backward scan. */
    method FindOpen(tokens: array<Token>, m: nat) returns (i: int)
      requires m <= tokens.Length
      ensures LastOpen(tokens[..], m, i)
    {
      i := m - 1;
      while i >= 0 && !IsOpen(tokens[i])
        invariant -1 <= i < m && forall j :: i < j < m ==> !IsOpen(tokens[j])
      {
        i := i - 1;
      }
    }

    method CloseBracket(c: char, tokens: array<Token>) returns (ok: bool)
      requires Valid(tokens) && (c == '}' || c == ']')
      modifies this`toksuper, this`st, tokens
      ensures Valid(tokens)
      ensures ok <==> old(st).stack != []
                      && old(st).stack[|old(st).stack| - 1].kind == if c == '}' then Object else Array
      ensures st == if ok then Close(old(st), pos + 1) else old(st)
    {
      hide Tokens, Close;
      var kind := if c == '}' then Object else Array;
      ghost var ts := tokens[..toknext];
      var i := FindOpen(tokens, toknext);
      ScanFindsTop(st);
      assert i == Top(st);
      if i == -1 {
        return false;
      }
      assert tokens[i] == ts[i];
      if tokens[i].kind != kind {
        return false;
      }
      toksuper := -1;
      tokens[i] := tokens[i].(end := pos + 1);
      CloseTokens(st, pos + 1);
      st := Close(st, pos + 1);
      assert tokens[..toknext] == Tokens(st);
      ScanFindsTop(st);
      var k := FindOpen(tokens, i + 1);
      assert k == Top(st);
      if k >= 0 {
        toksuper := k;
      }
      return true;
    }

    /** A finished leaf has been appended: counts it as a child. */
    method AttachLeaf(tokens: array<Token>, ghost n: Node)
      requires n.Leaf? && 0 < toknext <= tokens.Length && toksuper == Top(st)
      requires tokens[..toknext] == Tokens(st) + Flat(n)
      modifies this`st, tokens
      ensures Valid(tokens) && st == Attach(old(st), n)
    {
      hide Tokens, Top, Flat, Attach;
      ghost var ts := Tokens(st);
      assert toksuper < |ts|;
      CountChild(tokens);
      assert tokens[..toknext] == Bump(ts + Flat(n), toksuper) == Bump(ts, toksuper) + Flat(n);
      AttachTokens(st, n);
      st := Attach(st, n);
    }

    /** Tokenizes from the current position. The token array, the position and the result are those
        of the run with an explicit stack; from a fresh parser a success returns the number of
        tokens used, and these form a forest. */
    method Parse(js: string, len: nat, tokens: array<Token>) returns (r: Result)
      requires Valid(tokens)
      modifies this, tokens
      ensures Valid(tokens)
      ensures var run := RunFrom(js, len, tokens.Length, old(st), old(pos));
        && st == run.st && pos == run.pos
        && r == if run.error.Some? then Err(run.error.value) else Used(toknext - old(toknext))
      ensures old(st) == State([], []) && old(pos) == 0 && r.Used? ==>
        (r.count == toknext && pos <= |js| && IsForest(js, tokens[..toknext], 0, pos, |st.roots|))
      ensures old(st) == State([], []) && old(pos) == 0 ==> Accounted(js, tokens[..toknext], pos)
      ensures r.Used? ==> AtEnd(js, len, pos)
    {
      hide StepAt, Tokens, Top, IsForest, Accounted;
      EmptyForest();
      if st == State([], []) && pos == 0 { StartAccounted(js, len, tokens.Length); }
      var count := 0;
      while !AtEnd(js, len, pos)
        invariant Valid(tokens) && toknext == old(toknext) + count
        invariant RunFrom(js, len, tokens.Length, st, pos) == RunFrom(js, len, tokens.Length, old(st), old(pos))
        decreases |js| - pos
      {
        var e, k := ParseOne(js, len, tokens);
        if e.Some? {
          return Err(e.value);
        }
        count := count + k;
        pos := pos + 1;
      }
      var i := FindOpen(tokens, toknext);
      ScanFindsTop(st);
      assert i == Top(st) by { assert forall j :: 0 <= j < toknext ==> tokens[j] == Tokens(st)[j]; }
      if i >= 0 {
        return Err(Partial);
      }
      r := Used(count);
      if old(st) == State([], []) && old(pos) == 0 { SuccessIsForest(js, len, tokens.Length); }
    }

    /** The body of the main loop; k is what it adds to the token count. */
    method ParseOne(js: string, len: nat, tokens: array<Token>) returns (error: Option<Error>, k: nat)
      requires Valid(tokens) && !AtEnd(js, len, pos)
      modifies this, tokens
      ensures Valid(tokens) && toknext == old(toknext) + k
      ensures match StepAt(js, len, tokens.Length, old(st), old(pos))
        case Stop(e) => error == Some(e) && st == old(st) && pos == old(pos)
        case Next(st', p') => error == None && st == st' && pos == p' - 1
    {
      hide Tokens, Top, Attach, Open, Close;
      var c := js[pos];
      k := 0;
      if c == '{' || c == '[' {
        var ok := OpenBracket(c, tokens);
        if !ok {
          return Some(NoMem), 0;
        }
        k := 1;
      } else if c == '}' || c == ']' {
        var ok := CloseBracket(c, tokens);
        if !ok {
          return Some(Invalid), 0;
        }
      } else if c == '\"' {
        error := ParseString(js, len, tokens);
        if error.Some? {
          return error, 0;
        }
        AttachLeaf(tokens, Leaf(Str, old(pos) + 1, pos));
        k := 1;
      } else if IsBlank(c) {
      } else if StartsPrimitive(c) {
        error := ParsePrimitive(js, len, tokens);
        if error.Some? {
          return error, 0;
        }
        AttachLeaf(tokens, Leaf(Primitive, old(pos), pos + 1));
        k := 1;
      } else {
        return Some(Invalid), 0;
      }
      error := None;
    }
  }
}
