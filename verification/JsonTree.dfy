/** Token forests: the trees a JSON text denotes, their preorder token list, and what can be read
    off that list alone. */
module JsonTree {
  datatype Kind = Primitive | Object | Array | Str

  /** A token as the tokenizer stores it; `end` is -1 while a container is still open. */
  datatype Token = Token(kind: Kind, start: int, end: int, size: int)

  datatype Node = Leaf(kind: Kind, start: nat, end: nat) | Box(kind: Kind, start: nat, end: nat, kids: seq<Node>)

  ghost function Flat(n: Node): (r: seq<Token>)
    ensures |r| > 0 && r[0].start == n.start && r[0].end == n.end
    ensures forall i :: 0 <= i < |r| ==> r[i].end >= 0
    decreases n, 0
  {
    match n
    case Leaf(kind, start, end) => [Token(kind, start, end, 0)]
    case Box(kind, start, end, kids) => [Token(kind, start, end, |kids|)] + FlatForest(kids)
  }

  ghost function FlatForest(ns: seq<Node>): (r: seq<Token>)
    ensures forall i :: 0 <= i < |r| ==> r[i].end >= 0
    decreases ns, 1
  {
    if ns == [] then [] else FlatForest(ns[..|ns| - 1]) + Flat(ns[|ns| - 1])
  }

  lemma FlatSnoc(ns: seq<Node>, n: Node)
    ensures FlatForest(ns + [n]) == FlatForest(ns) + Flat(n)
  {
    assert (ns + [n])[..|ns|] == ns;
  }

  // ----- where the nodes lie in the text

  predicate IsOpening(kind: Kind, c: char) {
    (kind == Object && c == '{') || (kind == Array && c == '[')
  }

  predicate IsClosing(kind: Kind, c: char) {
    (kind == Object && c == '}') || (kind == Array && c == ']')
  }

  /** The node lies in js[lo..hi]; a container runs from its bracket to a bracket of the same kind
      and its children lie between the two. */
  ghost predicate Placed(js: string, n: Node, lo: nat, hi: nat)
    decreases n, 0
  {
    && lo <= n.start < hi <= |js| && n.start <= n.end <= hi
    && (n.Leaf? ==> n.kind == Primitive || n.kind == Str)
    && (n.Box? ==> n.start + 2 <= n.end && IsOpening(n.kind, js[n.start]) && IsClosing(n.kind, js[n.end - 1])
                   && PlacedForest(js, n.kids, n.start + 1, n.end - 1))
  }

  /** The nodes lie in js[lo..hi], one after the other. */
  ghost predicate PlacedForest(js: string, ns: seq<Node>, lo: nat, hi: nat)
    decreases ns, 1
  {
    lo <= hi <= |js| && (ns != [] ==>
      var n := ns[|ns| - 1];
      Placed(js, n, lo, hi) && PlacedForest(js, ns[..|ns| - 1], lo, n.start))
  }

  lemma PlacedSnoc(js: string, ns: seq<Node>, n: Node, lo: nat, hi: nat)
    requires Placed(js, n, lo, hi) && PlacedForest(js, ns, lo, n.start)
    ensures PlacedForest(js, ns + [n], lo, hi)
  {
    assert (ns + [n])[..|ns|] == ns;
  }

  lemma PlacedWider(js: string, ns: seq<Node>, lo: nat, mid: nat, hi: nat)
    requires PlacedForest(js, ns, lo, mid) && mid <= hi <= |js|
    ensures PlacedForest(js, ns, lo, hi)
  {
  }

  // ----- what the flat token list says on its own

  /** a's span is strictly inside that of the container b. */
  predicate Inside(a: Token, b: Token) {
    (b.kind == Object || b.kind == Array) && b.start < a.start && a.end < b.end
  }

  /** j is a direct child of i: i is the nearest earlier token whose span encloses it. For i == -1:
      no earlier token's span encloses j. */
  ghost predicate Child(ts: seq<Token>, i: int, j: int)
    requires -1 <= i < |ts| && 0 <= j < |ts|
  {
    i < j && (i >= 0 ==> Inside(ts[j], ts[i])) && forall k :: i < k < j ==> !Inside(ts[j], ts[k])
  }

  /** The number of direct children of i among the first m tokens. */
  ghost function Count(ts: seq<Token>, i: int, m: nat): (r: nat)
    requires -1 <= i < |ts| && m <= |ts|
  {
    if m == 0 then 0 else Count(ts, i, m - 1) + if Child(ts, i, m - 1) then 1 else 0
  }

  /** Spans lie in js[lo..hi] and containers are delimited by brackets of their kind. */
  ghost predicate Spans(js: string, ts: seq<Token>, lo: nat, hi: nat) {
    hi <= |js| && forall i :: 0 <= i < |ts| ==>
      && lo <= ts[i].start < hi && ts[i].start <= ts[i].end <= hi
      && (ts[i].kind == Object || ts[i].kind == Array ==>
            ts[i].start + 2 <= ts[i].end
            && IsOpening(ts[i].kind, js[ts[i].start]) && IsClosing(ts[i].kind, js[ts[i].end - 1]))
  }

  /** Starts increase; two spans are disjoint or the later is inside the earlier. */
  ghost predicate Nested(ts: seq<Token>) {
    forall i, j :: 0 <= i < j < |ts| ==>
      ts[i].start < ts[j].start && (ts[i].end <= ts[j].start || Inside(ts[j], ts[i]))
  }

  /** Every size is the number of direct children. */
  ghost predicate Sized(ts: seq<Token>) {
    forall i :: 0 <= i < |ts| ==> Count(ts, i, |ts|) == ts[i].size
  }

  /** All of the above: the token list is the preorder listing of `roots` trees. */
  ghost predicate IsForest(js: string, ts: seq<Token>, lo: nat, hi: nat, roots: nat) {
    Spans(js, ts, lo, hi) && Nested(ts) && Sized(ts) && Count(ts, -1, |ts|) == roots
  }

  // ----- flattening placed trees gives such a list

  lemma {:induction false} CountInLeft(s: seq<Token>, t: seq<Token>, i: int, m: nat)
    requires -1 <= i < |s| && m <= |s|
    ensures Count(s + t, i, m) == Count(s, i, m)
  {
    if m > 0 {
      CountInLeft(s, t, i, m - 1);
      var u := s + t;
      assert forall k :: 0 <= k < m ==> u[k] == s[k];
      assert Child(u, i, m - 1) <==> Child(s, i, m - 1);
    }
  }

  ghost predicate Before(s: seq<Token>, t: seq<Token>) {
    forall i, j :: 0 <= i < |s| && 0 <= j < |t| ==> s[i].end <= t[j].start <= t[j].end
  }

  lemma {:induction false} CountAcross(s: seq<Token>, t: seq<Token>, i: int, m: nat)
    requires Before(s, t) && -1 <= i < |s| && m <= |t|
    ensures Count(s + t, i, |s| + m) == Count(s, i, |s|) + if i == -1 then Count(t, -1, m) else 0
  {
    if m == 0 {
      CountInLeft(s, t, i, |s|);
    } else {
      CountAcross(s, t, i, m - 1);
      ChildAcross(s, t, i, m - 1);
    }
  }

  lemma ChildAcross(s: seq<Token>, t: seq<Token>, i: int, m: nat)
    requires Before(s, t) && -1 <= i < |s| && m < |t|
    ensures Child(s + t, i, |s| + m) <==> i == -1 && Child(t, -1, m)
  {
    var u, j := s + t, |s| + m;
    assert u[j] == t[m];
    forall k | 0 <= k < |s|
      ensures !Inside(u[j], u[k])
    {
      assert u[k] == s[k];
    }
    if i == -1 {
      if Child(u, -1, j) {
        forall k | -1 < k < m ensures !Inside(t[m], t[k]) { assert u[|s| + k] == t[k]; }
      }
      if Child(t, -1, m) {
        forall k | -1 < k < j ensures !Inside(u[j], u[k]) { if k >= |s| { assert u[k] == t[k - |s|]; } }
      }
    }
  }

  lemma {:induction false} CountInRight(s: seq<Token>, t: seq<Token>, i: nat, m: nat)
    requires i < |t| && m <= |t|
    ensures Count(s + t, |s| + i, |s| + m) == Count(t, i, m)
  {
    var u := s + t;
    assert forall k :: 0 <= k < |t| ==> u[|s| + k] == t[k];
    if m == 0 {
      CountLow(u, |s| + i, |s|);
    } else {
      CountInRight(s, t, i, m - 1);
      if Child(t, i, m - 1) {
        forall k | |s| + i < k < |s| + m - 1
          ensures !Inside(u[|s| + m - 1], u[k])
        {
          assert u[k] == t[k - |s|];
        }
      }
      assert Child(u, |s| + i, |s| + m - 1) <==> Child(t, i, m - 1);
    }
  }

  lemma {:induction false} CountLow(ts: seq<Token>, i: nat, m: nat)
    requires i < |ts| && m <= i + 1
    ensures m <= |ts| && Count(ts, i, m) == 0
  {
    if m > 0 { CountLow(ts, i, m - 1); }
  }

  lemma AppendForest(js: string, s: seq<Token>, t: seq<Token>, lo: nat, mid: nat, hi: nat, m: nat, n: nat)
    requires lo <= mid <= hi && IsForest(js, s, lo, mid, m) && IsForest(js, t, mid, hi, n)
    ensures IsForest(js, s + t, lo, hi, m + n)
  {
    hide Count;
    AppendSpans(js, s, t, lo, mid, hi);
    AppendNested(js, s, t, lo, mid, hi);
    assert Before(s, t);
    AppendSized(s, t);
    CountAcross(s, t, -1, |t|);
  }

  lemma AppendSpans(js: string, s: seq<Token>, t: seq<Token>, lo: nat, mid: nat, hi: nat)
    requires lo <= mid <= hi && Spans(js, s, lo, mid) && Spans(js, t, mid, hi)
    ensures Spans(js, s + t, lo, hi)
  {
  }

  lemma AppendNested(js: string, s: seq<Token>, t: seq<Token>, lo: nat, mid: nat, hi: nat)
    requires lo <= mid <= hi && Spans(js, s, lo, mid) && Spans(js, t, mid, hi) && Nested(s) && Nested(t)
    ensures Nested(s + t)
  {
    var u := s + t;
    forall i, j | 0 <= i < j < |u|
      ensures u[i].start < u[j].start && (u[i].end <= u[j].start || Inside(u[j], u[i]))
    {
      if j < |s| {
        assert u[i] == s[i] && u[j] == s[j];
      } else if i >= |s| {
        assert u[i] == t[i - |s|] && u[j] == t[j - |s|];
      } else {
        assert u[i] == s[i] && u[j] == t[j - |s|];
      }
    }
  }

  lemma AppendSized(s: seq<Token>, t: seq<Token>)
    requires Before(s, t) && Sized(s) && Sized(t)
    ensures Sized(s + t)
  {
    hide Count, Before;
    var u := s + t;
    forall i | 0 <= i < |u|
      ensures Count(u, i, |u|) == u[i].size
    {
      if i < |s| { CountAcross(s, t, i, |t|); } else { CountInRight(s, t, i - |s|, |t|); }
    }
  }

  lemma {:induction false} CountWrapped(b: Token, t: seq<Token>, m: nat)
    requires m <= |t| && forall i :: 0 <= i < |t| ==> Inside(t[i], b)
    ensures Count([b] + t, 0, 1 + m) == Count(t, -1, m) && Count([b] + t, -1, 1 + m) == 1
  {
    var u := [b] + t;
    if m == 0 {
      assert Child(u, -1, 0) && !Child(u, 0, 0);
      assert Count(u, -1, 0) == 0 == Count(u, 0, 0);
    } else {
      CountWrapped(b, t, m - 1);
      assert forall k :: 0 <= k < |t| ==> u[1 + k] == t[k];
      assert Inside(u[m], u[0]);
      if Child(t, -1, m - 1) {
        forall k | 0 < k < m
          ensures !Inside(u[m], u[k])
        {
          assert u[k] == t[k - 1];
        }
      }
      assert Child(u, 0, m) <==> Child(t, -1, m - 1);
      assert !Child(u, -1, m);
    }
  }

  lemma WrapForest(js: string, b: Token, t: seq<Token>, lo: nat, hi: nat)
    requires lo <= b.start && b.start + 2 <= b.end <= hi <= |js| && (b.kind == Object || b.kind == Array)
    requires IsOpening(b.kind, js[b.start]) && IsClosing(b.kind, js[b.end - 1])
    requires b.size >= 0 && IsForest(js, t, b.start + 1, b.end - 1, b.size)
    ensures IsForest(js, [b] + t, lo, hi, 1)
  {
    hide Count;
    var u := [b] + t;
    CountWrapped(b, t, |t|);
    WrapNested(b, t);
    forall i | 0 <= i < |u|
      ensures Count(u, i, |u|) == u[i].size
    {
      if i > 0 { CountInRight([b], t, i - 1, |t|); }
    }
  }

  lemma WrapNested(b: Token, t: seq<Token>)
    requires Nested(t) && forall i :: 0 <= i < |t| ==> Inside(t[i], b)
    ensures Nested([b] + t)
  {
    var u := [b] + t;
    forall i, j | 0 <= i < j < |u|
      ensures u[i].start < u[j].start && (u[i].end <= u[j].start || Inside(u[j], u[i]))
    {
      assert u[j] == t[j - 1] && (i > 0 ==> u[i] == t[i - 1]);
    }
  }

  lemma {:induction false} NodeIsForest(js: string, n: Node, lo: nat, hi: nat)
    requires Placed(js, n, lo, hi)
    ensures IsForest(js, Flat(n), lo, hi, 1)
    decreases n, 0
  {
    hide IsForest;
    match n
    case Leaf(kind, start, end) =>
      LeafIsForest(js, n, lo, hi);
    case Box(kind, start, end, kids) =>
      PlacedIsForest(js, kids, start + 1, end - 1);
      WrapForest(js, Token(kind, start, end, |kids|), FlatForest(kids), lo, hi);
  }

  lemma LeafIsForest(js: string, n: Node, lo: nat, hi: nat)
    requires n.Leaf? && Placed(js, n, lo, hi)
    ensures IsForest(js, Flat(n), lo, hi, 1)
  {
    var ts := Flat(n);
    assert !Child(ts, 0, 0) && Child(ts, -1, 0);
    assert Count(ts, 0, 0) == 0 == Count(ts, -1, 0);
  }

  /** The preorder listing of trees placed in a text has increasing starts, nested or disjoint spans,
      containers that run from bracket to bracket of the same kind, and sizes that count children. */
  lemma {:induction false} PlacedIsForest(js: string, ns: seq<Node>, lo: nat, hi: nat)
    requires PlacedForest(js, ns, lo, hi)
    ensures IsForest(js, FlatForest(ns), lo, hi, |ns|)
    decreases ns, 1
  {
    if ns != [] {
      var n := ns[|ns| - 1];
      PlacedIsForest(js, ns[..|ns| - 1], lo, n.start);
      NodeIsForest(js, n, n.start, hi);
      AppendForest(js, FlatForest(ns[..|ns| - 1]), Flat(n), lo, n.start, hi, |ns| - 1, 1);
    }
  }
}
