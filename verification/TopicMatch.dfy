/** Matching a topic name against a subscription filter by walking the two strings, compared with the
    level-by-level definition in section 4.7.1 of MQTT 3.1.1. */
module TopicMatch {

  // ----- levels

  /** The length of the first level. */
  function HeadLen(s: string): (k: nat)
    ensures k <= |s| && (k < |s| ==> s[k] == '/') && forall i :: 0 <= i < k ==> s[i] != '/'
  {
    if s == "" || s[0] == '/' then 0 else 1 + HeadLen(s[1..])
  }

  function Head(s: string): string {
    s[..HeadLen(s)]
  }

  function Levels(s: string): (r: seq<string>)
    ensures |r| > 0 && r[0] == Head(s)
    decreases |s|
  {
    var k := HeadLen(s);
    if k == |s| then [s] else [s[..k]] + Levels(s[k + 1..])
  }

  function Join(levels: seq<string>): string
    requires levels != []
  {
    if |levels| == 1 then levels[0] else levels[0] + "/" + Join(levels[1..])
  }

  /** The levels are the parts between the slashes. */
  lemma LevelsJoin(s: string)
    ensures Join(Levels(s)) == s && forall i :: 0 <= i < |Levels(s)| ==> '/' !in Levels(s)[i]
  {
    hide Levels, Join;
    JoinBack(s);
    forall i | 0 <= i < |Levels(s)|
      ensures '/' !in Levels(s)[i]
    {
      LevelSlashless(s, i);
    }
  }

  lemma {:induction false} LevelSlashless(s: string, i: nat)
    requires i < |Levels(s)|
    ensures '/' !in Levels(s)[i]
    decreases |s|
  {
    if i > 0 { LevelSlashless(s[HeadLen(s) + 1..], i - 1); }
  }

  lemma {:induction false} JoinBack(s: string)
    ensures Join(Levels(s)) == s
    decreases |s|
  {
    var k := HeadLen(s);
    if k < |s| {
      var head, tail := s[..k], s[k + 1..];
      assert Levels(s) == [head] + Levels(tail) && s[k] == '/';
      hide Levels, Join, HeadLen;
      CutAtSlash(s, k);
      JoinBack(tail);
      JoinCons(head, Levels(tail));
    }
  }

  lemma CutAtSlash(s: string, k: nat)
    requires k < |s| && s[k] == '/'
    ensures s[..k] + "/" + s[k + 1..] == s
  {
    assert s == s[..k] + s[k..] && s[k..] == [s[k]] + s[k + 1..];
  }

  lemma JoinCons(head: string, rest: seq<string>)
    requires rest != []
    ensures Join([head] + rest) == head + "/" + Join(rest)
  {
    assert ([head] + rest)[1..] == rest;
  }

  predicate Literal(level: string) {
    '+' !in level && '#' !in level
  }

  /** Wildcards fill whole levels, and "#" only the last. */
  predicate WellFormed(fl: seq<string>) {
    fl == [] || ((fl[0] == "+" || (fl[0] == "#" && |fl| == 1) || Literal(fl[0])) && WellFormed(fl[1..]))
  }

  /** Matching under section 4.7.1: "+" takes one level, "#" all remaining ones, even none. */
  predicate Matches(fl: seq<string>, nl: seq<string>) {
    if fl == [] then nl == []
    else if fl[0] == "#" then true
    else nl != [] && (fl[0] == "+" || fl[0] == nl[0]) && Matches(fl[1..], nl[1..])
  }

  /** Matching in which a wildcard needs a nonempty level to start on. */
  predicate MatchesNonempty(fl: seq<string>, nl: seq<string>) {
    if fl == [] then nl == []
    else if fl[0] == "#" then nl != [] && nl[0] != ""
    else nl != [] && ((fl[0] == "+" && nl[0] != "") || fl[0] == nl[0]) && MatchesNonempty(fl[1..], nl[1..])
  }

  /** The filter ends in "#" and the name in the level above it. */
  predicate IsParent(fl: seq<string>, nl: seq<string>) {
    fl != [] && fl[|fl| - 1] == "#" && |nl| == |fl| - 1
  }

  /** What the matcher accepts is a match, and for names without empty levels it misses exactly the
      parent level of a filter that ends in "#". */
  lemma {:induction false} NonemptyMatches(fl: seq<string>, nl: seq<string>)
    requires WellFormed(fl)
    ensures MatchesNonempty(fl, nl) ==> Matches(fl, nl)
    ensures (forall i :: 0 <= i < |nl| ==> nl[i] != "") ==>
      (MatchesNonempty(fl, nl) <==> Matches(fl, nl) && !IsParent(fl, nl))
  {
    if fl != [] && fl[0] != "#" && nl != [] {
      NonemptyMatches(fl[1..], nl[1..]);
    }
  }

  /** Two filters that match under the standard and not here: "a/+" with "a/", "a/#" with "a". */
  lemma MissedMatches()
    ensures Matches(Levels("a/+"), Levels("a/")) && !MatchesNonempty(Levels("a/+"), Levels("a/"))
    ensures Matches(Levels("a/#"), Levels("a")) && !MatchesNonempty(Levels("a/#"), Levels("a"))
  {
    SplitTwo("a/+", "+");
    SplitTwo("a/#", "#");
    SplitTwo("a/", "");
    assert Levels("a") == ["a"] by { assert HeadLen("a"[1..]) == 0; }
    assert ["a", "+"][1..] == ["+"] && ["a", "#"][1..] == ["#"] && ["a", ""][1..] == [""] && ["a"][1..] == [];
  }

  lemma SplitTwo(s: string, last: string)
    requires s == "a/" + last && (last == "" || last == "+" || last == "#")
    ensures Levels(s) == ["a", last]
  {
    assert s[1..] == "/" + last && HeadLen(s[1..]) == 0 && HeadLen(s) == 1;
    assert s[..1] == "a" && s[2..] == last;
    if last != "" { assert last[1..] == ""; }
    assert HeadLen(last) == |last|;
  }

  // ----- the walk over the characters, as a function

  /** What the walk decides about the rest of the filter and the rest of the name. */
  ghost predicate Walk(f: string, n: string)
    decreases |f|
  {
    if f == "" || n == "" then f == "" && n == ""
    else if n[0] == '/' && f[0] != '/' then false
    else if f[0] != '+' && f[0] != '#' && f[0] != n[0] then false
    else if f[0] == '+' then Walk(f[1..], n[HeadLen(n)..])
    else if f[0] == '#' then Walk(f[1..], "")
    else Walk(f[1..], n[1..])
  }

  lemma {:induction false} WalkLiteral(f: string, n: string)
    requires Literal(Head(f))
    ensures Walk(f, n) <==> Head(f) == Head(n) && Walk(f[HeadLen(f)..], n[HeadLen(n)..])
    decreases |f|
  {
    hide Walk, HeadLen;
    if HeadLen(f) == 0 {
      WalkAtEnd(f, n);
    } else {
      assert f[0] == Head(f)[0] && f[0] in Head(f);
      WalkChar(f, n);
      HeadCons(f);
      if HeadLen(n) > 0 {
        HeadCons(n);
        if f[0] == n[0] { WalkLiteral(f[1..], n[1..]); }
      } else if n != "" {
        assert n[0] == '/';
      }
    }
  }

  /** One literal character. */
  lemma WalkChar(f: string, n: string)
    requires f != "" && f[0] != '/' && f[0] != '+' && f[0] != '#'
    ensures Walk(f, n) <==> n != "" && f[0] == n[0] && Walk(f[1..], n[1..])
  {
  }

  /** At the end of a level of the filter, the name must be at the end of one, too. */
  lemma WalkAtEnd(f: string, n: string)
    requires HeadLen(f) == 0
    ensures Walk(f, n) <==> Head(n) == "" && Walk(f[HeadLen(f)..], n[HeadLen(n)..])
  {
    hide HeadLen;
    assert f[0..] == f;
    if HeadLen(n) == 0 { assert n[0..] == n; } else { assert n[0] != '/'; }
  }

  lemma HeadCons(s: string)
    requires HeadLen(s) > 0
    ensures HeadLen(s) == 1 + HeadLen(s[1..]) && Head(s) == [s[0]] + Head(s[1..])
    ensures s[HeadLen(s)..] == s[1..][HeadLen(s[1..])..]
  {
  }

  lemma WalkPlus(f: string, n: string)
    requires Head(f) == "+"
    ensures Walk(f, n) <==> Head(n) != "" && Walk(f[HeadLen(f)..], n[HeadLen(n)..])
  {
    assert f[0] == Head(f)[0] == '+' && f[1..] == f[HeadLen(f)..];
  }

  lemma WalkHash(f: string, n: string)
    requires Head(f) == "#" && |Levels(f)| == 1
    ensures Walk(f, n) <==> Head(n) != ""
  {
    assert f == "#";
  }

  lemma WalkSlash(x: string, y: string)
    requires (x == "" || x[0] == '/') && (y == "" || y[0] == '/')
    ensures Walk(x, y) <==> (x == "" && y == "") || (x != "" && y != "" && Walk(x[1..], y[1..]))
  {
  }

  /** The ends of two levels: both strings end, or both go on. */
  lemma WalkOn(f: string, n: string)
    ensures var h, k := HeadLen(f), HeadLen(n);
      Walk(f[h..], n[k..]) <==> (h == |f| && k == |n|) || (h < |f| && k < |n| && Walk(f[h + 1..], n[k + 1..]))
  {
    hide Walk, HeadLen;
    var h, k := HeadLen(f), HeadLen(n);
    WalkSlash(f[h..], n[k..]);
    if h < |f| { assert f[h..][1..] == f[h + 1..]; }
    if k < |n| { assert n[k..][1..] == n[k + 1..]; }
  }

  /** The levels after the first. */
  function RestLevels(s: string): seq<string> {
    if HeadLen(s) == |s| then [] else Levels(s[HeadLen(s) + 1..])
  }

  lemma LevelsOf(s: string)
    ensures Levels(s) == [Head(s)] + RestLevels(s)
    ensures RestLevels(s) == [] <==> HeadLen(s) == |s|
  {
  }

  lemma WellFormedCons(a: string, fr: seq<string>)
    requires WellFormed([a] + fr)
    ensures WellFormed(fr) && (if a == "#" then fr == [] else a == "+" || Literal(a))
  {
    assert ([a] + fr)[1..] == fr;
    if a == "#" { assert a[0] == '#' && '#' in a; }
  }

  lemma MatchCons(a: string, fr: seq<string>, b: string, nr: seq<string>)
    ensures MatchesNonempty([a] + fr, [b] + nr) <==>
      if a == "#" then b != "" else ((a == "+" && b != "") || a == b) && MatchesNonempty(fr, nr)
    ensures fr == [] || nr == [] ==> (MatchesNonempty(fr, nr) <==> fr == [] && nr == [])
  {
    assert ([a] + fr)[1..] == fr && ([b] + nr)[1..] == nr;
  }

  /** The walk is the level-by-level comparison with wildcards on nonempty levels. */
  lemma {:induction false} WalkMatches(f: string, n: string)
    requires WellFormed(Levels(f))
    ensures Walk(f, n) <==> MatchesNonempty(Levels(f), Levels(n))
    decreases |f|
  {
    hide Walk, Levels, WellFormed, MatchesNonempty, Literal;
    var h, k := HeadLen(f), HeadLen(n);
    LevelsOf(f);
    LevelsOf(n);
    WellFormedCons(Head(f), RestLevels(f));
    MatchCons(Head(f), RestLevels(f), Head(n), RestLevels(n));
    if Head(f) == "#" {
      WalkHash(f, n);
    } else {
      if Head(f) == "+" { WalkPlus(f, n); } else { WalkLiteral(f, n); }
      WalkOn(f, n);
      if h < |f| && k < |n| { WalkMatches(f[h + 1..], n[k + 1..]); }
    }
  }

  /** Moves to the last character of the level. */
  method SkipLevel(name: string, from: nat) returns (j: nat)
    requires from < |name| && name[from] != '/'
    ensures from <= j < |name| && name[j + 1..] == name[from..][HeadLen(name[from..])..]
  {
    j := from;
    var nextpos := j + 1;
    assert name[from..][1..] == name[nextpos..];
    while nextpos < |name| && name[nextpos] != '/'
      invariant from <= j < |name| && nextpos == j + 1
      invariant HeadLen(name[from..]) == nextpos - from + HeadLen(name[nextpos..])
      decreases |name| - j
    {
      assert name[nextpos..][1..] == name[nextpos + 1..];
      j := j + 1;
      nextpos := j + 1;
    }
  }

  /** For a well-formed filter: accepts exactly the names that match level by level with every
      wildcard on a nonempty level; so only names that match under section 4.7.1, and of those
      without empty levels all but the parent of a final "#". */
  method IsTopicMatched(filter: string, name: string) returns (matched: bool)
    ensures WellFormed(Levels(filter)) ==> (matched <==> MatchesNonempty(Levels(filter), Levels(name)))
    ensures WellFormed(Levels(filter)) && matched ==> Matches(Levels(filter), Levels(name))
    ensures WellFormed(Levels(filter)) && (forall i :: 0 <= i < |Levels(name)| ==> Levels(name)[i] != "") ==>
      (matched <==> Matches(Levels(filter), Levels(name)) && !IsParent(Levels(filter), Levels(name)))
  {
    var i, j := 0, 0;
    while i < |filter| && j < |name|
      invariant 0 <= i <= |filter| && 0 <= j <= |name|
      invariant Walk(filter[i..], name[j..]) <==> Walk(filter, name)
    {
      if name[j] == '/' && filter[i] != '/' {
        break;
      }
      if filter[i] != '+' && filter[i] != '#' && filter[i] != name[j] {
        break;
      }
      ghost var rest := name[j..];
      if filter[i] == '+' {
        j := SkipLevel(name, j);
      } else if filter[i] == '#' {
        j := |name| - 1;
      }
      assert filter[i..][1..] == filter[i + 1..];
      i := i + 1;
      j := j + 1;
    }
    matched := j == |name| && i == |filter|;
    assert matched <==> Walk(filter, name);
    if WellFormed(Levels(filter)) {
      WalkMatches(filter, name);
      NonemptyMatches(Levels(filter), Levels(name));
    }
  }
}
