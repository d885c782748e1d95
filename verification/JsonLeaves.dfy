/** Where the leaves of a JSON text end, told from the characters alone: a string at the first quote that no
    odd run of backslashes precedes, a primitive at the first delimiter. */
module JsonLeaves {
  import opened Arith
  import opened JsonTokenizer

  /** The number of backslashes directly before q, not looking before p. */
  ghost function Slashes(js: string, p: nat, q: nat): nat
    requires q <= |js|
  {
    if p < q && js[q - 1] == '\\' then 1 + Slashes(js, p, q - 1) else 0
  }

  /** The character at x is not escaped. */
  ghost predicate Free(js: string, p: nat, x: nat)
    requires x <= |js|
  {
    Slashes(js, p, x) % 2 == 0
  }

  /** The backslash at x does not begin an escape: neither one of the eight letters follows nor `u` with
      hexadecimal digits, four of them or as many as there are before the end of the text. */
  ghost predicate BadEscape(js: string, x: nat) {
    var c := At(js, x + 1);
    (!SimpleEscape(c) && c != 'u') || (c == 'u' && BadDigits(js, x + 2, 4))
  }

  /** Among the next n characters there is one, before the end of the text, that is not a digit. */
  ghost predicate BadDigits(js: string, p: nat, n: nat) {
    exists i: nat :: p <= i < p + n && !IsHex(At(js, i)) && forall j: nat :: p <= j <= i ==> At(js, j) != '\0'
  }

  /** From p up to x the text does not end, the string does not end, and every escape is one. */
  ghost predicate Clean(js: string, p: nat, x: nat) {
    && p <= x <= |js|
    && forall i :: p <= i < x ==>
         && js[i] != '\0' && (Free(js, p, i) ==> js[i] != '\"')
         && (Free(js, p, i) && js[i] == '\\' ==> !BadEscape(js, i))
  }

  /** The string that begins at p ends with the quote at q. */
  ghost predicate EndsString(js: string, len: nat, p: nat, q: nat) {
    Clean(js, p, q) && q < len && q < |js| && js[q] == '\"' && Free(js, p, q)
  }

  /** The string that begins at p has its first wrong escape at x. */
  ghost predicate BreaksString(js: string, len: nat, p: nat, x: nat) {
    Clean(js, p, x) && x < len && x < |js| && js[x] == '\\' && Free(js, p, x) && BadEscape(js, x)
  }

  /** The scan finds exactly that quote; it fails as invalid exactly for a wrong escape, and as partial
      exactly when the text ends before either. */
  lemma StringEndExact(js: string, len: nat, p: nat)
    requires p <= |js|
    ensures forall q: nat :: StringEnd(js, len, p) == Upto(q) <==> EndsString(js, len, p, q)
    ensures StringEnd(js, len, p) == Fail(Invalid) <==> exists x: nat :: BreaksString(js, len, p, x)
    ensures StringEnd(js, len, p) == Fail(Partial) <==>
      (forall q: nat :: !EndsString(js, len, p, q)) && (forall x: nat :: !BreaksString(js, len, p, x))
  {
    hide StringEnd, EndsString, BreaksString;
    assert Clean(js, p, p) && Slashes(js, p, p) == 0;
    StringFrom(js, len, p, p);
    forall q: nat, r: nat | EndsString(js, len, p, q) && EndsString(js, len, p, r)
      ensures q == r
    {
      OneEnd(js, len, p, q, r);
    }
    forall q: nat, x: nat | EndsString(js, len, p, q)
      ensures !BreaksString(js, len, p, x)
    {
      EndOrBreak(js, len, p, q, x);
    }
  }

  lemma OneEnd(js: string, len: nat, p: nat, q: nat, r: nat)
    requires EndsString(js, len, p, q) && EndsString(js, len, p, r)
    ensures q == r
  {
  }

  lemma EndOrBreak(js: string, len: nat, p: nat, q: nat, x: nat)
    requires EndsString(js, len, p, q)
    ensures !BreaksString(js, len, p, x)
  {
  }

  /** In a string that ends, `\u` is followed by four hexadecimal digits. */
  lemma FourDigits(js: string, len: nat, p: nat, q: nat, i: nat, k: nat)
    requires EndsString(js, len, p, q) && p <= i < q && Free(js, p, i) && js[i] == '\\' && At(js, i + 1) == 'u' && k < 4
    ensures i + 2 + k < q && IsHex(js[i + 2 + k])
    decreases k
  {
    hide IsHex, BadDigits;
    assert !BadEscape(js, i);
    if k == 0 {
      SlashFlips(js, p, i);
      assert i + 1 < q && js[i + 1] == 'u';
    } else {
      FourDigits(js, len, p, q, i, k - 1);
    }
    var at := i + 2 + k;
    assert at <= q && forall j :: p <= j <= q ==> js[j] != '\0';
    if !IsHex(At(js, at)) { SomeBadDigit(js, i + 2, at, 4); }
    if at == q { QuoteIsNoDigit(js[q]); }
  }

  lemma SomeBadDigit(js: string, p: nat, i: nat, n: nat)
    requires p <= i < p + n && i < |js| && !IsHex(At(js, i)) && forall j :: p <= j <= i ==> js[j] != '\0'
    ensures BadDigits(js, p, n)
  {
  }

  lemma QuoteIsNoDigit(c: char)
    requires c == '\"'
    ensures !IsHex(c)
  {
  }

  /** What the rest of the scan says, at a character that is not escaped. */
  lemma {:induction false} StringFrom(js: string, len: nat, p: nat, x: nat)
    requires Clean(js, p, x) && Free(js, p, x)
    ensures match StringEnd(js, len, x)
      case Upto(q) => EndsString(js, len, p, q)
      case Fail(e) =>
        && e != NoMem && (e == Invalid ==> exists y: nat :: BreaksString(js, len, p, y))
        && (e == Partial ==> forall q: nat :: !EndsString(js, len, p, q))
        && (e == Partial ==> forall y: nat :: !BreaksString(js, len, p, y))
    decreases |js| - x
  {
    hide Clean, Free, EndsString, BreaksString, BadEscape;
    assert x <= |js| by { CleanBounds(js, p, x); }
    if AtEnd(js, len, x) {
      NothingMore(js, len, p, x);
    } else if js[x] == '\"' {
      Found(js, len, p, x);
    } else if js[x] != '\\' {
      PlainStep(js, p, x);
      StringFrom(js, len, p, x + 1);
    } else if SimpleEscape(At(js, x + 1)) {
      EscapeStep(js, p, x);
      StringFrom(js, len, p, x + 2);
    } else if At(js, x + 1) != 'u' || HexEnd(js, x + 2, 4).None? {
      Broken(js, len, p, x);
    } else {
      UnicodeStep(js, p, x);
      StringFrom(js, len, p, HexEnd(js, x + 2, 4).value);
    }
  }

  lemma CleanBounds(js: string, p: nat, x: nat)
    requires Clean(js, p, x)
    ensures p <= x <= |js|
  {
  }

  lemma NothingMore(js: string, len: nat, p: nat, x: nat)
    requires Clean(js, p, x) && AtEnd(js, len, x)
    ensures forall q: nat :: !EndsString(js, len, p, q)
    ensures forall y: nat :: !BreaksString(js, len, p, y)
  {
    forall q: nat
      ensures !EndsString(js, len, p, q) && !BreaksString(js, len, p, q)
    {
      if p <= q < x { assert js[q] != '\0'; }
    }
  }

  lemma Found(js: string, len: nat, p: nat, x: nat)
    requires Clean(js, p, x) && Free(js, p, x) && !AtEnd(js, len, x) && js[x] == '\"'
    ensures EndsString(js, len, p, x)
  {
  }

  lemma Broken(js: string, len: nat, p: nat, x: nat)
    requires Clean(js, p, x) && Free(js, p, x) && !AtEnd(js, len, x) && js[x] == '\\'
    requires !SimpleEscape(At(js, x + 1)) && (At(js, x + 1) != 'u' || HexEnd(js, x + 2, 4).None?)
    ensures BreaksString(js, len, p, x)
  {
    HexEndMeans(js, x + 2, 4);
  }

  lemma PlainStep(js: string, p: nat, x: nat)
    requires Clean(js, p, x) && x < |js| && js[x] != '\0' && js[x] != '\"' && js[x] != '\\'
    ensures Clean(js, p, x + 1) && Free(js, p, x + 1)
  {
    hide BadEscape;
    NoSlash(js, p, x + 1);
    CleanMore(js, p, x, x + 1);
  }

  lemma EscapeStep(js: string, p: nat, x: nat)
    requires Clean(js, p, x) && Free(js, p, x) && x < |js| && js[x] == '\\' && SimpleEscape(At(js, x + 1))
    ensures Clean(js, p, x + 2) && Free(js, p, x + 2)
  {
    hide BadDigits;
    assert !BadEscape(js, x);
    SlashFlips(js, p, x);
    assert js[x + 1] == At(js, x + 1);
    if js[x + 1] == '\\' { SlashFlips(js, p, x + 1); } else { NoSlash(js, p, x + 2); }
    hide BadEscape, Free, SimpleEscape;
    CleanMore(js, p, x, x + 2);
  }

  lemma SlashFlips(js: string, p: nat, x: nat)
    requires p <= x < |js| && js[x] == '\\'
    ensures Free(js, p, x + 1) <==> !Free(js, p, x)
  {
    assert Slashes(js, p, x + 1) == 1 + Slashes(js, p, x);
  }

  lemma UnicodeStep(js: string, p: nat, x: nat)
    requires Clean(js, p, x) && Free(js, p, x) && x < |js| && js[x] == '\\' && At(js, x + 1) == 'u'
    requires HexEnd(js, x + 2, 4).Some?
    ensures var q := HexEnd(js, x + 2, 4).value; x < q && Clean(js, p, q) && Free(js, p, q)
  {
    hide IsHex, Slashes, BadDigits;
    HexEndMeans(js, x + 2, 4);
    var q := HexEnd(js, x + 2, 4).value;
    assert !BadEscape(js, x);
    forall i | x + 1 <= i < q
      ensures i < |js| && js[i] != '\0' && js[i] != '\"' && js[i] != '\\'
    {
      assert js[i] == At(js, i);
      if i > x + 1 { HexIsPlain(At(js, i)); }
    }
    CleanMore(js, p, x, q);
    NoSlash(js, p, q);
  }

  lemma HexIsPlain(c: char)
    requires IsHex(c)
    ensures c != '\0' && c != '\"' && c != '\\'
  {
  }

  lemma NoSlash(js: string, p: nat, q: nat)
    requires 0 < q <= |js| && js[q - 1] != '\\'
    ensures Free(js, p, q)
  {
  }

  /** A longer clean part. */
  lemma CleanMore(js: string, p: nat, x: nat, y: nat)
    requires Clean(js, p, x) && x <= y <= |js|
    requires forall i :: x <= i < y ==>
      && js[i] != '\0' && (Free(js, p, i) ==> js[i] != '\"')
      && (Free(js, p, i) && js[i] == '\\' ==> !BadEscape(js, i))
    ensures Clean(js, p, y)
  {
    hide Free, BadEscape;
  }

  /** At most n digits, and a failure exactly for a wrong one. */
  lemma {:induction false} HexEndMeans(js: string, p: nat, n: nat)
    ensures HexEnd(js, p, n).None? <==> BadDigits(js, p, n)
    ensures HexEnd(js, p, n).Some? ==> var q := HexEnd(js, p, n).value;
      p <= q <= p + n && forall i :: p <= i < q ==> IsHex(At(js, i)) && i < |js|
    decreases n
  {
    hide BadDigits, IsHex;
    BadDigitsStep(js, p, n);
    if n > 0 && At(js, p) != '\0' && IsHex(At(js, p)) { HexEndMeans(js, p + 1, n - 1); }
  }

  lemma BadDigitsStep(js: string, p: nat, n: nat)
    ensures BadDigits(js, p, n) <==>
      n > 0 && At(js, p) != '\0' && (!IsHex(At(js, p)) || BadDigits(js, p + 1, n - 1))
  {
    hide IsHex, At;
    if n > 0 && At(js, p) != '\0' && BadDigits(js, p + 1, n - 1) {
      var i: nat :| p + 1 <= i < p + n && !IsHex(At(js, i)) && forall j: nat :: p + 1 <= j <= i ==> At(js, j) != '\0';
      assert forall j: nat :: p <= j <= i ==> At(js, j) != '\0';
    }
  }

  /** The escaped quote of the text "a\"b" is part of the string. */
  lemma EscapedQuote()
    ensures StringEnd("\"a\\\"b\"", 6, 1) == Upto(5)
  {
    var js := "\"a\\\"b\"";
    assert |js| == 6 && js[1] == 'a' && js[2] == '\\' && js[3] == '\"' && js[4] == 'b' && js[5] == '\"';
    assert StringEnd(js, 6, 5) == Upto(5);
    assert StringEnd(js, 6, 4) == Upto(5);
    assert StringEnd(js, 6, 2) == Upto(5);
  }

  // ----- primitives

  predicate Printable(c: char) {
    32 <= c as int < 127
  }

  /** Printable characters, none of them a delimiter. */
  ghost predicate Running(js: string, p: nat, x: nat) {
    p <= x <= |js| && forall i :: p <= i < x ==> Printable(js[i]) && !EndsPrimitive(js[i])
  }

  ghost predicate EndsRun(js: string, len: nat, p: nat, q: nat) {
    Running(js, p, q) && q < len && q < |js| && EndsPrimitive(js[q])
  }

  ghost predicate BreaksRun(js: string, len: nat, p: nat, x: nat) {
    Running(js, p, x) && x < len && x < |js| && js[x] != '\0' && !Printable(js[x]) && !EndsPrimitive(js[x])
  }

  /** A primitive ends at the first delimiter; it is invalid exactly for a character before that which is not
      printable, and partial exactly when the text ends before either. */
  lemma PrimitiveEndExact(js: string, len: nat, p: nat)
    requires p <= |js|
    ensures forall q: nat :: PrimitiveEnd(js, len, p) == Upto(q) <==> EndsRun(js, len, p, q)
    ensures PrimitiveEnd(js, len, p) == Fail(Invalid) <==> exists x: nat :: BreaksRun(js, len, p, x)
    ensures PrimitiveEnd(js, len, p) == Fail(Partial) <==>
      (forall q: nat :: !EndsRun(js, len, p, q)) && (forall x: nat :: !BreaksRun(js, len, p, x))
  {
    hide PrimitiveEnd;
    PrimitiveFrom(js, len, p, p);
    forall q: nat, x: nat | EndsRun(js, len, p, q)
      ensures !BreaksRun(js, len, p, x) && (EndsRun(js, len, p, x) ==> x == q)
    {
      OneRun(js, len, p, q, x);
    }
  }

  lemma OneRun(js: string, len: nat, p: nat, q: nat, x: nat)
    requires EndsRun(js, len, p, q)
    ensures !BreaksRun(js, len, p, x) && (EndsRun(js, len, p, x) ==> x == q)
  {
    hide EndsPrimitive, Printable;
  }

  lemma {:induction false} PrimitiveFrom(js: string, len: nat, p: nat, x: nat)
    requires Running(js, p, x)
    ensures match PrimitiveEnd(js, len, x)
      case Upto(q) => EndsRun(js, len, p, q)
      case Fail(e) =>
        && e != NoMem && (e == Invalid ==> exists y: nat :: BreaksRun(js, len, p, y))
        && (e == Partial ==> (forall q: nat :: !EndsRun(js, len, p, q)) && forall y: nat :: !BreaksRun(js, len, p, y))
    decreases |js| - x
  {
    hide EndsPrimitive;
    if AtEnd(js, len, x) {
      RunStops(js, len, p, x);
    } else if EndsPrimitive(js[x]) {
      assert EndsRun(js, len, p, x);
    } else if js[x] as int < 32 || js[x] as int >= 127 {
      assert BreaksRun(js, len, p, x);
    } else {
      PrimitiveFrom(js, len, p, x + 1);
    }
  }

  lemma RunStops(js: string, len: nat, p: nat, x: nat)
    requires Running(js, p, x) && AtEnd(js, len, x)
    ensures forall q: nat :: !EndsRun(js, len, p, q)
    ensures forall y: nat :: !BreaksRun(js, len, p, y)
  {
    forall q: nat
      ensures !EndsRun(js, len, p, q) && !BreaksRun(js, len, p, q)
    {
      if p <= q < x { assert Printable(js[q]); }
      else if x < q && Running(js, p, q) { assert Printable(js[x]); }
    }
  }
}
