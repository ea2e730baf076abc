/** `translateExplanation`, `translateOptions` and `translateQuestion`:
    a fixed English-to-Oromo word and phrase substitution. Each `replace`
    call with a global, case-insensitive regular expression is modelled by
    `ReplaceAll`. The patterns are plain ASCII (letters and spaces), so the
    `i` flag amounts to ASCII case folding, and `\b` (no `u` flag) tests for the
    word characters [A-Za-z0-9_]. */
module TranslationUtils {

  import opened TranslationTables

  datatype Language = En | Om

  // ------------------------------------------------- regular-expression model

  /** ASCII case folding: what the `i` flag compares for ASCII patterns. */
  function Fold(c: char): (d: char)
    ensures IsWordChar(d) <==> IsWordChar(c)
  {
    if 'A' <= c <= 'Z' then (c as int + 32) as char else c
  }

  /** `p` occurs at position `i` of `s`, ignoring ASCII case. */
  predicate FoldMatchAt(s: string, p: string, i: nat)
  {
    i + |p| <= |s| && forall j :: 0 <= j < |p| ==> Fold(s[i + j]) == Fold(p[j])
  }

  predicate FoldEqual(s: string, p: string)
  {
    |s| == |p| && FoldMatchAt(s, p, 0)
  }

  /** `\b` at position `i`: a word character on exactly one side. */
  predicate IsBoundary(s: string, i: nat)
    requires i <= |s|
  {
    (i > 0 && IsWordChar(s[i - 1])) != (i < |s| && IsWordChar(s[i]))
  }

  /** A pattern is a literal text, matched case-insensitively, either
      anywhere (`/text/gi`) or between two `\b` (`\btext\b`, flags `gi`). */
  datatype Pattern = Pattern(text: string, wholeWord: bool)

  predicate MatchAt(s: string, pat: Pattern, i: nat)
    requires i <= |s|
  {
    && FoldMatchAt(s, pat.text, i)
    && (pat.wholeWord ==> IsBoundary(s, i) && IsBoundary(s, i + |pat.text|))
  }

  /** `String.prototype.replace` with a global pattern, from position `i`:
      the leftmost match is replaced and the search resumes after it (one
      character further after an empty match); the replacement strings
      used here contain no `$`, so they are inserted literally. */
  function ReplaceFrom(s: string, pat: Pattern, v: string, i: nat): string
    requires i <= |s|
    decreases |s| - i
  {
    if MatchAt(s, pat, i) then
      if |pat.text| > 0 then v + ReplaceFrom(s, pat, v, i + |pat.text|)
      else if i < |s| then v + [s[i]] + ReplaceFrom(s, pat, v, i + 1)
      else v
    else if i < |s| then [s[i]] + ReplaceFrom(s, pat, v, i + 1)
    else []
  }

  function ReplaceAll(s: string, pat: Pattern, v: string): string
  {
    ReplaceFrom(s, pat, v, 0)
  }

  lemma {:induction false} ReplaceFromNoMatch(s: string, pat: Pattern, v: string, i: nat)
    requires i <= |s|
    requires forall j :: i <= j <= |s| ==> !MatchAt(s, pat, j)
    ensures ReplaceFrom(s, pat, v, i) == s[i..]
    decreases |s| - i
  {
    if i < |s| {
      ReplaceFromNoMatch(s, pat, v, i + 1);
      assert s[i..] == [s[i]] + s[i + 1..];
    }
  }

  /** A text with no match of the pattern comes back unchanged. */
  lemma ReplaceAllNoMatch(s: string, pat: Pattern, v: string)
    requires forall j :: 0 <= j <= |s| ==> !MatchAt(s, pat, j)
    ensures ReplaceAll(s, pat, v) == s
  {
    ReplaceFromNoMatch(s, pat, v, 0);
  }

  /** `b` is the part of `s` that starts at `d`. */
  predicate SuffixAt(s: string, b: string, d: nat)
  {
    |s| == d + |b| && forall t :: 0 <= t < |b| ==> s[d + t] == b[t]
  }

  lemma SuffixOfConcat(a: string, b: string)
    ensures SuffixAt(a + b, b, |a|)
  {
  }

  lemma FoldMatchOffset(s: string, b: string, p: string, d: nat, j: nat)
    requires SuffixAt(s, b, d) && j <= |b|
    ensures FoldMatchAt(s, p, d + j) == FoldMatchAt(b, p, j)
  {
    if j + |p| <= |b| {
      forall q | 0 <= q < |p| ensures Fold(s[d + j + q]) == Fold(p[q]) <==> Fold(b[j + q]) == Fold(p[q]) {
        assert s[d + (j + q)] == b[j + q];
      }
    }
  }

  lemma BoundaryOffset(s: string, b: string, d: nat, j: nat)
    requires SuffixAt(s, b, d) && j <= |b|
    requires d > 0 ==> !IsWordChar(s[d - 1])
    ensures IsBoundary(s, d + j) == IsBoundary(b, j)
  {
    if j > 0 {
      assert s[d + (j - 1)] == b[j - 1];
    }
    if j < |b| {
      assert s[d + j] == b[j];
    }
  }

  lemma MatchOffset(s: string, b: string, pat: Pattern, d: nat, i: nat, j: nat)
    requires SuffixAt(s, b, d) && j <= |b| && i == d + j
    requires pat.wholeWord && d > 0 ==> !IsWordChar(s[d - 1])
    ensures MatchAt(s, pat, i) == MatchAt(b, pat, j)
    ensures j < |b| ==> s[i] == b[j]
  {
    if j < |b| {
      assert s[d + j] == b[j];
    }
    FoldMatchOffset(s, b, pat.text, d, j);
    if pat.wholeWord && j + |pat.text| <= |b| {
      BoundaryOffset(s, b, d, j);
      BoundaryOffset(s, b, d, j + |pat.text|);
    }
  }

  /** Two scans that see the same non-empty match agree if they agree
      after it. */
  lemma AlignAtMatch(s: string, b: string, pat: Pattern, v: string, i: nat, j: nat)
    requires |pat.text| > 0 && i <= |s| && j <= |b| && MatchAt(s, pat, i) && MatchAt(b, pat, j)
    requires ReplaceFrom(s, pat, v, i + |pat.text|) == ReplaceFrom(b, pat, v, j + |pat.text|)
    ensures ReplaceFrom(s, pat, v, i) == ReplaceFrom(b, pat, v, j)
  {
  }

  /** Two scans that see no non-empty match and the same character agree
      if they agree one character further on. */
  lemma AlignAtCharacter(s: string, b: string, pat: Pattern, v: string, i: nat, j: nat)
    requires i < |s| && j < |b| && s[i] == b[j]
    requires MatchAt(s, pat, i) == MatchAt(b, pat, j) && !(MatchAt(b, pat, j) && |pat.text| > 0)
    requires ReplaceFrom(s, pat, v, i + 1) == ReplaceFrom(b, pat, v, j + 1)
    ensures ReplaceFrom(s, pat, v, i) == ReplaceFrom(b, pat, v, j)
  {
  }

  /** At both ends, two scans agree when they see the same match. */
  lemma AlignAtEnd(s: string, b: string, pat: Pattern, v: string)
    requires MatchAt(s, pat, |s|) == MatchAt(b, pat, |b|)
    ensures ReplaceFrom(s, pat, v, |s|) == ReplaceFrom(b, pat, v, |b|)
  {
  }

  lemma {:induction false} ReplaceFromOffset(s: string, b: string, pat: Pattern, v: string, d: nat, i: nat, j: nat)
    requires SuffixAt(s, b, d) && j <= |b| && i == d + j
    requires pat.wholeWord && d > 0 ==> !IsWordChar(s[d - 1])
    ensures ReplaceFrom(s, pat, v, i) == ReplaceFrom(b, pat, v, j)
    decreases |b| - j
  {
    MatchOffset(s, b, pat, d, i, j);
    var n := |pat.text|;
    if MatchAt(b, pat, j) && n > 0 {
      ReplaceFromOffset(s, b, pat, v, d, i + n, j + n);
      AlignAtMatch(s, b, pat, v, i, j);
    } else if j < |b| {
      ReplaceFromOffset(s, b, pat, v, d, i + 1, j + 1);
      AlignAtCharacter(s, b, pat, v, i, j);
    } else {
      AlignAtEnd(s, b, pat, v);
    }
  }

  /** From the start of a suffix, the scan rewrites it as if it stood alone. */
  lemma ReplaceFromSuffix(s: string, b: string, pat: Pattern, v: string, d: nat)
    requires SuffixAt(s, b, d)
    requires pat.wholeWord && d > 0 ==> !IsWordChar(s[d - 1])
    ensures ReplaceFrom(s, pat, v, d) == ReplaceAll(b, pat, v)
  {
    ReplaceFromOffset(s, b, pat, v, d, d, 0);
  }

  /** Matching does not look further back than one character, and not at
      all for a pattern without `\b`: what follows a prefix ending in a
      non-word character is rewritten as if it stood alone. */
  lemma ReplaceFromShift(a: string, b: string, pat: Pattern, v: string)
    requires pat.wholeWord && |a| > 0 ==> !IsWordChar(a[|a| - 1])
    ensures ReplaceFrom(a + b, pat, v, |a|) == ReplaceAll(b, pat, v)
  {
    SuffixOfConcat(a, b);
    ReplaceFromSuffix(a + b, b, pat, v, |a|);
  }

  // ----------------------------------------------------- whole-word keys

  function WordPattern(k: string): Pattern
  {
    Pattern(k, true)
  }

  /** A whole-word match cannot run into a non-word character. */
  lemma NoMatchAcross(x: string, c: char, y: string, k: string, i: nat)
    requires IsWordKey(k) && !IsWordChar(c) && i <= |x| < i + |k|
    ensures !FoldMatchAt(x + [c] + y, k, i)
  {
    var s := x + [c] + y;
    if i + |k| <= |s| {
      assert s[i + (|x| - i)] == c;
      assert IsWordChar(k[|x| - i]);
      assert Fold(s[|x|]) != Fold(k[|x| - i]);
    }
  }

  /** A match inside `x` is not affected by what follows a non-word character. */
  lemma PrefixMatch(x: string, c: char, y: string, pat: Pattern, i: nat)
    requires pat.wholeWord && !IsWordChar(c) && i + |pat.text| <= |x|
    ensures MatchAt(x + [c] + y, pat, i) == MatchAt(x, pat, i)
  {
    var s, n := x + [c] + y, |pat.text|;
    assert forall t :: 0 <= t < |x| ==> s[t] == x[t];
    assert s[|x|] == c;
    assert FoldMatchAt(s, pat.text, i) == FoldMatchAt(x, pat.text, i);
    assert IsBoundary(s, i) == IsBoundary(x, i);
    assert IsBoundary(s, i + n) == IsBoundary(x, i + n);
  }

  /** At the separator the prefix's scan stops and the rest is rewritten
      as if it stood alone. */
  lemma ReplaceFromSplitAtSeparator(x: string, c: char, y: string, k: string, v: string)
    requires IsWordKey(k) && !IsWordChar(c)
    ensures ReplaceFrom(x + [c] + y, WordPattern(k), v, |x|) == [c] + ReplaceAll(y, WordPattern(k), v)
    ensures ReplaceFrom(x, WordPattern(k), v, |x|) == []
  {
    var s, pat := x + [c] + y, WordPattern(k);
    NoMatchAcross(x, c, y, k, |x|);
    ReplaceFromShift(x + [c], y, pat, v);
    assert s[|x|] == c;
  }

  /** Before the separator the prefix and the whole text agree on matches. */
  lemma SplitAgreesBefore(x: string, c: char, y: string, k: string, i: nat)
    requires IsWordKey(k) && !IsWordChar(c) && i < |x|
    ensures MatchAt(x + [c] + y, WordPattern(k), i) == MatchAt(x, WordPattern(k), i)
    ensures (x + [c] + y)[i] == x[i]
  {
    if i + |k| <= |x| {
      PrefixMatch(x, c, y, WordPattern(k), i);
    } else {
      NoMatchAcross(x, c, y, k, i);
    }
  }

  /** One step of two scans that agree at position `i`: if what follows
      the step differs only by `tail`, so does the whole. */
  lemma ReplaceFromAgree(s: string, x: string, pat: Pattern, v: string, i: nat, tail: string)
    requires |pat.text| > 0 && i < |x| <= |s|
    requires MatchAt(s, pat, i) == MatchAt(x, pat, i) && s[i] == x[i]
    requires MatchAt(x, pat, i) ==>
               ReplaceFrom(s, pat, v, i + |pat.text|) == ReplaceFrom(x, pat, v, i + |pat.text|) + tail
    requires !MatchAt(x, pat, i) ==> ReplaceFrom(s, pat, v, i + 1) == ReplaceFrom(x, pat, v, i + 1) + tail
    ensures ReplaceFrom(s, pat, v, i) == ReplaceFrom(x, pat, v, i) + tail
  {
    if MatchAt(x, pat, i) {
      assert ReplaceFrom(s, pat, v, i) == v + ReplaceFrom(s, pat, v, i + |pat.text|);
    } else {
      assert ReplaceFrom(s, pat, v, i) == [x[i]] + ReplaceFrom(s, pat, v, i + 1);
    }
  }

  lemma {:induction false} ReplaceFromSplit(x: string, c: char, y: string, k: string, v: string, i: nat)
    requires IsWordKey(k) && !IsWordChar(c) && i <= |x|
    ensures ReplaceFrom(x + [c] + y, WordPattern(k), v, i)
              == ReplaceFrom(x, WordPattern(k), v, i) + [c] + ReplaceAll(y, WordPattern(k), v)
    decreases |x| - i
  {
    var pat := WordPattern(k);
    if i == |x| {
      ReplaceFromSplitAtSeparator(x, c, y, k, v);
    } else {
      SplitAgreesBefore(x, c, y, k, i);
      var next := if MatchAt(x, pat, i) then i + |k| else i + 1;
      ReplaceFromSplit(x, c, y, k, v, next);
      ReplaceFromAgree(x + [c] + y, x, pat, v, i, [c] + ReplaceAll(y, pat, v));
    }
  }

  /** Whole-word replacement works token by token: a non-word character
      separates two pieces that are rewritten independently. */
  lemma ReplaceAllSplit(x: string, c: char, y: string, k: string, v: string)
    requires IsWordKey(k) && !IsWordChar(c)
    ensures ReplaceAll(x + [c] + y, WordPattern(k), v)
              == ReplaceAll(x, WordPattern(k), v) + [c] + ReplaceAll(y, WordPattern(k), v)
  {
    ReplaceFromSplit(x, c, y, k, v, 0);
  }

  /** On a single word the whole-word replacement substitutes `v` exactly
      when the word equals the key up to ASCII case, whatever its casing,
      and leaves it alone otherwise. */
  lemma ReplaceAllWord(w: string, k: string, v: string)
    requires IsWordKey(k)
    requires forall i :: 0 <= i < |w| ==> IsWordChar(w[i])
    ensures ReplaceAll(w, WordPattern(k), v) == if FoldEqual(w, k) then v else w
  {
    var pat := WordPattern(k);
    forall i | 0 < i < |w|
      ensures !IsBoundary(w, i)
    {
      assert IsWordChar(w[i - 1]) && IsWordChar(w[i]);
    }
    assert forall j :: 0 <= j <= |w| && MatchAt(w, pat, j) ==> j == 0 && |k| == |w|;
    if FoldEqual(w, k) {
      assert MatchAt(w, pat, 0);
      assert ReplaceFrom(w, pat, v, |k|) == [];
    } else {
      ReplaceAllNoMatch(w, pat, v);
    }
  }

  /** A non-empty match is replaced and the scan resumes after it. */
  lemma ReplaceAtMatch(s: string, pat: Pattern, v: string, i: nat, next: nat)
    requires i <= |s| && MatchAt(s, pat, i) && |pat.text| > 0 && next == i + |pat.text|
    ensures ReplaceFrom(s, pat, v, i) == v + ReplaceFrom(s, pat, v, next)
  {
  }

  /** A text equal to the phrase up to case matches it. */
  lemma PhraseMatchesAt(a: string, m: string, b: string, p: string)
    requires FoldEqual(m, p)
    ensures MatchAt(a + m + b, Pattern(p, false), |a|)
  {
    var s := a + m + b;
    forall j | 0 <= j < |p| ensures Fold(s[|a| + j]) == Fold(p[j]) {
      assert s[|a| + j] == m[j];
    }
  }

  /** An occurrence of a phrase is replaced, and the scan goes on after it. */
  lemma PhraseReplacedAt(a: string, m: string, b: string, p: string, v: string)
    requires |p| > 0 && FoldEqual(m, p)
    ensures ReplaceFrom(a + m + b, Pattern(p, false), v, |a|) == v + ReplaceAll(b, Pattern(p, false), v)
  {
    var s, pat := a + m + b, Pattern(p, false);
    PhraseMatchesAt(a, m, b, p);
    ReplaceAtMatch(s, pat, v, |a|, |a + m|);
    ReplaceFromShift(a + m, b, pat, v);
  }

  /** `/phrase/gi` has no `\b`: the first occurrence is replaced wherever
      it stands, inside a longer word as well. */
  lemma {:induction false} ReplaceFromPhrase(a: string, m: string, b: string, p: string, v: string, i: nat)
    requires |p| > 0 && FoldEqual(m, p) && i <= |a|
    requires forall j :: 0 <= j < |a| ==> !FoldMatchAt(a + m + b, p, j)
    ensures ReplaceFrom(a + m + b, Pattern(p, false), v, i) == a[i..] + v + ReplaceAll(b, Pattern(p, false), v)
    decreases |a| - i
  {
    var s, pat := a + m + b, Pattern(p, false);
    if i == |a| {
      PhraseReplacedAt(a, m, b, p, v);
      assert a[i..] == [];
    } else {
      assert s[i] == a[i];
      assert !MatchAt(s, pat, i);
      ReplaceFromPhrase(a, m, b, p, v, i + 1);
      assert ReplaceFrom(s, pat, v, i) == [a[i]] + ReplaceFrom(s, pat, v, i + 1);
      assert a[i..] == [a[i]] + a[i + 1..];
    }
  }

  lemma ReplaceAllPhrase(a: string, m: string, b: string, p: string, v: string)
    requires |p| > 0 && FoldEqual(m, p)
    requires forall j :: 0 <= j < |a| ==> !FoldMatchAt(a + m + b, p, j)
    ensures ReplaceAll(a + m + b, Pattern(p, false), v) == a + v + ReplaceAll(b, Pattern(p, false), v)
  {
    ReplaceFromPhrase(a, m, b, p, v, 0);
  }

  // ------------------------------------------- object-literal semantics

  /** Position of the first entry with key `k`, or `|es|` when there is none. */
  function KeyIndex(es: seq<Entry>, k: string): (r: nat)
    ensures r <= |es|
    ensures r < |es| ==> es[r].key == k
  {
    if es == [] then 0
    else if es[0].key == k then 0
    else 1 + KeyIndex(es[1..], k)
  }

  /** No entry before `KeyIndex(es, k)` has the key `k`. */
  lemma {:induction false} KeyIndexFirst(es: seq<Entry>, k: string, i: nat)
    requires i < KeyIndex(es, k)
    ensures es[i].key != k
  {
    if i > 0 {
      KeyIndexFirst(es[1..], k, i - 1);
    }
  }

  /** The value of the last declaration of `k` ("" when there is none). */
  function LastValue(es: seq<Entry>, k: string): string
    decreases |es|
  {
    if es == [] then ""
    else if es[|es| - 1].key == k then es[|es| - 1].value
    else LastValue(es[..|es| - 1], k)
  }

  predicate UniqueKeys(es: seq<Entry>)
  {
    forall i, j :: 0 <= i < j < |es| ==> es[i].key != es[j].key
  }

  /** Property assignment: an existing key keeps its place and takes the
      new value; a new key is added at the end. */
  function Assign(obj: seq<Entry>, e: Entry): (r: seq<Entry>)
    ensures KeyIndex(obj, e.key) < |obj| ==> r == obj[KeyIndex(obj, e.key) := e]
    ensures KeyIndex(obj, e.key) == |obj| ==> r == obj + [e]
  {
    if obj == [] then [e]
    else if obj[0].key == e.key then [e] + obj[1..]
    else [obj[0]] + Assign(obj[1..], e)
  }

  /** The object an object literal denotes, as `Object.entries` lists it:
      its declarations assigned one after the other. */
  function ObjectEntries(decls: seq<Entry>): seq<Entry>
    decreases |decls|
  {
    if decls == [] then []
    else Assign(ObjectEntries(decls[..|decls| - 1]), decls[|decls| - 1])
  }

  lemma KeyIndexAppend(es: seq<Entry>, e: Entry, k: string)
    ensures KeyIndex(es + [e], k)
              == if KeyIndex(es, k) < |es| then KeyIndex(es, k)
                 else if e.key == k then |es| else |es| + 1
  {
    var s := es + [e];
    var r0, r1 := KeyIndex(es, k), KeyIndex(s, k);
    assert forall i :: 0 <= i < |es| ==> s[i] == es[i];
    if r1 < r0 {
      KeyIndexFirst(es, k, r1);
    }
    if r0 < |es| && r0 < r1 {
      KeyIndexFirst(s, k, r0);
    }
    if r0 == |es| && e.key == k && |es| < r1 {
      KeyIndexFirst(s, k, |es|);
    }
  }

  lemma LastValueAppend(es: seq<Entry>, e: Entry, k: string)
    ensures LastValue(es + [e], k) == if e.key == k then e.value else LastValue(es, k)
  {
    assert (es + [e])[..|es|] == es;
  }

  lemma SameKeysSameIndex(q: seq<Entry>, r: seq<Entry>, k: string)
    requires |q| == |r| && forall i :: 0 <= i < |q| ==> q[i].key == r[i].key
    ensures KeyIndex(q, k) == KeyIndex(r, k)
  {
    var a, b := KeyIndex(q, k), KeyIndex(r, k);
    if a < b {
      KeyIndexFirst(r, k, a);
    } else if b < a {
      KeyIndexFirst(q, k, b);
    }
  }

  /** Every key of `r` is declared in `decls`. */
  predicate KeysDeclared(r: seq<Entry>, decls: seq<Entry>)
  {
    forall i :: 0 <= i < |r| ==> KeyIndex(decls, r[i].key) < |decls|
  }

  /** Every key declared in `decls` is in `r`. */
  predicate KeysListed(r: seq<Entry>, decls: seq<Entry>)
  {
    forall j :: 0 <= j < |decls| ==> KeyIndex(r, decls[j].key) < |r|
  }

  /** Every key of `r` has the value of its last declaration. */
  predicate LastValues(r: seq<Entry>, decls: seq<Entry>)
  {
    forall i :: 0 <= i < |r| ==> r[i].value == LastValue(decls, r[i].key)
  }

  /** The keys of `r` come in the order of their first declaration. */
  predicate FirstDeclarationOrder(r: seq<Entry>, decls: seq<Entry>)
  {
    forall i, j :: 0 <= i < j < |r| ==> KeyIndex(decls, r[i].key) < KeyIndex(decls, r[j].key)
  }

  /** `r` lists the object that the declarations `decls` denote: every
      declared key exactly once, no other key, the keys in the order of their
      first declaration, each with the value of its last declaration. */
  predicate Denotes(r: seq<Entry>, decls: seq<Entry>)
  {
    && UniqueKeys(r)
    && KeysDeclared(r, decls)
    && KeysListed(r, decls)
    && LastValues(r, decls)
    && FirstDeclarationOrder(r, decls)
  }

  // Assigning a key the object already has: same keys, new value in place.

  lemma ExistingKeys(q: seq<Entry>, e: Entry)
    requires KeyIndex(q, e.key) < |q|
    ensures |q[KeyIndex(q, e.key) := e]| == |q|
    ensures forall i :: 0 <= i < |q| ==> q[KeyIndex(q, e.key) := e][i].key == q[i].key
  {
  }

  lemma ExistingDeclared(q: seq<Entry>, p: seq<Entry>, e: Entry)
    requires KeysDeclared(q, p) && KeyIndex(q, e.key) < |q|
    ensures KeysDeclared(q[KeyIndex(q, e.key) := e], p + [e])
    ensures FirstDeclarationOrder(q, p) ==> FirstDeclarationOrder(q[KeyIndex(q, e.key) := e], p + [e])
  {
    var r := q[KeyIndex(q, e.key) := e];
    ExistingKeys(q, e);
    forall i | 0 <= i < |r|
      ensures KeyIndex(p + [e], r[i].key) == KeyIndex(p, q[i].key) < |p|
    {
      KeyIndexAppend(p, e, q[i].key);
    }
  }

  lemma ExistingListed(q: seq<Entry>, p: seq<Entry>, e: Entry)
    requires KeysListed(q, p) && KeyIndex(q, e.key) < |q|
    ensures KeysListed(q[KeyIndex(q, e.key) := e], p + [e])
  {
    var d, r := p + [e], q[KeyIndex(q, e.key) := e];
    ExistingKeys(q, e);
    forall j | 0 <= j < |d|
      ensures KeyIndex(r, d[j].key) < |r|
    {
      SameKeysSameIndex(q, r, d[j].key);
      if j < |p| {
        assert d[j] == p[j];
      }
    }
  }

  lemma ExistingValues(q: seq<Entry>, p: seq<Entry>, e: Entry)
    requires UniqueKeys(q) && LastValues(q, p) && KeyIndex(q, e.key) < |q|
    ensures LastValues(q[KeyIndex(q, e.key) := e], p + [e])
  {
    var j0 := KeyIndex(q, e.key);
    var r := q[j0 := e];
    forall i | 0 <= i < |r|
      ensures r[i].value == LastValue(p + [e], r[i].key)
    {
      LastValueAppend(p, e, r[i].key);
      if i != j0 {
        assert q[i].key != q[j0].key;
      }
    }
  }

  lemma AssignExisting(q: seq<Entry>, p: seq<Entry>, e: Entry)
    requires Denotes(q, p) && KeyIndex(q, e.key) < |q|
    ensures Denotes(q[KeyIndex(q, e.key) := e], p + [e])
  {
    ExistingKeys(q, e);
    ExistingDeclared(q, p, e);
    ExistingListed(q, p, e);
    ExistingValues(q, p, e);
  }

  // Assigning a new key: it is added at the end.

  lemma NewKeyUndeclared(q: seq<Entry>, p: seq<Entry>, e: Entry)
    requires KeysListed(q, p) && KeyIndex(q, e.key) == |q|
    ensures KeyIndex(p, e.key) == |p|
    ensures forall i :: 0 <= i < |q| ==> q[i].key != e.key
  {
    forall j | 0 <= j < |p| ensures p[j].key != e.key {
      assert KeyIndex(q, p[j].key) < |q|;
    }
    forall i | 0 <= i < |q| ensures q[i].key != e.key {
      KeyIndexFirst(q, e.key, i);
    }
  }

  lemma NewDeclared(q: seq<Entry>, p: seq<Entry>, e: Entry)
    requires KeysDeclared(q, p) && KeyIndex(p, e.key) == |p|
    ensures KeysDeclared(q + [e], p + [e])
    ensures forall i :: 0 <= i < |q| ==> KeyIndex(p + [e], q[i].key) == KeyIndex(p, q[i].key) < |p|
    ensures KeyIndex(p + [e], e.key) == |p|
  {
    KeyIndexAppend(p, e, e.key);
    forall i | 0 <= i < |q|
      ensures KeyIndex(p + [e], q[i].key) == KeyIndex(p, q[i].key) < |p|
    {
      KeyIndexAppend(p, e, q[i].key);
    }
    var r := q + [e];
    forall i | 0 <= i < |r| ensures KeyIndex(p + [e], r[i].key) < |p + [e]| {
      if i < |q| {
        assert r[i] == q[i];
      }
    }
  }

  lemma OrderTransfer(q: seq<Entry>, p: seq<Entry>, d: seq<Entry>)
    requires FirstDeclarationOrder(q, p)
    requires forall i :: 0 <= i < |q| ==> KeyIndex(d, q[i].key) == KeyIndex(p, q[i].key)
    ensures FirstDeclarationOrder(q, d)
  {
  }

  lemma OrderAppend(q: seq<Entry>, d: seq<Entry>, e: Entry)
    requires FirstDeclarationOrder(q, d)
    requires forall i :: 0 <= i < |q| ==> KeyIndex(d, q[i].key) < KeyIndex(d, e.key)
    ensures FirstDeclarationOrder(q + [e], d)
  {
    var r := q + [e];
    forall i, j | 0 <= i < j < |r|
      ensures KeyIndex(d, r[i].key) < KeyIndex(d, r[j].key)
    {
      assert r[i] == q[i];
      if j < |q| {
        assert r[j] == q[j];
      } else {
        assert r[j] == e;
      }
    }
  }

  lemma NewListed(q: seq<Entry>, p: seq<Entry>, e: Entry)
    requires KeysListed(q, p)
    ensures KeysListed(q + [e], p + [e])
  {
    var d, r := p + [e], q + [e];
    forall j | 0 <= j < |d|
      ensures KeyIndex(r, d[j].key) < |r|
    {
      KeyIndexAppend(q, e, d[j].key);
      if j < |p| {
        assert d[j] == p[j];
      }
    }
  }

  lemma NewValues(q: seq<Entry>, p: seq<Entry>, e: Entry)
    requires LastValues(q, p) && forall i :: 0 <= i < |q| ==> q[i].key != e.key
    ensures LastValues(q + [e], p + [e])
    ensures UniqueKeys(q) ==> UniqueKeys(q + [e])
  {
    var r := q + [e];
    forall i | 0 <= i < |r|
      ensures r[i].value == LastValue(p + [e], r[i].key)
    {
      LastValueAppend(p, e, r[i].key);
      if i < |q| {
        assert r[i] == q[i];
      }
    }
  }

  lemma AssignNew(q: seq<Entry>, p: seq<Entry>, e: Entry)
    requires Denotes(q, p) && KeyIndex(q, e.key) == |q|
    ensures Denotes(q + [e], p + [e])
  {
    NewKeyUndeclared(q, p, e);
    NewDeclared(q, p, e);
    OrderTransfer(q, p, p + [e]);
    OrderAppend(q, p + [e], e);
    NewListed(q, p, e);
    NewValues(q, p, e);
  }

  /** `Object.entries` of an object literal lists the object its
      declarations denote. */
  lemma {:induction false} ObjectEntriesSpec(decls: seq<Entry>)
    ensures Denotes(ObjectEntries(decls), decls)
    decreases |decls|
  {
    if decls != [] {
      var p, e := decls[..|decls| - 1], decls[|decls| - 1];
      assert decls == p + [e];
      ObjectEntriesSpec(p);
      var q := ObjectEntries(p);
      if KeyIndex(q, e.key) < |q| {
        AssignExisting(q, p, e);
      } else {
        AssignNew(q, p, e);
      }
    }
  }

  /** The translation dictionary: the literal's own entries, "resistance"
      declared twice. */
  function Dictionary(): seq<Entry>
  {
    ObjectEntries(Declarations)
  }

  lemma {:induction false} KeyIndexConcat(a: seq<Entry>, b: seq<Entry>, k: string)
    ensures KeyIndex(a + b, k) == if KeyIndex(a, k) < |a| then KeyIndex(a, k) else |a| + KeyIndex(b, k)
    decreases |a|
  {
    if a == [] {
      assert a + b == b;
    } else if a[0].key != k {
      assert (a + b)[1..] == a[1..] + b;
      KeyIndexConcat(a[1..], b, k);
    }
  }

  lemma {:induction false} LastValueConcat(a: seq<Entry>, b: seq<Entry>, k: string)
    requires KeyIndex(b, k) < |b|
    ensures LastValue(a + b, k) == LastValue(b, k)
    decreases |b|
  {
    var p, x := b[..|b| - 1], b[|b| - 1];
    assert b == p + [x];
    if x.key != k {
      KeyIndexAppend(p, x, k);
      assert (a + b)[..|a + b| - 1] == a + p;
      LastValueConcat(a, p, k);
    }
  }

  lemma KeyAbsent(es: seq<Entry>, k: string)
    requires forall i :: 0 <= i < |es| ==> es[i].key != k
    ensures KeyIndex(es, k) == |es|
  {
  }

  lemma {:induction false} LastValueAt(es: seq<Entry>, i: nat)
    requires i < |es|
    requires forall j :: i < j < |es| ==> es[j].key != es[i].key
    ensures LastValue(es, es[i].key) == es[i].value
    decreases |es|
  {
    if i < |es| - 1 {
      var p := es[..|es| - 1];
      assert p[i] == es[i];
      forall j | i < j < |p| ensures p[j].key != p[i].key {
        assert p[j] == es[j];
      }
      LastValueAt(p, i);
      assert es[|es| - 1].key != es[i].key;
    }
  }

  lemma OrderedIndices(r: seq<Entry>, decls: seq<Entry>, i: nat, j: nat)
    requires FirstDeclarationOrder(r, decls) && i < |r| && j < |r|
    requires KeyIndex(decls, r[i].key) < KeyIndex(decls, r[j].key)
    ensures i < j
  {
  }

  /** A key declared before another is listed before it, with the value of
      its last declaration. */
  lemma ListedInDeclarationOrder(decls: seq<Entry>, k: string, c: string)
    requires KeyIndex(decls, k) < KeyIndex(decls, c) < |decls|
    ensures KeyIndex(ObjectEntries(decls), k) < KeyIndex(ObjectEntries(decls), c) < |ObjectEntries(decls)|
    ensures ObjectEntries(decls)[KeyIndex(ObjectEntries(decls), k)].value == LastValue(decls, k)
  {
    ObjectEntriesSpec(decls);
    var d := ObjectEntries(decls);
    var ik, ic := KeyIndex(decls, k), KeyIndex(decls, c);
    var jk, jc := KeyIndex(d, decls[ik].key), KeyIndex(d, decls[ic].key);
    assert d[jk].key == k && d[jc].key == c;
    OrderedIndices(d, decls, jk, jc);
  }

  /** No key `k` among the first twenty declarations. */
  lemma NotInFirstTwenty(k: string)
    requires k == "resistance" || k == "circuit"
    ensures KeyIndex(Block1 + Block2, k) == 20
  {
    KeyAbsent(Block1, k);
    KeyAbsent(Block2, k);
    KeyIndexConcat(Block1, Block2, k);
  }

  lemma EarlyBlocks()
    ensures KeyIndex(Block1 + Block2 + Block3, "resistance") == 21
    ensures KeyIndex(Block1 + Block2 + Block3, "circuit") == 22
  {
    NotInFirstTwenty("resistance");
    NotInFirstTwenty("circuit");
    assert KeyIndex(Block3, "resistance") == 1 && KeyIndex(Block3, "circuit") == 2;
    KeyIndexConcat(Block1 + Block2, Block3, "resistance");
    KeyIndexConcat(Block1 + Block2, Block3, "circuit");
  }

  /** Where "resistance" and "circuit" are first declared: one after the
      other among the physics terms. */
  lemma FirstDeclarations()
    ensures KeyIndex(Declarations, "resistance") == 21
    ensures KeyIndex(Declarations, "circuit") == 22
  {
    EarlyBlocks();
    var p3 := Block1 + Block2 + Block3;
    forall k | k == "resistance" || k == "circuit"
      ensures KeyIndex(Declarations, k) == KeyIndex(p3, k)
    {
      KeyIndexConcat(p3, Block4, k);
      KeyIndexConcat(p3 + Block4, Block5, k);
      KeyIndexConcat(p3 + Block4 + Block5, Block6, k);
      KeyIndexConcat(p3 + Block4 + Block5 + Block6, Block7, k);
      KeyIndexConcat(p3 + Block4 + Block5 + Block6 + Block7, Block8, k);
      KeyIndexConcat(p3 + Block4 + Block5 + Block6 + Block7 + Block8, Block9, k);
      KeyIndexConcat(p3 + Block4 + Block5 + Block6 + Block7 + Block8 + Block9, Block10, k);
    }
  }

  /** The last declaration of "resistance", among the history terms. */
  lemma LastDeclaration()
    ensures LastValue(Declarations, "resistance") == "falmii"
  {
    var p9 := Block1 + Block2 + Block3 + Block4 + Block5 + Block6 + Block7 + Block8 + Block9;
    assert Declarations == p9 + Block10;
    assert Block10[3] == Entry("resistance", "falmii");
    LastValueAt(Block10, 3);
    assert KeyIndex(Block10, "resistance") == 3;
    LastValueConcat(p9, Block10, "resistance");
  }

  /** "resistance" is declared first among the physics terms (`mormii`) and
      again among the history terms (`falmii`): the dictionary lists it once,
      with the later value, at the place of the first declaration, so before
      "circuit", the key declared right after that first declaration. */
  lemma ResistanceIsFalmii()
    ensures KeyIndex(Dictionary(), "resistance") < KeyIndex(Dictionary(), "circuit") < |Dictionary()|
    ensures Dictionary()[KeyIndex(Dictionary(), "resistance")].value == "falmii"
  {
    FirstDeclarations();
    LastDeclaration();
    ListedInDeclarationOrder(Declarations, "resistance", "circuit");
  }

  // ------------------------------------------------------ the phrase rules

  /** One chained `.replace(/text/gi, replacement)`. */
  datatype Rule = Rule(text: string, replacement: string)

  const Phrases: seq<Rule> := [
    Rule("is the", "kan"),
    Rule("are the", "kan"),
    Rule("This is", "Kun"),
    Rule("These are", "Kunneen"),
    Rule("because", "sababni isaas"),
    Rule("therefore", "kanaafuu"),
    Rule("for example", "fakkeenyaaf"),
    Rule("in other words", "jecha biraatiin"),
    Rule("means", "jechuudha"),
    Rule("refers to", "gara agarsiisa"),
    Rule("involves", "of keessatti qabata")
  ]

  function PhrasePattern(rule: Rule): Pattern
  {
    Pattern(rule.text, false)
  }

  // --------------------------------------------------------- translation

  /** The text after the `forEach` has replaced the first `|dict|` keys. */
  function ApplyWords(s: string, dict: seq<Entry>): string
    decreases |dict|
  {
    if dict == [] then s
    else
      var e := dict[|dict| - 1];
      ReplaceAll(ApplyWords(s, dict[..|dict| - 1]), WordPattern(e.key), e.value)
  }

  /** The chain of phrase replacements, first rule first. */
  function ApplyPhrases(s: string, rules: seq<Rule>): string
    decreases |rules|
  {
    if rules == [] then s
    else ApplyPhrases(ReplaceAll(s, PhrasePattern(rules[0]), rules[0].replacement), rules[1..])
  }

  function Translate(s: string, language: Language): string
  {
    if language == En then s else ApplyPhrases(ApplyWords(s, Dictionary()), Phrases)
  }

  /** `translateExplanation`: English comes back as it is; for Oromo every
      dictionary key is replaced as a whole word, in the dictionary's order,
      and then the phrases. */
  method TranslateExplanation(explanation: string, language: Language) returns (translated: string)
    ensures translated == Translate(explanation, language)
    ensures language == En ==> translated == explanation
  {
    if language == En {
      return explanation;
    }
    var translations := Dictionary();
    translated := explanation;
    var i := 0;
    while i < |translations|
      invariant 0 <= i <= |translations|
      invariant translated == ApplyWords(explanation, translations[..i])
    {
      var e := translations[i];
      assert translations[..i + 1][..i] == translations[..i];
      translated := ReplaceAll(translated, WordPattern(e.key), e.value);
      i := i + 1;
    }
    assert translations[..i] == translations;
    translated := ApplyPhrases(translated, Phrases);
  }

  /** `translateOptions`: the options are returned as given, in both languages. */
  function TranslateOptions(options: seq<string>, language: Language): (r: seq<string>)
    ensures r == options
  {
    if language == En then options else options
  }

  /** `translateQuestion`: the question is returned as given, in both languages. */
  function TranslateQuestion(question: string, language: Language): (r: string)
    ensures r == question
  {
    if language == En then question else question
  }

  // ------------------------------------------------ translation properties

  /** A text none of whose words is a dictionary key is left alone by the
      word pass. */
  lemma {:induction false} ApplyWordsNoMatch(s: string, dict: seq<Entry>)
    requires forall i, j :: 0 <= i < |dict| && 0 <= j <= |s| ==> !MatchAt(s, WordPattern(dict[i].key), j)
    ensures ApplyWords(s, dict) == s
    decreases |dict|
  {
    if dict != [] {
      var p := dict[..|dict| - 1];
      assert forall i :: 0 <= i < |p| ==> p[i] == dict[i];
      ApplyWordsNoMatch(s, p);
      ReplaceAllNoMatch(s, WordPattern(dict[|dict| - 1].key), dict[|dict| - 1].value);
    }
  }

  lemma {:induction false} ApplyPhrasesNoMatch(s: string, rules: seq<Rule>)
    requires forall i, j :: 0 <= i < |rules| && 0 <= j <= |s| ==> !MatchAt(s, PhrasePattern(rules[i]), j)
    ensures ApplyPhrases(s, rules) == s
    decreases |rules|
  {
    if rules != [] {
      ReplaceAllNoMatch(s, PhrasePattern(rules[0]), rules[0].replacement);
      assert forall i :: 0 <= i < |rules[1..]| ==> rules[1..][i] == rules[i + 1];
      ApplyPhrasesNoMatch(s, rules[1..]);
    }
  }

  /** A text that contains no declared key as a whole word and none of the
      phrases is returned unchanged in Oromo too. */
  lemma TranslateUnchanged(s: string)
    requires forall i, j :: 0 <= i < |Declarations| && 0 <= j <= |s| ==>
               !MatchAt(s, WordPattern(Declarations[i].key), j)
    requires forall i, j :: 0 <= i < |Phrases| && 0 <= j <= |s| ==> !MatchAt(s, PhrasePattern(Phrases[i]), j)
    ensures Translate(s, Om) == s
  {
    ObjectEntriesSpec(Declarations);
    var d := Dictionary();
    forall i, j | 0 <= i < |d| && 0 <= j <= |s|
      ensures !MatchAt(s, WordPattern(d[i].key), j)
    {
      var t := KeyIndex(Declarations, d[i].key);
      assert Declarations[t].key == d[i].key;
    }
    ApplyWordsNoMatch(s, d);
    ApplyPhrasesNoMatch(s, Phrases);
  }

  /** The word pass treats the words of a text independently: what stands
      on either side of a non-word character is translated on its own. */
  lemma {:induction false} ApplyWordsSplit(x: string, c: char, y: string, dict: seq<Entry>)
    requires AllWordKeys(dict) && !IsWordChar(c)
    ensures ApplyWords(x + [c] + y, dict) == ApplyWords(x, dict) + [c] + ApplyWords(y, dict)
    decreases |dict|
  {
    if dict != [] {
      var p, e := dict[..|dict| - 1], dict[|dict| - 1];
      assert forall i :: 0 <= i < |p| ==> p[i] == dict[i];
      ApplyWordsSplit(x, c, y, p);
      ReplaceAllSplit(ApplyWords(x, p), c, ApplyWords(y, p), e.key, e.value);
    }
  }

  /** Every dictionary key is a lower-case word. */
  lemma DictionaryKeys()
    ensures AllWordKeys(Dictionary())
  {
    DeclarationKeys();
    ObjectEntriesSpec(Declarations);
    var d := Dictionary();
    forall i | 0 <= i < |d| ensures IsWordKey(d[i].key) {
      assert Declarations[KeyIndex(Declarations, d[i].key)].key == d[i].key;
    }
  }

  /** The dictionary pass of `translateExplanation` translates the words
      on either side of a non-word character independently. */
  lemma WordPassSplit(x: string, c: char, y: string)
    requires !IsWordChar(c)
    ensures ApplyWords(x + [c] + y, Dictionary()) == ApplyWords(x, Dictionary()) + [c] + ApplyWords(y, Dictionary())
  {
    DictionaryKeys();
    ApplyWordsSplit(x, c, y, Dictionary());
  }

  // ------------------------------------------ the pass on a single word

  /** Running the pass over `a + b` is running it over `a`, then over `b`. */
  lemma {:induction false} ApplyWordsConcat(s: string, a: seq<Entry>, b: seq<Entry>)
    ensures ApplyWords(s, a + b) == ApplyWords(ApplyWords(s, a), b)
    decreases |b|
  {
    if b == [] {
      assert a + b == a;
    } else {
      var b0 := b[..|b| - 1];
      assert (a + b)[..|a + b| - 1] == a + b0;
      assert (a + b)[|a + b| - 1] == b[|b| - 1];
      ApplyWordsConcat(s, a, b0);
    }
  }

  /** Between two lower-case words, equality ignoring case is equality. */
  lemma FoldEqualWords(w: string, k: string)
    requires IsWordKey(w) && IsWordKey(k)
    ensures FoldEqual(w, k) <==> w == k
  {
    if FoldEqual(w, k) {
      forall j | 0 <= j < |w| ensures w[j] == k[j] {
        assert Fold(w[j]) == Fold(k[j]);
      }
    }
  }

  /** One whole-word replace on a lower-case word: the word becomes the
      value exactly when it is the key. */
  lemma ReplaceWordKey(w: string, k: string, v: string)
    requires IsWordKey(w) && IsWordKey(k)
    ensures ReplaceAll(w, WordPattern(k), v) == if w == k then v else w
  {
    FoldEqualWords(w, k);
    ReplaceAllWord(w, k, v);
  }

  /** A lower-case word that is no key of the pass comes out unchanged. */
  lemma {:induction false} ApplyWordsWordUnchanged(w: string, d: seq<Entry>)
    requires IsWordKey(w) && AllWordKeys(d)
    requires forall i :: 0 <= i < |d| ==> d[i].key != w
    ensures ApplyWords(w, d) == w
    decreases |d|
  {
    if d != [] {
      var d0 := d[..|d| - 1];
      assert forall i :: 0 <= i < |d0| ==> d0[i] == d[i];
      ApplyWordsWordUnchanged(w, d0);
      ReplaceWordKey(w, d[|d| - 1].key, d[|d| - 1].value);
    }
  }

  /** A lower-case word that is the key of entry `t` becomes that entry's
      value, when no earlier entry has the word as key and no later entry
      has the value, itself a single word, as key. */
  lemma ApplyWordsWordTranslated(w: string, v: string, d: seq<Entry>, t: nat)
    requires AllWordKeys(d) && t < |d| && d[t] == Entry(w, v)
    requires IsWordKey(v)
    requires forall i :: 0 <= i < t ==> d[i].key != w
    requires forall i :: t < i < |d| ==> d[i].key != v
    ensures ApplyWords(w, d) == v
  {
    var upTo, after := d[..t + 1], d[t + 1..];
    var before := upTo[..t];
    assert forall i :: 0 <= i < |before| ==> before[i] == d[i];
    assert forall i :: 0 <= i < |after| ==> after[i] == d[t + 1 + i];
    assert IsWordKey(d[t].key);
    ApplyWordsWordUnchanged(w, before);
    ReplaceWordKey(w, w, v);
    assert upTo[t] == d[t];
    assert ApplyWords(w, upTo) == v;
    ApplyWordsWordUnchanged(v, after);
    assert d == upTo + after;
    ApplyWordsConcat(w, upTo, after);
  }

  /** No entry of `es` has the key `k`. */
  predicate NoKey(es: seq<Entry>, k: string)
  {
    forall i :: 0 <= i < |es| ==> es[i].key != k
  }

  lemma NoKeyConcat(a: seq<Entry>, b: seq<Entry>, k: string)
    requires NoKey(a, k) && NoKey(b, k)
    ensures NoKey(a + b, k)
  {
    forall i | 0 <= i < |a + b| ensures (a + b)[i].key != k {
      if i >= |a| {
        assert (a + b)[i] == b[i - |a|];
      }
    }
  }

  /** "falmii" is not a key of the physics and science blocks. */
  lemma FalmiiNotEarly()
    ensures NoKey(Block1, "falmii") && NoKey(Block2, "falmii") && NoKey(Block3, "falmii")
    ensures NoKey(Block4, "falmii") && NoKey(Block5, "falmii")
  {
  }

  /** "falmii" is not a key of the computing, civics and history blocks. */
  lemma FalmiiNotLate()
    ensures NoKey(Block6, "falmii") && NoKey(Block7, "falmii") && NoKey(Block8, "falmii")
    ensures NoKey(Block9, "falmii") && NoKey(Block10, "falmii")
  {
    assert NoKey(Block7Head, "falmii") && NoKey(Block7Tail, "falmii");
    NoKeyConcat(Block7Head, Block7Tail, "falmii");
  }

  /** "falmii" is not a key of the literal. */
  lemma FalmiiUndeclared()
    ensures KeyIndex(Declarations, "falmii") == |Declarations|
  {
    var k := "falmii";
    FalmiiNotEarly();
    FalmiiNotLate();
    NoKeyConcat(Block1, Block2, k);
    NoKeyConcat(Block1 + Block2, Block3, k);
    NoKeyConcat(Block1 + Block2 + Block3, Block4, k);
    NoKeyConcat(Block1 + Block2 + Block3 + Block4, Block5, k);
    NoKeyConcat(Block1 + Block2 + Block3 + Block4 + Block5, Block6, k);
    NoKeyConcat(Block1 + Block2 + Block3 + Block4 + Block5 + Block6, Block7, k);
    NoKeyConcat(Block1 + Block2 + Block3 + Block4 + Block5 + Block6 + Block7, Block8, k);
    NoKeyConcat(Block1 + Block2 + Block3 + Block4 + Block5 + Block6 + Block7 + Block8, Block9, k);
    NoKeyConcat(Block1 + Block2 + Block3 + Block4 + Block5 + Block6 + Block7 + Block8 + Block9, Block10, k);
    KeyAbsent(Declarations, k);
  }

  /** The pass over the entries of an object literal with lower-case word
      keys turns a declared key `w` into `v`, the value of its last
      declaration, when `v` is a lower-case word that is not declared as a
      key. */
  lemma EntriesTranslateWord(decls: seq<Entry>, w: string, v: string)
    requires AllWordKeys(decls) && IsWordKey(v)
    requires KeyIndex(decls, w) < |decls| && KeyIndex(decls, v) == |decls|
    requires LastValue(decls, w) == v
    ensures ApplyWords(w, ObjectEntries(decls)) == v
  {
    ObjectEntriesSpec(decls);
    var d := ObjectEntries(decls);
    assert KeyIndex(d, decls[KeyIndex(decls, w)].key) < |d|;
    var t := KeyIndex(d, w);
    forall i | 0 <= i < |d| ensures IsWordKey(d[i].key) {
      assert decls[KeyIndex(decls, d[i].key)].key == d[i].key;
    }
    forall i | 0 <= i < t ensures d[i].key != w {
      KeyIndexFirst(d, w, i);
    }
    forall i | t < i < |d| ensures d[i].key != v {
      assert KeyIndex(decls, d[i].key) < |decls|;
    }
    ApplyWordsWordTranslated(w, v, d, t);
  }

  /** The dictionary pass turns the word "resistance" into "falmii", the
      value of its second declaration: no earlier entry touches it, and no
      later entry has "falmii" as key. */
  lemma ResistanceTranslated()
    ensures ApplyWords("resistance", Dictionary()) == "falmii"
  {
    DeclarationKeys();
    FirstDeclarations();
    LastDeclaration();
    FalmiiUndeclared();
    EntriesTranslateWord(Declarations, "resistance", "falmii");
  }

  /** None of the eleven phrases occurs in "falmii". */
  lemma FalmiiHasNoPhrase()
    ensures forall i, j :: 0 <= i < |Phrases| && 0 <= j <= |"falmii"| ==>
              !MatchAt("falmii", PhrasePattern(Phrases[i]), j)
  {
    var s := "falmii";
    forall i, j | 0 <= i < |Phrases| && 0 <= j <= |s|
      ensures !MatchAt(s, PhrasePattern(Phrases[i]), j)
    {
      var p := Phrases[i].text;
      if j + |p| <= |s| {
        assert p == "is the" || p == "means";
        assert Fold(s[j]) != Fold(p[0]);
      }
    }
  }

  /** In Oromo, the explanation "resistance" is translated to "falmii". */
  lemma ResistanceTranslatesToFalmii()
    ensures Translate("resistance", Om) == "falmii"
  {
    ResistanceTranslated();
    FalmiiHasNoPhrase();
    ApplyPhrasesNoMatch("falmii", Phrases);
  }

  /** The phrase rule for "means" has no word boundaries, so it rewrites
      the inside of "Demeans". */
  lemma PhraseInsideWord()
    ensures ReplaceAll("Demeans", Pattern("means", false), "jechuudha") == "Dejechuudha"
  {
    var a, p, v := "De", "means", "jechuudha";
    assert Fold(a[0]) != Fold(p[0]) && Fold(a[1]) != Fold(p[0]);
    assert FoldEqual(p, p);
    ReplaceAllPhrase(a, p, [], p, v);
    assert ReplaceAll([], Pattern(p, false), v) == [];
    assert a + p + [] == "Demeans";
    assert a + v + [] == "Dejechuudha";
  }

  /** The key "force" replaces "Force": case does not matter. */
  lemma KeyIgnoresCase()
    ensures ReplaceAll("Force", WordPattern("force"), "humna") == "humna"
  {
    var w, k := "Force", "force";
    assert Fold(w[0]) == Fold(k[0]);
    assert FoldEqual(w, k);
    ReplaceAllWord(w, k, "humna");
  }
}
