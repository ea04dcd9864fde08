/**
 * Masking of sensitive parameter values: a fold of regular-expression replacements, one pass of
 * `name=([^&]+)` per rule, proved equal to cutting every `&`-separated segment once.
 */
module Masking {
  import opened Wrappers
  import opened Templates

  const STARS: string := "****"

  // ----- the fold of replacements -----

  /** The index of the first `&` of `t` at or after `i`, or the length of `t`. */
  function SegmentEnd(t: string, i: nat): (k: nat)
    requires i <= |t|
    ensures i <= k <= |t|
    ensures forall l :: i <= l < k ==> t[l] != '&'
    ensures k < |t| ==> t[k] == '&'
    decreases |t| - i
  {
    if i == |t| || t[i] == '&' then i else SegmentEnd(t, i + 1)
  }

  function Key(name: string): (k: string)
    ensures |k| == |name| + 1 && k[|name|] == '=' && k[..|name|] == name
  {
    name + "="
  }

  /** The text `p` occurs in `t` at `i`. */
  predicate Occurs(t: string, i: int, p: string)
  {
    0 <= i && i + |p| <= |t| && t[i..i + |p|] == p
  }

  /** The pattern matches at `i`: the key, then at least one character that is not `&`. */
  predicate MatchAt(t: string, i: int, key: string)
  {
    Occurs(t, i, key) && i + |key| < |t| && t[i + |key|] != '&'
  }

  /** What replaces a match: the rule's name, `=` and the stars, read as a template. */
  function Replacement(name: string, whole: string, value: string): string
  {
    Expand(Key(name) + STARS, whole, value)
  }

  /** `replace_all`: leftmost, greedy, non-overlapping. */
  function ReplaceAll(t: string, name: string): string
    decreases |t|
  {
    if t == [] then []
    else if MatchAt(t, 0, Key(name)) then
      var end := SegmentEnd(t, |Key(name)|);
      Replacement(name, t[..end], t[|Key(name)|..end]) + ReplaceAll(t[end..], name)
    else [t[0]] + ReplaceAll(t[1..], name)
  }

  /** Applies the rules one after another. */
  function MaskSensitiveData(names: seq<string>, t: string): string
  {
    if names == [] then t else MaskSensitiveData(names[1..], ReplaceAll(t, names[0]))
  }

  // ----- the single pass -----

  /** The first `e` characters of `s` end with a configured name and `=`, and something follows. */
  predicate CutAt(names: set<string>, s: string, e: int)
  {
    0 < e < |s| && exists n :: n in names && Occurs(s, e - |Key(n)|, Key(n))
  }

  /** The first cut of `s` at or after `e`. */
  function FirstCut(names: set<string>, s: string, e: nat): (c: Option<int>)
    requires e <= |s|
    ensures c.Some? ==> e <= c.value < |s| && CutAt(names, s, c.value)
    ensures forall l :: e <= l < (if c.Some? then c.value else |s|) ==> !CutAt(names, s, l)
    decreases |s| - e
  {
    if e == |s| then None else if CutAt(names, s, e) then Some(e) else FirstCut(names, s, e + 1)
  }

  function MaskSegment(names: set<string>, s: string): string
  {
    match FirstCut(names, s, 0)
    case None => s
    case Some(e) => s[..e] + STARS
  }

  /** Cuts every segment after the first `=` that ends an occurrence of any configured name. */
  function OnePass(names: set<string>, t: string): string
    decreases |t|
  {
    var k := SegmentEnd(t, 0);
    if k == |t| then MaskSegment(names, t)
    else MaskSegment(names, t[..k]) + "&" + OnePass(names, t[k + 1..])
  }

  predicate OneSegment(s: string)
  {
    '&' !in s
  }

  /** The name can be matched segment by segment, and its replacement is not read as anything but itself. */
  predicate PlainName(name: string)
  {
    OneSegment(name) && Literal(name)
  }

  predicate Plain(names: set<string>)
  {
    forall n :: n in names ==> PlainName(n)
  }

  // ----- one rule on one segment -----

  lemma FirstCutIs(names: set<string>, s: string, e: nat, c: nat)
    requires e <= c < |s| && CutAt(names, s, c)
    requires forall l :: e <= l < c ==> !CutAt(names, s, l)
    ensures FirstCut(names, s, e) == Some(c)
  {
  }

  lemma SegmentEndOfSegment(s: string, i: nat)
    requires OneSegment(s) && i <= |s|
    ensures SegmentEnd(s, i) == |s|
  {
  }

  lemma SingleCut(name: string, s: string, e: int)
    requires OneSegment(s)
    ensures CutAt({name}, s, e) <==> MatchAt(s, e - |Key(name)|, Key(name))
  {
    if MatchAt(s, e - |Key(name)|, Key(name)) {
      assert name in {name};
    }
  }

  lemma MatchShift(t: string, a: nat, j: nat, key: string)
    requires a + j <= |t|
    ensures MatchAt(t, a + j, key) <==> MatchAt(t[a..], j, key)
  {
    if a + j + |key| <= |t| {
      assert t[a + j..a + j + |key|] == t[a..][j..j + |key|];
    }
  }

  lemma CopyStep(t: string, name: string, rest: string)
    requires t != [] && !MatchAt(t, 0, Key(name)) && rest == ReplaceAll(t[1..], name)
    ensures ReplaceAll(t, name) == [t[0]] + rest
  {
  }

  lemma CopyOne(t: string, m: nat, rest: string)
    requires 0 < m <= |t|
    ensures [t[0]] + (t[1..][..m - 1] + rest) == t[..m] + rest
  {
  }

  /** The scanner copies everything before the first match. */
  lemma {:induction false} CopyPrefix(t: string, name: string, m: nat, key: string, rest: string)
    requires m <= |t| && key == Key(name) && rest == ReplaceAll(t[m..], name)
    requires forall l :: 0 <= l < m ==> !MatchAt(t, l, key)
    ensures ReplaceAll(t, name) == t[..m] + rest
    decreases m
  {
    if m == 0 {
      assert t[0..] == t;
    } else {
      forall l | 0 <= l < m - 1
        ensures !MatchAt(t[1..], l, key)
      {
        MatchShift(t, 1, l, key);
      }
      assert t[1..][m - 1..] == t[m..];
      CopyPrefix(t[1..], name, m - 1, key, rest);
      CopyStep(t, name, t[1..][..m - 1] + rest);
      CopyOne(t, m, rest);
    }
  }

  lemma NameTail(name: string)
    ensures Literal(Key(name) + STARS) <==> Literal(name)
  {
    InertTail(name, "=****");
    assert Key(name) + STARS == name + "=****";
  }

  lemma LiteralReplacement(name: string, whole: string, value: string)
    requires Literal(name)
    ensures Replacement(name, whole, value) == Key(name) + STARS
  {
    NameTail(name);
    LiteralExpands(Key(name) + STARS, whole, value);
  }

  lemma MatchStep(t: string, name: string, key: string, after: string, rest: string)
    requires t != [] && key == Key(name) && MatchAt(t, 0, key) && Literal(name)
    requires after == t[SegmentEnd(t, |key|)..] && rest == ReplaceAll(after, name)
    ensures ReplaceAll(t, name) == key + STARS + rest
  {
    var end := SegmentEnd(t, |key|);
    LiteralReplacement(name, t[..end], t[|key|..end]);
  }

  lemma {:induction false} SegmentEndShift(t: string, a: nat, j: nat)
    requires a + j <= |t|
    ensures SegmentEnd(t, a + j) == a + SegmentEnd(t[a..], j)
    decreases |t| - a - j
  {
    if a + j == |t| || t[a + j] == '&' {
    } else {
      SegmentEndShift(t, a, j + 1);
    }
  }

  lemma TailEnd(t: string, m: nat, end: nat, key: string, tail: string)
    requires m + |key| <= |t| && tail == t[m..] && end == SegmentEnd(t, m + |key|)
    ensures tail[SegmentEnd(tail, |key|)..] == t[end..]
  {
    SegmentEndShift(t, m, |key|);
  }

  lemma MatchTail(t: string, name: string, m: nat, end: nat, key: string, tail: string, rest: string)
    requires key == Key(name) && MatchAt(t, m, key) && tail == t[m..] && Literal(name)
    requires end == SegmentEnd(t, m + |key|) && rest == ReplaceAll(t[end..], name)
    ensures ReplaceAll(tail, name) == key + STARS + rest
  {
    MatchShift(t, m, 0, key);
    TailEnd(t, m, end, key, tail);
    MatchStep(tail, name, key, t[end..], rest);
  }

  lemma CutText(t: string, m: nat, key: string, rest: string)
    requires Occurs(t, m, key)
    ensures t[..m] + (key + STARS + rest) == t[..m + |key|] + STARS + rest
  {
    assert t[..m + |key|] == t[..m] + key;
  }

  /** The first match at `m`, whose value ends at `end`. */
  lemma ReplaceAtFirst(t: string, name: string, m: nat, end: nat, key: string, rest: string, out: string)
    requires key == Key(name) && MatchAt(t, m, key) && forall l :: 0 <= l < m ==> !MatchAt(t, l, key)
    requires Literal(name)
    requires end == SegmentEnd(t, m + |key|) && rest == ReplaceAll(t[end..], name)
    requires out == t[..m + |key|] + STARS + rest
    ensures ReplaceAll(t, name) == out
  {
    MatchTail(t, name, m, end, key, t[m..], rest);
    CopyPrefix(t, name, m, key, key + STARS + rest);
    CutText(t, m, key, rest);
  }

  lemma MatchIsCut(name: string, s: string, key: string, l: nat)
    requires OneSegment(s) && key == Key(name) && MatchAt(s, l, key)
    ensures var c := FirstCut({name}, s, 0); c.Some? && c.value <= l + |key|
  {
    SingleCut(name, s, l + |key|);
  }

  /** The first cut of a segment for one name is the end of the first match of its key. */
  lemma FirstMatch(name: string, s: string, key: string)
    requires OneSegment(s) && key == Key(name)
    ensures var c := FirstCut({name}, s, 0);
            && (c.None? ==> forall l :: 0 <= l < |s| ==> !MatchAt(s, l, key))
            && (c.Some? ==> c.value >= |key| && MatchAt(s, c.value - |key|, key)
                            && forall l :: 0 <= l < c.value - |key| ==> !MatchAt(s, l, key))
  {
    var c := FirstCut({name}, s, 0);
    forall l | 0 <= l < |s| && (c.None? || l < c.value - |key|)
      ensures !MatchAt(s, l, key)
    {
      if MatchAt(s, l, key) {
        MatchIsCut(name, s, key, l);
      }
    }
    if c.Some? {
      SingleCut(name, s, c.value);
    }
  }

  lemma ReplaceCut(name: string, s: string, key: string, c: nat)
    requires OneSegment(s) && Literal(name) && key == Key(name) && |key| <= c < |s|
    requires MatchAt(s, c - |key|, key) && forall l :: 0 <= l < c - |key| ==> !MatchAt(s, l, key)
    ensures ReplaceAll(s, name) == s[..c] + STARS
  {
    SegmentEndOfSegment(s, c);
    assert s[..c] + STARS + [] == s[..c] + STARS;
    ReplaceAtFirst(s, name, c - |key|, |s|, key, [], s[..c] + STARS);
  }

  lemma ReplaceNothing(name: string, s: string, key: string)
    requires key == Key(name) && forall l :: 0 <= l < |s| ==> !MatchAt(s, l, key)
    ensures ReplaceAll(s, name) == s
  {
    assert s[|s|..] == [] && ReplaceAll([], name) == [];
    CopyPrefix(s, name, |s|, key, []);
    assert s[..|s|] + [] == s;
  }

  lemma ReplaceSegment(name: string, s: string, masked: string)
    requires OneSegment(s) && Literal(name) && masked == MaskSegment({name}, s)
    ensures ReplaceAll(s, name) == masked
  {
    var key := Key(name);
    FirstMatch(name, s, key);
    match FirstCut({name}, s, 0)
    case None =>
      ReplaceNothing(name, s, key);
    case Some(c) =>
      ReplaceCut(name, s, key, c);
  }

  // ----- one rule on a whole text -----

  lemma OccursChars(t: string, i: int, p: string)
    requires Occurs(t, i, p)
    ensures forall l :: 0 <= l < |p| ==> p[l] == t[i + l]
  {
    assert forall l :: 0 <= l < |p| ==> p[l] == t[i..i + |p|][l];
  }

  lemma OccursBefore(t: string, k: nat, i: nat, key: string)
    requires k < |t| && t[k] == '&' && i <= k && OneSegment(key) && Occurs(t, i, key)
    ensures i + |key| <= k
  {
    OccursChars(t, i, key);
  }

  /** A key without `&` matches inside a segment exactly where it matches in the whole text. */
  lemma MatchInSegment(t: string, k: nat, i: nat, key: string)
    requires k < |t| && t[k] == '&' && i < k && key != [] && OneSegment(key)
    ensures MatchAt(t, i, key) <==> MatchAt(t[..k], i, key)
  {
    var s := t[..k];
    if MatchAt(t, i, key) {
      OccursBefore(t, k, i, key);
      assert s[i..i + |key|] == t[i..i + |key|];
    }
    if MatchAt(s, i, key) {
      assert s[i..i + |key|] == t[i..i + |key|];
    }
  }

  lemma NoMatchAtAmpersand(t: string, k: nat, key: string)
    requires k < |t| && t[k] == '&' && key != [] && OneSegment(key)
    ensures !MatchAt(t, k, key)
  {
    if Occurs(t, k, key) {
      OccursChars(t, k, key);
    }
  }

  lemma SegmentEndIs(t: string, i: nat, k: nat)
    requires i <= k < |t| && t[k] == '&' && OneSegment(t[..k])
    ensures SegmentEnd(t, i) == k
  {
    assert forall l :: 0 <= l < k ==> t[l] == t[..k][l];
  }

  lemma FirstMatchInText(t: string, k: nat, name: string, key: string)
    requires k < |t| && t[k] == '&' && OneSegment(t[..k]) && OneSegment(name) && key == Key(name)
    ensures var c := FirstCut({name}, t[..k], 0);
            && (c.None? ==> forall l :: 0 <= l < k ==> !MatchAt(t, l, key))
            && (c.Some? ==> |key| <= c.value < k && MatchAt(t, c.value - |key|, key)
                            && forall l :: 0 <= l < c.value - |key| ==> !MatchAt(t, l, key))
  {
    FirstMatch(name, t[..k], key);
    forall l | 0 <= l < k
      ensures MatchAt(t, l, key) <==> MatchAt(t[..k], l, key)
    {
      MatchInSegment(t, k, l, key);
    }
  }

  lemma ReplaceCutSegment(t: string, k: nat, name: string, c: nat, key: string, rest: string)
    requires k < |t| && t[k] == '&' && OneSegment(t[..k]) && key == Key(name) && |key| <= c < k
    requires MatchAt(t, c - |key|, key) && forall l :: 0 <= l < c - |key| ==> !MatchAt(t, l, key)
    requires Literal(name) && rest == ReplaceAll(t[k..], name)
    ensures ReplaceAll(t, name) == t[..c] + STARS + rest
  {
    SegmentEndIs(t, c, k);
    ReplaceAtFirst(t, name, c - |key|, k, key, rest, t[..c] + STARS + rest);
  }

  /** The scanner treats the first segment as if it stood alone. */
  lemma ReplaceFirstSegment(t: string, k: nat, name: string, masked: string, rest: string)
    requires k < |t| && t[k] == '&' && OneSegment(t[..k]) && PlainName(name)
    requires masked == MaskSegment({name}, t[..k]) && rest == ReplaceAll(t[k..], name)
    ensures ReplaceAll(t, name) == masked + rest
  {
    var key, cut := Key(name), FirstCut({name}, t[..k], 0);
    FirstMatchInText(t, k, name, key);
    if cut.None? {
      CopyPrefix(t, name, k, key, rest);
    } else {
      assert t[..k][..cut.value] == t[..cut.value];
      ReplaceCutSegment(t, k, name, cut.value, key, rest);
    }
  }

  lemma ReplaceAmpersand(t: string, k: nat, name: string)
    requires k < |t| && t[k] == '&' && OneSegment(name)
    ensures ReplaceAll(t[k..], name) == "&" + ReplaceAll(t[k + 1..], name)
  {
    NoMatchAtAmpersand(t[k..], 0, Key(name));
    assert t[k..][1..] == t[k + 1..];
    CopyStep(t[k..], name, ReplaceAll(t[k + 1..], name));
  }

  lemma JoinAssociates(a: string, b: string)
    ensures a + ("&" + b) == a + "&" + b
  {
  }

  lemma OnePassSplit(names: set<string>, t: string, k: nat, m: string, rest: string)
    requires k == SegmentEnd(t, 0) < |t| && m == MaskSegment(names, t[..k]) && rest == OnePass(names, t[k + 1..])
    ensures OnePass(names, t) == m + "&" + rest
  {
  }

  lemma FirstSegmentPlain(t: string)
    ensures OneSegment(t[..SegmentEnd(t, 0)])
  {
  }

  /** One rule over the whole text is the single pass with that one name. */
  lemma {:induction false} ReplaceIsOnePass(t: string, name: string)
    requires PlainName(name)
    ensures ReplaceAll(t, name) == OnePass({name}, t)
    decreases |t|
  {
    var k := SegmentEnd(t, 0);
    FirstSegmentPlain(t);
    var masked := MaskSegment({name}, t[..k]);
    if k == |t| {
      assert t[..k] == t;
      ReplaceSegment(name, t, masked);
    } else {
      var later := ReplaceAll(t[k + 1..], name);
      ReplaceAmpersand(t, k, name);
      ReplaceFirstSegment(t, k, name, masked, "&" + later);
      ReplaceIsOnePass(t[k + 1..], name);
      OnePassSplit({name}, t, k, masked, later);
      JoinAssociates(masked, later);
    }
  }

  // ----- several rules on one segment -----

  lemma CutUnion(a: set<string>, b: set<string>, s: string, e: int)
    ensures CutAt(a + b, s, e) <==> CutAt(a, s, e) || CutAt(b, s, e)
  {
    if CutAt(a, s, e) {
      var n :| n in a && Occurs(s, e - |Key(n)|, Key(n));
      assert n in a + b;
    }
    if CutAt(b, s, e) {
      var n :| n in b && Occurs(s, e - |Key(n)|, Key(n));
      assert n in a + b;
    }
  }

  lemma OccursInPrefix(s: string, r: string, c: nat, i: int, p: string)
    requires c <= |s| && c <= |r| && s[..c] == r[..c] && i + |p| <= c
    ensures Occurs(s, i, p) <==> Occurs(r, i, p)
  {
    if 0 <= i {
      assert s[i..i + |p|] == s[..c][i..i + |p|];
      assert r[i..i + |p|] == r[..c][i..i + |p|];
    }
  }

  /** Whether a segment is cut at `e` depends only on its first `e` characters and there being more. */
  lemma CutInPrefix(names: set<string>, s: string, r: string, c: nat, e: int)
    requires c < |s| && c < |r| && s[..c] == r[..c] && e <= c
    ensures CutAt(names, s, e) <==> CutAt(names, r, e)
  {
    forall n | n in names
      ensures Occurs(s, e - |Key(n)|, Key(n)) <==> Occurs(r, e - |Key(n)|, Key(n))
    {
      OccursInPrefix(s, r, c, e - |Key(n)|, Key(n));
    }
  }

  /** No cut falls inside the stars: a cut follows an `=`. */
  lemma NoCutInStars(names: set<string>, s: string, c: nat, e: int)
    requires c <= |s| && e > c
    ensures !CutAt(names, s[..c] + STARS, e)
  {
    var m := s[..c] + STARS;
    if 0 < e < |m| {
      forall n | n in names
        ensures !Occurs(m, e - |Key(n)|, Key(n))
      {
        if Occurs(m, e - |Key(n)|, Key(n)) {
          OccursChars(m, e - |Key(n)|, Key(n));
        }
      }
    }
  }

  lemma FirstCutAgree(names: set<string>, s: string, other: set<string>, r: string)
    requires |s| == |r| && forall e :: 0 <= e < |s| ==> (CutAt(names, s, e) <==> CutAt(other, r, e))
    ensures FirstCut(names, s, 0) == FirstCut(other, r, 0)
  {
  }

  /** The first cut of `b` in an already masked segment. */
  lemma CutsAfterMask(b: set<string>, s: string, c: nat, e: int)
    requires 0 < c < |s|
    ensures CutAt(b, s[..c] + STARS, e) <==> e <= c && CutAt(b, s, e)
  {
    var m := s[..c] + STARS;
    if e <= c {
      assert m[..c] == s[..c];
      CutInPrefix(b, s, m, c, e);
    } else {
      NoCutInStars(b, s, c, e);
    }
  }

  lemma MaskedIs(names: set<string>, s: string, c: nat)
    requires 0 < c < |s| && CutAt(names, s, c) && forall e :: 0 <= e < c ==> !CutAt(names, s, e)
    ensures MaskSegment(names, s) == s[..c] + STARS
  {
    FirstCutIs(names, s, 0, c);
  }

  lemma UnmaskedIs(names: set<string>, s: string)
    requires forall e :: 0 <= e < |s| ==> !CutAt(names, s, e)
    ensures MaskSegment(names, s) == s
  {
  }

  lemma MaskCutTwice(a: set<string>, b: set<string>, s: string, c: nat)
    requires FirstCut(a, s, 0) == Some(c)
    requires forall e :: CutAt(a + b, s, e) <==> CutAt(a, s, e) || CutAt(b, s, e)
    ensures MaskSegment(b, s[..c] + STARS) == MaskSegment(a + b, s)
  {
    var m := s[..c] + STARS;
    forall e
      ensures CutAt(b, m, e) <==> e <= c && CutAt(b, s, e)
    {
      CutsAfterMask(b, s, c, e);
    }
    match FirstCut(b, m, 0)
    case None =>
      assert forall e :: 0 <= e < c ==> !CutAt(b, m, e);
      MaskedIs(a + b, s, c);
    case Some(d) =>
      assert forall e :: 0 <= e < d ==> !CutAt(b, m, e);
      MaskedIs(a + b, s, d);
      assert m[..d] == s[..d];
  }

  /** Masking a masked segment with more names is masking once with all of them: the earliest cut wins. */
  lemma MaskTwice(a: set<string>, b: set<string>, s: string)
    ensures MaskSegment(b, MaskSegment(a, s)) == MaskSegment(a + b, s)
  {
    forall e
      ensures CutAt(a + b, s, e) <==> CutAt(a, s, e) || CutAt(b, s, e)
    {
      CutUnion(a, b, s, e);
    }
    match FirstCut(a, s, 0)
    case None =>
      FirstCutAgree(a + b, s, b, s);
    case Some(c) =>
      MaskCutTwice(a, b, s, c);
  }

  lemma MaskedOneSegment(names: set<string>, s: string)
    requires OneSegment(s)
    ensures OneSegment(MaskSegment(names, s))
  {
  }

  // ----- the fold is the single pass -----

  lemma OnePassJoin(names: set<string>, s: string, rest: string)
    requires OneSegment(s)
    ensures OnePass(names, s + "&" + rest) == MaskSegment(names, s) + "&" + OnePass(names, rest)
  {
    var t := s + "&" + rest;
    assert t[..|s|] == s && t[|s|] == '&' && t[|s| + 1..] == rest;
    SegmentEndIs(t, 0, |s|);
  }

  lemma OnePassSegment(names: set<string>, s: string)
    requires OneSegment(s)
    ensures OnePass(names, s) == MaskSegment(names, s)
  {
    SegmentEndOfSegment(s, 0);
  }

  lemma {:induction false} PassTwice(a: set<string>, b: set<string>, t: string)
    ensures OnePass(b, OnePass(a, t)) == OnePass(a + b, t)
    decreases |t|
  {
    var k := SegmentEnd(t, 0);
    var s := t[..k];
    FirstSegmentPlain(t);
    MaskTwice(a, b, s);
    MaskedOneSegment(a, s);
    if k == |t| {
      assert s == t;
      OnePassSegment(b, MaskSegment(a, s));
    } else {
      OnePassJoin(b, MaskSegment(a, s), OnePass(a, t[k + 1..]));
      PassTwice(a, b, t[k + 1..]);
    }
  }

  function Names(rules: seq<string>): set<string>
  {
    set i | 0 <= i < |rules| :: rules[i]
  }

  lemma {:induction false} FoldFrom(rules: seq<string>, done: set<string>, t: string)
    requires Plain(Names(rules))
    ensures MaskSensitiveData(rules, OnePass(done, t)) == OnePass(done + Names(rules), t)
    decreases |rules|
  {
    if rules == [] {
      assert done + Names(rules) == done;
    } else {
      var name, later := rules[0], rules[1..];
      assert name in Names(rules);
      assert Names(rules) == {name} + Names(later) by {
        forall n | n in Names(rules)
          ensures n in {name} + Names(later)
        {
          var i :| 0 <= i < |rules| && rules[i] == n;
          assert i > 0 ==> later[i - 1] == n;
        }
        forall n | n in Names(later)
          ensures n in Names(rules)
        {
          var i :| 0 <= i < |later| && later[i] == n;
          assert rules[i + 1] == n;
        }
      }
      ReplaceIsOnePass(OnePass(done, t), name);
      PassTwice(done, {name}, t);
      FoldFrom(later, done + {name}, t);
      assert done + {name} + Names(later) == done + Names(rules);
    }
  }

  lemma RejoinText(t: string, k: nat)
    requires k < |t| && t[k] == '&'
    ensures t[..k] + "&" + t[k + 1..] == t
  {
  }

  lemma {:induction false} NoNamesNoChange(t: string)
    ensures OnePass({}, t) == t
    decreases |t|
  {
    var k := SegmentEnd(t, 0);
    UnmaskedIs({}, t[..k]);
    if k == |t| {
      assert t[..k] == t;
    } else {
      NoNamesNoChange(t[k + 1..]);
      OnePassSplit({}, t, k, t[..k], t[k + 1..]);
      RejoinText(t, k);
    }
  }

  /**
   * The fold of replacements is the single pass: it cuts each `&`-separated segment after the first `=`
   * that ends an occurrence of any configured name, when something follows it, and appends the stars.
   */
  lemma FoldIsOnePass(rules: seq<string>, t: string)
    requires Plain(Names(rules))
    ensures MaskSensitiveData(rules, t) == OnePass(Names(rules), t)
  {
    NoNamesNoChange(t);
    FoldFrom(rules, {}, t);
    assert {} + Names(rules) == Names(rules);
  }

  /** So neither the order of the rules nor repeating one matters. */
  lemma OrderIrrelevant(rules: seq<string>, others: seq<string>, t: string)
    requires Plain(Names(rules)) && Names(rules) == Names(others)
    ensures MaskSensitiveData(rules, t) == MaskSensitiveData(others, t)
  {
    FoldIsOnePass(rules, t);
    FoldIsOnePass(others, t);
  }

  /** And masking a masked text changes nothing. */
  lemma MaskingIdempotent(rules: seq<string>, t: string)
    requires Plain(Names(rules))
    ensures MaskSensitiveData(rules, MaskSensitiveData(rules, t)) == MaskSensitiveData(rules, t)
  {
    FoldIsOnePass(rules, t);
    FoldIsOnePass(rules, OnePass(Names(rules), t));
    PassTwice(Names(rules), Names(rules), t);
    assert Names(rules) + Names(rules) == Names(rules);
  }

  // ----- nothing configured stays visible -----

  lemma SegmentComplete(names: set<string>, s: string, name: string, i: nat, m: string)
    requires name in names && m == MaskSegment(names, s) && MatchAt(m, i, Key(name))
    ensures m[i + |Key(name)|..] == STARS
  {
    var e := i + |Key(name)|;
    assert CutAt(names, m, e);
    match FirstCut(names, s, 0)
    case None =>
    case Some(c) =>
      CutsAfterMask(names, s, c, e);
      assert (s[..c] + STARS)[c..] == STARS;
  }

  /** `t` is followed at `j` by the stars and nothing else of its segment. */
  predicate Starred(t: string, j: nat)
    requires j <= |t|
  {
    t[j..SegmentEnd(t, j)] == STARS
  }

  lemma StarredFirst(names: set<string>, s: string, rest: string, name: string, i: nat)
    requires OneSegment(s) && name in names && OneSegment(name) && i < |MaskSegment(names, s)|
    requires MatchAt(MaskSegment(names, s) + "&" + rest, i, Key(name))
    ensures Starred(MaskSegment(names, s) + "&" + rest, i + |Key(name)|)
  {
    var m := MaskSegment(names, s);
    var out := m + "&" + rest;
    assert out[..|m|] == m && out[|m|] == '&';
    MatchInSegment(out, |m|, i, Key(name));
    SegmentComplete(names, s, name, i, m);
    MaskedOneSegment(names, s);
    SegmentEndIs(out, i + |Key(name)|, |m|);
    assert out[i + |Key(name)|..|m|] == m[i + |Key(name)|..];
  }

  lemma StarredLater(t: string, a: nat, j: nat)
    requires a + j <= |t| && Starred(t[a..], j)
    ensures Starred(t, a + j)
  {
    SegmentEndShift(t, a, j);
    assert t[a + j..a + SegmentEnd(t[a..], j)] == t[a..][j..SegmentEnd(t[a..], j)];
  }

  /** A match in joined text is in its first segment or in the rest. */
  lemma MatchInJoin(m: string, rest: string, i: nat, key: string)
    requires OneSegment(key) && key != [] && MatchAt(m + "&" + rest, i, key) && i >= |m|
    ensures i > |m| && MatchAt(rest, i - |m| - 1, key)
  {
    var out := m + "&" + rest;
    assert out[|m|] == '&' && out[|m| + 1..] == rest;
    NoMatchAtAmpersand(out, |m|, key);
    MatchShift(out, |m| + 1, i - |m| - 1, key);
  }

  lemma StarredInJoin(m: string, rest: string, j: nat)
    requires j <= |rest| && Starred(rest, j)
    ensures Starred(m + "&" + rest, |m| + 1 + j)
  {
    var out := m + "&" + rest;
    assert out[|m| + 1..] == rest;
    StarredLater(out, |m| + 1, j);
  }

  lemma StarredAfterJoin(m: string, rest: string, j: nat, key: string, i: nat)
    requires MatchAt(rest, j, key) && Starred(rest, j + |key|) && i == |m| + 1 + j
    ensures |m + "&" + rest| >= i + |key| && Starred(m + "&" + rest, i + |key|)
  {
    StarredInJoin(m, rest, j + |key|);
  }

  lemma PassCompleteSegment(names: set<string>, s: string, name: string, i: nat)
    requires OneSegment(s) && name in names && MatchAt(MaskSegment(names, s), i, Key(name))
    ensures Starred(MaskSegment(names, s), i + |Key(name)|)
  {
    var m := MaskSegment(names, s);
    SegmentComplete(names, s, name, i, m);
    MaskedOneSegment(names, s);
    SegmentEndOfSegment(m, i + |Key(name)|);
  }

  lemma {:induction false} PassComplete(names: set<string>, t: string, name: string, i: nat, key: string, out: string)
    requires name in names && OneSegment(name) && key == Key(name)
    requires out == OnePass(names, t) && MatchAt(out, i, key)
    ensures Starred(out, i + |key|)
    decreases |t|
  {
    var k := SegmentEnd(t, 0);
    FirstSegmentPlain(t);
    if k == |t| {
      assert t[..k] == t;
      PassCompleteSegment(names, t, name, i);
    } else {
      var m, rest := MaskSegment(names, t[..k]), OnePass(names, t[k + 1..]);
      OnePassSplit(names, t, k, m, rest);
      if i < |m| {
        StarredFirst(names, t[..k], rest, name, i);
      } else {
        MatchInJoin(m, rest, i, key);
        var j := i - |m| - 1;
        PassComplete(names, t[k + 1..], name, j, key, rest);
        StarredAfterJoin(m, rest, j, key, i);
      }
    }
  }

  /**
   * Masking is complete: wherever a configured name and `=` are followed by a value in the final text,
   * that value is the stars.
   */
  lemma MaskingComplete(rules: seq<string>, t: string, name: string, i: nat)
    requires Plain(Names(rules)) && name in Names(rules)
    requires MatchAt(MaskSensitiveData(rules, t), i, Key(name))
    ensures Starred(MaskSensitiveData(rules, t), i + |Key(name)|)
  {
    FoldIsOnePass(rules, t);
    PassComplete(Names(rules), t, name, i, Key(name), OnePass(Names(rules), t));
  }

  // ----- exactly the masked values are hidden -----

  /** `r` is `s`, or differs from it only in the non-empty value after the first cut of `s`. */
  predicate SameButValue(names: set<string>, s: string, r: string)
  {
    s == r || (var c := FirstCut(names, s, 0); c.Some? && c.value < |r| && s[..c.value] == r[..c.value])
  }

  lemma CutShared(names: set<string>, s: string, r: string, c: nat)
    requires FirstCut(names, s, 0) == Some(c) && c < |r| && s[..c] == r[..c]
    ensures MaskSegment(names, s) == MaskSegment(names, r) && FirstCut(names, r, 0) == Some(c)
  {
    forall e | 0 <= e <= c
      ensures CutAt(names, s, e) <==> CutAt(names, r, e)
    {
      CutInPrefix(names, s, r, c, e);
    }
    FirstCutIs(names, r, 0, c);
  }

  lemma StarsInjective(s: string, c: nat, r: string, d: nat)
    requires c <= |s| && d <= |r| && s[..c] + STARS == r[..d] + STARS
    ensures c == d && s[..c] == r[..d]
  {
    assert |s[..c] + STARS| == c + 4 && |r[..d] + STARS| == d + 4;
    assert (s[..c] + STARS)[..c] == s[..c] && (r[..d] + STARS)[..d] == r[..d];
  }

  lemma MaskStaysCut(names: set<string>, s: string, c: nat)
    requires FirstCut(names, s, 0) == Some(c)
    ensures FirstCut(names, MaskSegment(names, s), 0) == Some(c)
  {
    var m := MaskSegment(names, s);
    assert m[..c] == s[..c];
    CutShared(names, s, m, c);
  }

  lemma SegmentHides(names: set<string>, s: string, r: string)
    ensures MaskSegment(names, s) == MaskSegment(names, r) <==> SameButValue(names, s, r)
  {
    var c, d := FirstCut(names, s, 0), FirstCut(names, r, 0);
    if SameButValue(names, s, r) && s != r {
      CutShared(names, s, r, c.value);
    }
    if MaskSegment(names, s) == MaskSegment(names, r) {
      if c.Some? && d.Some? {
        StarsInjective(s, c.value, r, d.value);
      } else if c.Some? {
        MaskStaysCut(names, s, c.value);
      } else if d.Some? {
        MaskStaysCut(names, r, d.value);
      }
    }
  }

  /** The two texts have the same segments but for masked values. */
  predicate SameButValues(names: set<string>, t: string, u: string)
    decreases |t|
  {
    var k, l := SegmentEnd(t, 0), SegmentEnd(u, 0);
    && SameButValue(names, t[..k], u[..l])
    && (k < |t| <==> l < |u|)
    && (k < |t| ==> SameButValues(names, t[k + 1..], u[l + 1..]))
  }

  lemma JoinInjective(a: string, x: string, b: string, y: string)
    requires OneSegment(a) && OneSegment(b) && a + "&" + x == b + "&" + y
    ensures a == b && x == y
  {
    var t := a + "&" + x;
    assert t[..|a|] == a && t[|a|] == '&' && t[|a| + 1..] == x;
    assert t[..|b|] == b && t[|b|] == '&' && t[|b| + 1..] == y;
    SegmentEndIs(t, 0, |a|);
    SegmentEndIs(t, 0, |b|);
  }

  lemma JoinNotSegment(a: string, x: string, b: string)
    requires OneSegment(b)
    ensures a + "&" + x != b
  {
    assert (a + "&" + x)[|a|] == '&';
  }

  /** Joined outputs agree exactly when both parts do. */
  lemma JoinAgrees(m: string, x: string, n: string, y: string)
    requires OneSegment(m) && OneSegment(n)
    ensures m + "&" + x == n + "&" + y <==> m == n && x == y
  {
    if m + "&" + x == n + "&" + y {
      JoinInjective(m, x, n, y);
    }
  }

  /** The output of a text, by its first segment. */
  lemma OnePassShape(names: set<string>, t: string, k: nat, m: string, out: string)
    requires k == SegmentEnd(t, 0) && m == MaskSegment(names, t[..k]) && out == OnePass(names, t)
    ensures OneSegment(m)
    ensures k == |t| ==> out == m
    ensures k < |t| ==> out == m + "&" + OnePass(names, t[k + 1..])
  {
    FirstSegmentPlain(t);
    MaskedOneSegment(names, t[..k]);
    if k == |t| {
      assert t[..k] == t;
    }
  }

  lemma HidesBoth(names: set<string>, t: string, u: string, k: nat, l: nat, m: string, n: string, v: string, z: string)
    requires k == SegmentEnd(t, 0) < |t| && l == SegmentEnd(u, 0) < |u| && OneSegment(m) && OneSegment(n)
    requires m == n <==> SameButValue(names, t[..k], u[..l])
    requires v == z <==> SameButValues(names, t[k + 1..], u[l + 1..])
    ensures m + "&" + v == n + "&" + z <==> SameButValues(names, t, u)
  {
    JoinAgrees(m, v, n, z);
  }

  lemma HidesEnd(names: set<string>, t: string, u: string, k: nat, l: nat, m: string, n: string)
    requires k == SegmentEnd(t, 0) == |t| && l == SegmentEnd(u, 0) == |u|
    requires m == n <==> SameButValue(names, t[..k], u[..l])
    ensures m == n <==> SameButValues(names, t, u)
  {
  }

  lemma {:induction false} PassHides(names: set<string>, t: string, u: string, x: string, y: string)
    requires x == OnePass(names, t) && y == OnePass(names, u)
    ensures x == y <==> SameButValues(names, t, u)
    decreases |t|
  {
    var k, l := SegmentEnd(t, 0), SegmentEnd(u, 0);
    var m, n := MaskSegment(names, t[..k]), MaskSegment(names, u[..l]);
    OnePassShape(names, t, k, m, x);
    OnePassShape(names, u, l, n, y);
    SegmentHides(names, t[..k], u[..l]);
    if k < |t| && l < |u| {
      var v, z := OnePass(names, t[k + 1..]), OnePass(names, u[l + 1..]);
      PassHides(names, t[k + 1..], u[l + 1..], v, z);
      HidesBoth(names, t, u, k, l, m, n, v, z);
    } else if k < |t| {
      JoinNotSegment(m, OnePass(names, t[k + 1..]), n);
    } else if l < |u| {
      JoinNotSegment(n, OnePass(names, u[l + 1..]), m);
    } else {
      HidesEnd(names, t, u, k, l, m, n);
    }
  }

  /** Two texts are masked alike exactly when they differ in nothing but non-empty masked values. */
  lemma MaskingHidesExactlyValues(rules: seq<string>, t: string, u: string)
    requires Plain(Names(rules))
    ensures MaskSensitiveData(rules, t) == MaskSensitiveData(rules, u) <==> SameButValues(Names(rules), t, u)
  {
    FoldIsOnePass(rules, t);
    FoldIsOnePass(rules, u);
    PassHides(Names(rules), t, u, OnePass(Names(rules), t), OnePass(Names(rules), u));
  }

  // ----- growth -----

  function Segments(t: string): nat
    decreases |t|
  {
    var k := SegmentEnd(t, 0);
    1 + if k == |t| then 0 else Segments(t[k + 1..])
  }

  lemma MaskGrowth(names: set<string>, s: string)
    ensures |MaskSegment(names, s)| <= |s| + 3
  {
  }

  lemma {:induction false} PassGrowth(names: set<string>, t: string, out: string)
    requires out == OnePass(names, t)
    ensures |out| <= |t| + 3 * Segments(t)
    decreases |t|
  {
    var k := SegmentEnd(t, 0);
    MaskGrowth(names, t[..k]);
    if k < |t| {
      var m, rest := MaskSegment(names, t[..k]), OnePass(names, t[k + 1..]);
      PassGrowth(names, t[k + 1..], rest);
      OnePassSplit(names, t, k, m, rest);
      assert |out| == |m| + 1 + |rest|;
    } else {
      assert t[..k] == t;
    }
  }

  /** However many rules there are, a text grows by at most three characters per segment. */
  lemma MaskingGrowth(rules: seq<string>, t: string)
    requires Plain(Names(rules))
    ensures |MaskSensitiveData(rules, t)| <= |t| + 3 * Segments(t)
  {
    FoldIsOnePass(rules, t);
    PassGrowth(Names(rules), t, OnePass(Names(rules), t));
  }

  // ----- names that span segments -----

  lemma NoMatchWithout(t: string, key: string, l: int)
    requires key != [] && 0 <= l < |t| && t[l] != key[0]
    ensures !MatchAt(t, l, key)
  {
    if Occurs(t, l, key) {
      OccursChars(t, l, key);
    }
  }

  /** A text in which the key's first letter does not occur is copied. */
  lemma CopyAll(t: string, name: string, key: string)
    requires key == Key(name) && forall l :: 0 <= l < |t| ==> t[l] != key[0]
    ensures ReplaceAll(t, name) == t
  {
    forall l | 0 <= l < |t|
      ensures !MatchAt(t, l, key)
    {
      NoMatchWithout(t, key, l);
    }
    ReplaceNothing(name, t, key);
  }

  lemma TwoRules(first: string, second: string, t: string, u: string, v: string)
    requires u == ReplaceAll(t, first) && v == ReplaceAll(u, second)
    ensures MaskSensitiveData([first, second], t) == v
  {
    assert [first, second][1..] == [second] && [second][1..] == [];
    assert MaskSensitiveData([], v) == v;
    assert MaskSensitiveData([second], u) == v;
  }

  /** The rule `a` on a text whose first segment is `a=x`. */
  lemma NarrowRule(t: string, after: string, key: string)
    requires key == Key("a") && after != [] && after[0] == '&' && t == "a=x" + after
    requires forall l :: 0 <= l < |after| ==> after[l] != 'a'
    ensures ReplaceAll(t, "a") == key + STARS + after
  {
    assert t[0..2] == key && t[2] == 'x' && t[3] == '&' && t[3..] == after;
    SegmentEndIs(t, 2, 3);
    CopyAll(after, "a", key);
    MatchStep(t, "a", key, after, after);
  }

  lemma WideFirst(t: string, u: string, wide: string)
    requires t == "a=x&b=1" && u == "a=x&b=****" && wide == Key("x&b")
    ensures ReplaceAll(t, "x&b") == u
  {
    assert wide == "x&b=" && t[2..6] == wide && SegmentEnd(t, 6) == 7 && t[7..] == [];
    NoMatchWithout(t, wide, 0);
    NoMatchWithout(t, wide, 1);
    ReplaceAtFirst(t, "x&b", 2, 7, wide, [], u);
  }

  lemma NarrowFirst(t: string, after: string, u: string)
    requires after == "&b=1" && t == "a=x" + after && u == "a=****&b=1"
    ensures ReplaceAll(t, "a") == u
  {
    assert Key("a") == "a=";
    NarrowRule(t, after, Key("a"));
  }

  lemma NarrowThenWide(t: string, u: string)
    requires t == "a=x&b=1" && u == "a=****&b=1"
    ensures MaskSensitiveData(["a", "x&b"], t) == u
  {
    NarrowFirst(t, "&b=1", u);
    assert Key("x&b")[0] == 'x';
    CopyAll(u, "x&b", Key("x&b"));
    TwoRules("a", "x&b", t, u, u);
  }

  lemma NarrowLast(u: string, after: string, v: string)
    requires after == "&b=****" && u == "a=x" + after && v == "a=****&b=****"
    ensures ReplaceAll(u, "a") == v
  {
    assert Key("a") == "a=";
    NarrowRule(u, after, Key("a"));
  }

  lemma WideThenNarrow(t: string, u: string, v: string)
    requires t == "a=x&b=1" && u == "a=x&b=****" && v == "a=****&b=****"
    ensures MaskSensitiveData(["x&b", "a"], t) == v
  {
    WideFirst(t, u, Key("x&b"));
    NarrowLast(u, "&b=****", v);
    TwoRules("x&b", "a", t, u, v);
  }

  /**
   * With names that contain `&` the order of the rules can matter: with the names `a` and `x&b`, masking `a=x&b=1` leaves the
   * second value visible or not depending on which rule comes first.
   */
  lemma OrderMattersAcrossSegments(t: string)
    requires t == "a=x&b=1"
    ensures MaskSensitiveData(["a", "x&b"], t) == "a=****&b=1"
    ensures MaskSensitiveData(["x&b", "a"], t) == "a=****&b=****"
  {
    NarrowThenWide(t, "a=****&b=1");
    WideThenNarrow(t, "a=x&b=****", "a=****&b=****");
  }

  lemma SpanningNeverCuts(name: string, s: string, e: int)
    requires !OneSegment(name) && OneSegment(s)
    ensures !CutAt({name}, s, e)
  {
    if CutAt({name}, s, e) {
      var i :| 0 <= i < |name| && name[i] == '&';
      OccursChars(s, e - |Key(name)|, Key(name));
    }
  }

  /** Segment by segment a name with `&` is nowhere to be found. */
  lemma {:induction false} SpanningPassIdle(name: string, t: string)
    requires !OneSegment(name)
    ensures OnePass({name}, t) == t
    decreases |t|
  {
    var k := SegmentEnd(t, 0);
    FirstSegmentPlain(t);
    forall e
      ensures !CutAt({name}, t[..k], e)
    {
      SpanningNeverCuts(name, t[..k], e);
    }
    UnmaskedIs({name}, t[..k]);
    if k == |t| {
      assert t[..k] == t;
    } else {
      SpanningPassIdle(name, t[k + 1..]);
      OnePassSplit({name}, t, k, t[..k], t[k + 1..]);
      RejoinText(t, k);
    }
  }

  // ----- exactly which rules the single pass describes -----

  /** A value without `&`, longer than the replacement. */
  function LongValue(name: string): (v: string)
    ensures |v| > |Key(name) + STARS| && OneSegment(v) && v[|v| - 1] == '1'
  {
    seq(|Key(name) + STARS| + 1, i => '1')
  }

  lemma ValueRunsOn(key: string, value: string, t: string)
    requires OneSegment(value) && t == key + value
    ensures SegmentEnd(t, |key|) == |t|
  {
    assert forall l :: |key| <= l < |t| ==> t[l] == value[l - |key|];
  }

  /** A text that is one match is replaced as a whole. */
  lemma ReplaceWhole(name: string, key: string, value: string, t: string)
    requires key == Key(name) && value != [] && OneSegment(value) && t == key + value
    ensures ReplaceAll(t, name) == Replacement(name, t, value)
  {
    assert t[0..|key|] == key && t[|key|..] == value;
    ValueRunsOn(key, value, t);
    assert t[..|t|] == t && t[|t|..] == [] && ReplaceAll([], name) == [];
    assert Replacement(name, t, value) + [] == Replacement(name, t, value);
  }

  /** The single pass cuts such a text behind the key. */
  lemma PassWhole(name: string, key: string, value: string, t: string)
    requires key == Key(name) && value != [] && OneSegment(name) && OneSegment(value) && t == key + value
    ensures OnePass({name}, t) == key + STARS
  {
    OnePassSegment({name}, t);
    assert t[0..|key|] == key;
    assert CutAt({name}, t, |key|) by {
      assert name in {name};
    }
    MaskedIs({name}, t, |key|);
    assert t[..|key|] == key;
  }

  /** One rule masks every text as the single pass does. */
  ghost predicate RuleIsOnePass(name: string)
  {
    forall t: string :: ReplaceAll(t, name) == OnePass({name}, t)
  }

  /** A name with `&` is replaced where the single pass sees nothing. */
  lemma SpanningBreaks(name: string)
    requires !OneSegment(name)
    ensures !RuleIsOnePass(name)
  {
    var value := LongValue(name);
    var t := Key(name) + value;
    SpanningPassIdle(name, t);
    ReplaceWhole(name, Key(name), value, t);
    LastStarKept(Key(name) + STARS, t, value);
    assert t[|t| - 1] == '1';
    assert ReplaceAll(t, name) != t;
  }

  /** A replacement that is not literal comes out with another length when the value is long. */
  lemma TemplateBreaks(name: string)
    requires OneSegment(name) && !Literal(name)
    ensures !RuleIsOnePass(name)
  {
    var value := LongValue(name);
    var t := Key(name) + value;
    PassWhole(name, Key(name), value, t);
    ReplaceWhole(name, Key(name), value, t);
    NameTail(name);
    NotLiteralChanges(Key(name) + STARS, t, value);
    assert ReplaceAll(t, name) != OnePass({name}, t);
  }

  /** One rule is the single pass on all texts exactly when its name holds no `&` and no template syntax. */
  lemma RuleIsOnePassIff(name: string)
    ensures RuleIsOnePass(name) <==> PlainName(name)
  {
    if PlainName(name) {
      forall t: string
        ensures ReplaceAll(t, name) == OnePass({name}, t)
      {
        ReplaceIsOnePass(t, name);
      }
    } else if !OneSegment(name) {
      SpanningBreaks(name);
    } else {
      TemplateBreaks(name);
    }
  }

  /** Every list of rules drawn from `names`, in any order, masks every text as the single pass does. */
  ghost predicate OnePassSuffices(names: set<string>)
  {
    forall rules: seq<string>, t: string ::
      Names(rules) <= names ==> MaskSensitiveData(rules, t) == OnePass(Names(rules), t)
  }

  lemma OneRule(name: string, t: string)
    ensures MaskSensitiveData([name], t) == ReplaceAll(t, name) && Names([name]) == {name}
  {
    assert [name][1..] == [];
    assert [name][0] in Names([name]);
  }

  /** That holds of a set of names exactly when each of them is plain. */
  lemma OnePassSufficesIffPlain(names: set<string>)
    ensures OnePassSuffices(names) <==> Plain(names)
  {
    if Plain(names) {
      forall rules: seq<string>, t: string | Names(rules) <= names
        ensures MaskSensitiveData(rules, t) == OnePass(Names(rules), t)
      {
        FoldIsOnePass(rules, t);
      }
    }
    if OnePassSuffices(names) {
      forall name | name in names
        ensures PlainName(name)
      {
        forall t: string
          ensures ReplaceAll(t, name) == OnePass({name}, t)
        {
          OneRule(name, t);
        }
        RuleIsOnePassIff(name);
      }
    }
  }

  // ----- a list that agrees although one of its names does not -----

  lemma StarredText(t: string, e: nat, end: nat)
    requires e <= |t| && Starred(t, e) && end == SegmentEnd(t, e)
    ensures t == t[..e] + STARS + t[end..]
  {
    assert t == t[..e] + t[e..end] + t[end..];
  }

  lemma IdleTail(t: string, a: nat, key: string)
    requires a <= |t| && forall i :: 0 <= i < |t| && MatchAt(t, i, key) ==> Starred(t, i + |key|)
    ensures forall i :: 0 <= i < |t[a..]| && MatchAt(t[a..], i, key) ==> Starred(t[a..], i + |key|)
  {
    forall i | 0 <= i < |t[a..]| && MatchAt(t[a..], i, key)
      ensures Starred(t[a..], i + |key|)
    {
      MatchShift(t, a, i, key);
      SegmentEndShift(t, a, i + |key|);
      assert t[a..][i + |key|..SegmentEnd(t[a..], i + |key|)] == t[a + i + |key|..SegmentEnd(t, a + i + |key|)];
    }
  }

  /** A rule changes nothing in a text in which every value it matches is already the stars. */
  lemma {:induction false} StarredRuleIdle(t: string, name: string, key: string)
    requires Literal(name) && key == Key(name)
    requires forall i :: 0 <= i < |t| && MatchAt(t, i, key) ==> Starred(t, i + |key|)
    ensures ReplaceAll(t, name) == t
    decreases |t|
  {
    if t == [] {
    } else if MatchAt(t, 0, key) {
      var end := SegmentEnd(t, |key|);
      IdleTail(t, end, key);
      StarredRuleIdle(t[end..], name, key);
      MatchStep(t, name, key, t[end..], t[end..]);
      StarredText(t, |key|, end);
    } else {
      IdleTail(t, 1, key);
      StarredRuleIdle(t[1..], name, key);
      CopyStep(t, name, t[1..]);
    }
  }

  lemma CoveredMatch(t: string, i: nat, name: string, before: string)
    requires MatchAt(t, i, Key(before + name))
    ensures MatchAt(t, i + |before|, Key(name)) && i + |Key(before + name)| == i + |before| + |Key(name)|
  {
    var key := Key(before + name);
    assert key == before + Key(name);
    assert t[i + |before|..i + |key|] == t[i..i + |key|][|before|..];
  }

  lemma CoveredIdle(name: string, before: string, wide: string, t: string, masked: string)
    requires PlainName(name) && Literal(wide) && wide == before + name && masked == MaskSensitiveData([name], t)
    ensures ReplaceAll(masked, wide) == masked
  {
    assert [name][0] in Names([name]) && Names([name]) == {name};
    forall i | 0 <= i < |masked| && MatchAt(masked, i, Key(wide))
      ensures Starred(masked, i + |Key(wide)|)
    {
      CoveredMatch(masked, i, name, before);
      MaskingComplete([name], t, name, i + |before|);
    }
    StarredRuleIdle(masked, wide, Key(wide));
  }

  lemma CoveredPass(name: string, wide: string, t: string)
    requires !OneSegment(wide)
    ensures OnePass({name, wide}, t) == OnePass({name}, t)
  {
    PassTwice({name}, {wide}, t);
    SpanningPassIdle(wide, OnePass({name}, t));
    assert {name} + {wide} == {name, wide};
  }

  /** A name with `&` that ends in a plain name is harmless after that one, so a list can agree without being plain. */
  lemma CoveredRuleHarmless(name: string, before: string, wide: string, t: string)
    requires PlainName(name) && Literal(wide) && !OneSegment(wide) && wide == before + name
    ensures MaskSensitiveData([name, wide], t) == OnePass({name, wide}, t)
  {
    var masked := MaskSensitiveData([name], t);
    OneRule(name, t);
    CoveredIdle(name, before, wide, t, masked);
    TwoRules(name, wide, t, masked, masked);
    ReplaceIsOnePass(t, name);
    CoveredPass(name, wide, t);
  }

  // ----- names that are templates -----

  lemma GroupOneFirst(rest: string, whole: string, value: string)
    requires rest != [] && !Letter(rest[0])
    ensures Expand("$1" + rest, whole, value) == value + Expand(rest, whole, value)
  {
    var s := "$1" + rest;
    assert s[0] == '$' && s[1] == '1' && s[2] == rest[0] && s[1..2] == "1" && s[2..] == rest;
    assert LettersEnd(s, 2) == 2 && LettersEnd(s, 1) == 2;
    assert "1"[..0] == [] && Decimal([]) == 0 && Decimal("1") == 1;
  }

  /** The rule `$1` replaces its own name by the value it should hide. */
  lemma TemplateShowsValue(value: string)
    requires value != [] && OneSegment(value)
    ensures MaskSensitiveData(["$1"], "$1=" + value) == value + "=****"
  {
    var t := "$1=" + value;
    assert Key("$1") == "$1=" && Key("$1") + STARS == "$1" + "=****";
    OneRule("$1", t);
    ReplaceWhole("$1", "$1=", value, t);
    GroupOneFirst("=****", t, value);
    NoDollarLiteral("=****");
    LiteralExpands("=****", t, value);
  }

  /** The rule `$1-$1` puts the value there twice, so no bound on growth per segment holds. */
  lemma TemplateGrows(value: string)
    requires value != [] && OneSegment(value)
    ensures |MaskSensitiveData(["$1-$1"], "$1-$1=" + value)| == |"$1-$1=" + value| + |value|
  {
    var t := "$1-$1=" + value;
    assert Key("$1-$1") == "$1-$1=" && Key("$1-$1") + STARS == "$1" + ("-" + ("$1" + "=****"));
    OneRule("$1-$1", t);
    ReplaceWhole("$1-$1", "$1-$1=", value, t);
    GroupOneFirst("-" + ("$1" + "=****"), t, value);
    GroupOneFirst("=****", t, value);
    assert ("-" + ("$1" + "=****"))[1..] == "$1" + "=****";
    NoDollarLiteral("=****");
    LiteralExpands("=****", t, value);
  }
}
