/**
 * Replacement templates: how the regular-expression library expands `$name`, `${name}` and `$$` in a
 * replacement text, and which texts it leaves as they are.
 */
module Templates {
  import opened Wrappers

  predicate Letter(c: char)
  {
    '0' <= c <= '9' || 'a' <= c <= 'z' || 'A' <= c <= 'Z' || c == '_'
  }

  predicate Digit(c: char)
  {
    '0' <= c <= '9'
  }

  /** The end of the run of letters of `s` that starts at `i`. */
  function LettersEnd(s: string, i: nat): (k: nat)
    requires i <= |s|
    ensures i <= k <= |s|
    ensures forall l :: i <= l < k ==> Letter(s[l])
    ensures k < |s| ==> !Letter(s[k])
    decreases |s| - i
  {
    if i == |s| || !Letter(s[i]) then i else LettersEnd(s, i + 1)
  }

  /** The first closing brace of `s` at or after `i`, or the length of `s`. */
  function BraceEnd(s: string, i: nat): (k: nat)
    requires i <= |s|
    ensures i <= k <= |s|
    ensures forall l :: i <= l < k ==> s[l] != '}'
    ensures k < |s| ==> s[k] == '}'
    decreases |s| - i
  {
    if i == |s| || s[i] == '}' then i else BraceEnd(s, i + 1)
  }

  /** A reference to a group by name or number, and how many characters of the template it takes. */
  datatype Reference = Reference(group: string, length: nat)

  /** The reference at the start of `s`: letters as many as there are, or anything in braces. */
  function FindReference(s: string): (found: Option<Reference>)
    ensures found.Some? ==> 2 <= found.value.length <= |s|
    ensures found.Some? ==> Letter(s[found.value.length - 1]) || s[found.value.length - 1] == '}'
  {
    if |s| < 2 || s[0] != '$' then None
    else if s[1] == '{' then
      var end := BraceEnd(s, 2);
      if end == |s| then None else Some(Reference(s[2..end], end + 1))
    else
      var end := LettersEnd(s, 1);
      if end == 1 then None else Some(Reference(s[1..end], end))
  }

  predicate AllDigits(s: string)
  {
    forall i :: 0 <= i < |s| ==> Digit(s[i])
  }

  /** The number that digits stand for. */
  function Decimal(s: string): (n: nat)
    requires AllDigits(s)
  {
    if s == [] then 0
    else
      var last := s[|s| - 1];
      assert Digit(last);
      10 * Decimal(s[..|s| - 1]) + (last as int - '0' as int)
  }

  /** A group reference that is a number; a leading plus sign is accepted. */
  function GroupNumber(group: string): Option<nat>
  {
    var digits := if |group| > 1 && group[0] == '+' then group[1..] else group;
    if digits != [] && AllDigits(digits) then Some(Decimal(digits)) else None
  }

  /** Group 0 is the whole match and group 1 the value; the pattern has no other group and no named one. */
  function Captured(group: string, whole: string, value: string): string
  {
    match GroupNumber(group)
    case None => []
    case Some(k) => if k == 0 then whole else if k == 1 then value else []
  }

  function Expand(s: string, whole: string, value: string): string
    decreases |s|
  {
    if s == [] then []
    else if |s| > 1 && s[0] == '$' && s[1] == '$' then "$" + Expand(s[2..], whole, value)
    else
      match FindReference(s)
      case None => [s[0]] + Expand(s[1..], whole, value)
      case Some(ref) => Captured(ref.group, whole, value) + Expand(s[ref.length..], whole, value)
  }

  // ----- what each form stands for -----

  predicate AllZero(s: string)
  {
    forall i :: 0 <= i < |s| ==> s[i] == '0'
  }

  /** A number that is zero names the whole match, one names the value, and nothing else names anything. */
  function GroupText(group: string, whole: string, value: string): string
  {
    var digits := if |group| > 1 && group[0] == '+' then group[1..] else group;
    if digits == [] then []
    else if AllZero(digits) then whole
    else if AllZero(digits[..|digits| - 1]) && digits[|digits| - 1] == '1' then value
    else []
  }

  lemma {:induction false} DecimalZero(s: string)
    requires AllDigits(s)
    ensures Decimal(s) == 0 <==> AllZero(s)
  {
    if s == [] {
    } else {
      var front := s[..|s| - 1];
      DecimalZero(front);
      assert Digit(s[|s| - 1]);
      assert AllZero(s) <==> AllZero(front) && s[|s| - 1] == '0';
    }
  }

  lemma DigitValue(c: char)
    requires Digit(c)
    ensures 0 <= c as int - '0' as int <= 9 && (c as int - '0' as int == 1 <==> c == '1')
  {
    assert (c as int) as char == c && ('1' as int) as char == '1';
    assert '1' as int == '0' as int + 1 && '9' as int == '0' as int + 9;
  }

  lemma CapturedIs(group: string, whole: string, value: string)
    ensures Captured(group, whole, value) == GroupText(group, whole, value)
  {
    var digits := if |group| > 1 && group[0] == '+' then group[1..] else group;
    if digits != [] && AllDigits(digits) {
      var front := digits[..|digits| - 1];
      DecimalZero(digits);
      DecimalZero(front);
      var last := digits[|digits| - 1];
      DigitValue(last);
      assert Decimal(digits) == 10 * Decimal(front) + (last as int - '0' as int);
      assert Decimal(digits) == 1 <==> Decimal(front) == 0 && last == '1';
      assert GroupNumber(group) == Some(Decimal(digits));
    } else if digits != [] {
      var i :| 0 <= i < |digits| && !Digit(digits[i]);
      assert i < |digits| - 1 ==> digits[..|digits| - 1][i] == digits[i];
      assert GroupNumber(group) == None;
    }
  }

  lemma {:induction false} LettersEndIs(s: string, i: nat, k: nat)
    requires i <= k <= |s| && (forall l :: i <= l < k ==> Letter(s[l])) && (k < |s| ==> !Letter(s[k]))
    ensures LettersEnd(s, i) == k
    decreases k - i
  {
    if i == k {
    } else {
      LettersEndIs(s, i + 1, k);
    }
  }

  lemma {:induction false} BraceEndIs(s: string, i: nat, k: nat)
    requires i <= k <= |s| && (forall l :: i <= l < k ==> s[l] != '}') && (k < |s| ==> s[k] == '}')
    ensures BraceEnd(s, i) == k
    decreases k - i
  {
    if i == k {
    } else {
      BraceEndIs(s, i + 1, k);
    }
  }

  /** `$$` stands for a dollar. */
  lemma EscapedDollarExpands(rest: string, whole: string, value: string)
    ensures Expand("$$" + rest, whole, value) == "$" + Expand(rest, whole, value)
  {
    assert ("$$" + rest)[2..] == rest;
  }

  /** `$` and as many letters, digits and underscores as follow stand for the group they name. */
  lemma UnbracedExpands(group: string, rest: string, whole: string, value: string)
    requires group != [] && (rest != [] ==> !Letter(rest[0]))
    requires forall i :: 0 <= i < |group| ==>
               '0' <= group[i] <= '9' || 'a' <= group[i] <= 'z' || 'A' <= group[i] <= 'Z' || group[i] == '_'
    ensures Expand("$" + group + rest, whole, value) == GroupText(group, whole, value) + Expand(rest, whole, value)
  {
    var s := "$" + group + rest;
    assert s[1] == group[0] && forall i :: 1 <= i < 1 + |group| ==> s[i] == group[i - 1];
    assert s[1 + |group|..] == rest && s[1..1 + |group|] == group;
    LettersEndIs(s, 1, 1 + |group|);
    CapturedIs(group, whole, value);
  }

  /** `${` and whatever comes before the next `}` stand for the group that names. */
  lemma BracedExpands(group: string, rest: string, whole: string, value: string)
    requires '}' !in group
    ensures Expand("${" + group + "}" + rest, whole, value) == GroupText(group, whole, value) + Expand(rest, whole, value)
  {
    var s, end := "${" + group + "}" + rest, 2 + |group|;
    assert s[1] == '{' && s[end] == '}' && forall i :: 2 <= i < end ==> s[i] == group[i - 2];
    assert s[2..end] == group && s[end + 1..] == rest;
    BraceEndIs(s, 2, end);
    CapturedIs(group, whole, value);
  }

  /** Any other dollar stands for itself: at the end, before another character, or before a brace that is never closed. */
  lemma LoneDollarExpands(rest: string, whole: string, value: string)
    requires rest != [] ==>
               && !('0' <= rest[0] <= '9' || 'a' <= rest[0] <= 'z' || 'A' <= rest[0] <= 'Z' || rest[0] == '_')
               && rest[0] != '$' && (rest[0] == '{' ==> '}' !in rest)
    ensures Expand("$" + rest, whole, value) == "$" + Expand(rest, whole, value)
  {
    var s := "$" + rest;
    assert s[1..] == rest && forall i :: 1 <= i < |s| ==> s[i] == rest[i - 1];
    if |s| > 1 && s[1] == '{' {
      BraceEndIs(s, 2, |s|);
    } else if |s| > 1 {
      LettersEndIs(s, 1, 1);
    }
  }

  /** Everything else is copied. */
  lemma OtherExpands(c: char, rest: string, whole: string, value: string)
    requires c != '$'
    ensures Expand([c] + rest, whole, value) == [c] + Expand(rest, whole, value)
  {
    assert ([c] + rest)[1..] == rest;
  }

  // ----- texts that expand to themselves -----

  /** The text starts with something the library would not copy: an escaped dollar or a reference. */
  predicate StartsSpecial(s: string)
  {
    (|s| > 1 && s[0] == '$' && s[1] == '$') || FindReference(s).Some?
  }

  /** Nothing in the text is an escaped dollar or a reference. */
  predicate Literal(s: string)
  {
    s == [] || (!StartsSpecial(s) && Literal(s[1..]))
  }

  lemma {:induction false} NoDollarLiteral(s: string)
    requires '$' !in s
    ensures Literal(s)
  {
    if s == [] {
    } else {
      NoDollarLiteral(s[1..]);
    }
  }

  /** A literal text expands to itself, whatever was matched. */
  lemma {:induction false} LiteralExpands(s: string, whole: string, value: string)
    requires Literal(s)
    ensures Expand(s, whole, value) == s
  {
    if s == [] {
    } else {
      LiteralExpands(s[1..], whole, value);
      assert [s[0]] + s[1..] == s;
    }
  }

  /** Expansion shrinks a text or brings in a captured text; it keeps the length of literal texts only. */
  lemma {:induction false} ExpandedLength(s: string, whole: string, value: string, m: nat)
    requires |value| >= m && |whole| >= m
    ensures |Expand(s, whole, value)| <= |s| || |Expand(s, whole, value)| >= m
    ensures !Literal(s) ==> |Expand(s, whole, value)| < |s| || |Expand(s, whole, value)| >= m
    decreases |s|
  {
    if s == [] {
    } else if |s| > 1 && s[0] == '$' && s[1] == '$' {
      ExpandedLength(s[2..], whole, value, m);
    } else {
      match FindReference(s)
      case None => ExpandedLength(s[1..], whole, value, m);
      case Some(ref) => ExpandedLength(s[ref.length..], whole, value, m);
    }
  }

  /** A text that is not literal expands to something else once the value is long enough. */
  lemma NotLiteralChanges(s: string, whole: string, value: string)
    requires !Literal(s) && |value| > |s| && |whole| > |s|
    ensures |Expand(s, whole, value)| != |s|
  {
    ExpandedLength(s, whole, value, |s| + 1);
  }

  /** A final star is never part of a reference. */
  lemma {:induction false} LastStarKept(s: string, whole: string, value: string)
    requires s != [] && s[|s| - 1] == '*'
    ensures var x := Expand(s, whole, value); x != [] && x[|x| - 1] == '*'
    decreases |s|
  {
    if |s| == 1 {
      assert Expand(s[1..], whole, value) == [];
    } else if s[0] == '$' && s[1] == '$' {
      LastStarKept(s[2..], whole, value);
    } else {
      match FindReference(s)
      case None => LastStarKept(s[1..], whole, value);
      case Some(ref) => LastStarKept(s[ref.length..], whole, value);
    }
  }

  /** A tail that starts with no letter, dollar or brace and holds no closing brace cannot join a reference. */
  predicate Inert(tail: string)
  {
    && tail != [] && !Letter(tail[0]) && tail[0] != '$' && tail[0] != '{'
    && '}' !in tail && '$' !in tail
  }

  lemma InertStart(s: string, tail: string)
    requires s != [] && Inert(tail)
    ensures StartsSpecial(s + tail) <==> StartsSpecial(s)
  {
    var t := s + tail;
    assert forall i :: 0 <= i < |s| ==> t[i] == s[i];
    assert forall i :: |s| <= i < |t| ==> t[i] == tail[i - |s|];
    if |s| > 1 && s[0] == '$' && s[1] == '{' {
      assert forall i :: |s| <= i < |t| ==> t[i] != '}';
      var end := BraceEnd(s, 2);
      assert end < |s| ==> t[end] == '}';
    }
  }

  /** Such a tail does not change whether a text is literal. */
  lemma {:induction false} InertTail(s: string, tail: string)
    requires Inert(tail)
    ensures Literal(s + tail) <==> Literal(s)
  {
    if s == [] {
      assert s + tail == tail;
      NoDollarLiteral(tail);
    } else {
      InertStart(s, tail);
      InertTail(s[1..], tail);
      assert (s + tail)[1..] == s[1..] + tail;
    }
  }
}
