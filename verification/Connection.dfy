/** What a Connection header value declares: the header names between its commas. */
module Connection {
  import opened Wrappers

  /**
   * The answers the HTTP library gives: which text is a header name (and its normal form), which value
   * is visible ASCII and so readable as text, and which text may be a value.
   */
  datatype Library = Library(parseName: string -> Option<string>, visible: string -> bool, encodable: string -> bool)

  // ----- splitting, trimming and parsing -----

  function Split(v: string): (parts: seq<string>)
    ensures parts != []
  {
    if v == [] then [[]]
    else
      var rest := Split(v[1..]);
      if v[0] == ',' then [[]] + rest else [[v[0]] + rest[0]] + rest[1..]
  }

  predicate Blank(c: char)
  {
    c == ' ' || c == '\t'
  }

  function Trim(s: string): string
  {
    if s != [] && Blank(s[0]) then Trim(s[1..])
    else if s != [] && Blank(s[|s| - 1]) then Trim(s[..|s| - 1])
    else s
  }

  function Join(parts: seq<string>): string
  {
    if parts == [] then [] else if |parts| == 1 then parts[0] else parts[0] + "," + Join(parts[1..])
  }

  /** Prefixing the first part prefixes the joined text. */
  lemma JoinPrefixed(c: char, rest: seq<string>)
    requires rest != []
    ensures Join([[c] + rest[0]] + rest[1..]) == [c] + Join(rest)
  {
    var parts := [[c] + rest[0]] + rest[1..];
    assert parts[1..] == rest[1..];
    if |rest| > 1 {
      assert ([c] + rest[0]) + "," + Join(rest[1..]) == [c] + (rest[0] + "," + Join(rest[1..]));
    }
  }

  lemma JoinEmptyFirst(rest: seq<string>)
    requires rest != []
    ensures Join([[]] + rest) == "," + Join(rest)
  {
    assert ([[]] + rest)[1..] == rest;
  }

  /** Splitting undoes joining at the commas: joined, the parts are the value again. */
  lemma {:induction false} SplitJoins(v: string)
    ensures Join(Split(v)) == v
  {
    if v == [] {
    } else {
      SplitJoins(v[1..]);
      assert v == [v[0]] + v[1..];
      if v[0] == ',' {
        JoinEmptyFirst(Split(v[1..]));
      } else {
        JoinPrefixed(v[0], Split(v[1..]));
      }
    }
  }

  /** And no part holds a comma, so the parts are the pieces between commas. */
  lemma {:induction false} SplitHoldsNoComma(v: string, i: nat)
    requires i < |Split(v)|
    ensures ',' !in Split(v)[i]
  {
    if v == [] {
    } else {
      if v[0] == ',' {
        if i > 0 {
          SplitHoldsNoComma(v[1..], i - 1);
        }
      } else {
        SplitHoldsNoComma(v[1..], i);
      }
    }
  }

  predicate AllBlank(s: string)
  {
    forall i :: 0 <= i < |s| ==> Blank(s[i])
  }

  lemma OneMoreBefore(s: string, before: string, m: string, after: string)
    requires s != [] && Blank(s[0]) && s[1..] == before + m + after && AllBlank(before)
    ensures s == [s[0]] + before + m + after && AllBlank([s[0]] + before)
  {
    assert s == [s[0]] + s[1..];
  }

  lemma OneMoreAfter(s: string, before: string, m: string, after: string)
    requires s != [] && Blank(s[|s| - 1]) && s[..|s| - 1] == before + m + after && AllBlank(after)
    ensures s == before + m + (after + [s[|s| - 1]]) && AllBlank(after + [s[|s| - 1]])
  {
    assert s == s[..|s| - 1] + [s[|s| - 1]];
  }

  /** Trimming takes off blanks only, and all of them at either end. */
  lemma {:induction false} TrimTrims(s: string) returns (before: string, after: string)
    ensures s == before + Trim(s) + after && AllBlank(before) && AllBlank(after)
    ensures Trim(s) != [] ==> !Blank(Trim(s)[0]) && !Blank(Trim(s)[|Trim(s)| - 1])
    decreases |s|
  {
    before, after := [], [];
    if s != [] && Blank(s[0]) {
      before, after := TrimTrims(s[1..]);
      OneMoreBefore(s, before, Trim(s), after);
      before := [s[0]] + before;
    } else if s != [] && Blank(s[|s| - 1]) {
      before, after := TrimTrims(s[..|s| - 1]);
      OneMoreAfter(s, before, Trim(s), after);
      after := after + [s[|s| - 1]];
    }
  }

  /** The parts that parse as header names. */
  function ParseAll(lib: Library, parts: seq<string>): seq<string>
  {
    if parts == [] then []
    else
      var name := lib.parseName(Trim(parts[0]));
      (if name.Some? then [name.value] else []) + ParseAll(lib, parts[1..])
  }

  /** A name is declared exactly when some part, trimmed, parses to it. */
  lemma {:induction false} ParseAllFinds(lib: Library, parts: seq<string>, name: string)
    ensures name in ParseAll(lib, parts) <==>
            exists i :: 0 <= i < |parts| && lib.parseName(Trim(parts[i])) == Some(name)
  {
    if parts == [] {
    } else {
      ParseAllFinds(lib, parts[1..], name);
      if name in ParseAll(lib, parts[1..]) {
        var i :| 0 <= i < |parts[1..]| && lib.parseName(Trim(parts[1..][i])) == Some(name);
        assert parts[i + 1] == parts[1..][i];
      }
      if i :| 0 < i < |parts| && lib.parseName(Trim(parts[i])) == Some(name) {
        assert parts[1..][i - 1] == parts[i];
      }
    }
  }

  function Declared(lib: Library, value: string): seq<string>
  {
    if lib.visible(value) then ParseAll(lib, Split(value)) else []
  }

  // ----- declared names, read off the value itself -----

  predicate Piece(v: string, i: int, j: int)
  {
    && 0 <= i <= j <= |v| && (forall l :: i <= l < j ==> v[l] != ',')
    && (i == 0 || v[i - 1] == ',') && (j == |v| || v[j] == ',')
  }

  /** `v[i..j]` lies between commas or ends, is `v[a..b]` once its blanks are taken off, and that names `name`. */
  ghost predicate PieceNames(lib: Library, v: string, i: int, a: int, b: int, j: int, name: string)
  {
    && Piece(v, i, j) && i <= a <= b <= j
    && (forall l :: i <= l < a || b <= l < j ==> v[l] == ' ' || v[l] == '\t')
    && (a < b ==> v[a] != ' ' && v[a] != '\t' && v[b - 1] != ' ' && v[b - 1] != '\t')
    && lib.parseName(v[a..b]) == Some(name)
  }

  ghost predicate DeclaredIn(lib: Library, v: string, name: string)
  {
    exists i, a, b, j :: PieceNames(lib, v, i, a, b, j, name)
  }

  lemma SliceOfSlice(v: string, i: nat, j: nat, p: nat, q: nat)
    requires i <= j <= |v| && p <= q <= j - i
    ensures v[i..j][p..q] == v[i + p..i + q]
  {
    assert forall l :: p <= l < q ==> v[i..j][l] == v[i + l];
  }

  /** Every part is a piece of the value. */
  lemma {:induction false} PartIsPiece(v: string, k: nat) returns (i: nat, j: nat)
    requires k < |Split(v)|
    ensures Piece(v, i, j) && Split(v)[k] == v[i..j] && (k == 0 <==> i == 0)
  {
    if v == [] {
      i, j := 0, 0;
    } else if v[0] == ',' {
      if k == 0 {
        i, j := 0, 0;
      } else {
        i, j := PartIsPiece(v[1..], k - 1);
        assert v[1..][i..j] == v[i + 1..j + 1];
        i, j := i + 1, j + 1;
      }
    } else {
      i, j := PartIsPiece(v[1..], k);
      assert v[1..][i..j] == v[i + 1..j + 1];
      if k == 0 {
        assert v[0..j + 1] == [v[0]] + v[1..j + 1];
        i, j := 0, j + 1;
      } else {
        i, j := i + 1, j + 1;
      }
    }
  }

  lemma PieceOfTail(v: string, i: nat, j: nat)
    requires Piece(v, i, j) && v != [] && (i > 0 || v[0] != ',')
    ensures j > 0 && Piece(v[1..], if i > 0 then i - 1 else 0, j - 1)
    ensures i > 0 ==> v[1..][i - 1..j - 1] == v[i..j]
    ensures i == 0 ==> v[i..j] == [v[0]] + v[1..][0..j - 1]
  {
    if i > 0 {
      SliceOfSlice(v, 1, |v|, i - 1, j - 1);
    } else {
      SliceOfSlice(v, 1, |v|, 0, j - 1);
    }
  }

  /** And every piece is a part. */
  lemma {:induction false} PieceIsPart(v: string, i: nat, j: nat) returns (k: nat)
    requires Piece(v, i, j)
    ensures k < |Split(v)| && Split(v)[k] == v[i..j] && (k == 0 <==> i == 0)
    decreases |v|
  {
    if v == [] || (i == 0 && v[0] == ',') {
      k := 0;
    } else {
      PieceOfTail(v, i, j);
      k := PieceIsPart(v[1..], if i > 0 then i - 1 else 0, j - 1);
      if v[0] == ',' {
        k := k + 1;
      }
    }
  }

  /** The trimmed text is the only middle that starts and ends without blanks. */
  lemma {:induction false} TrimUnique(s: string, a: nat, b: nat)
    requires a <= b <= |s| && AllBlank(s[..a]) && AllBlank(s[b..]) && (a == b || (!Blank(s[a]) && !Blank(s[b - 1])))
    ensures Trim(s) == s[a..b]
    decreases |s|
  {
    assert a > 0 ==> s[..a][0] == s[0];
    assert b < |s| ==> s[b..][|s| - b - 1] == s[|s| - 1];
    if s == [] {
    } else if Blank(s[0]) {
      var x, y := if a > 0 then a - 1 else 0, if a > 0 then b - 1 else 0;
      assert s[1..][x..y] == s[a..b];
      assert forall l :: 0 <= l < x ==> s[1..][..x][l] == s[..a][l + 1];
      assert forall l :: 0 <= l < |s| - 1 - y ==> s[1..][y..][l] == s[y + 1 + l];
      assert forall l :: b <= l < |s| ==> s[b..][l - b] == s[l];
      TrimUnique(s[1..], x, y);
    } else if Blank(s[|s| - 1]) {
      var t := s[..|s| - 1];
      assert t[a..b] == s[a..b] && t[..a] == s[..a];
      assert forall l :: 0 <= l < |t| - b ==> t[b..][l] == s[b..][l];
      TrimUnique(t, a, b);
    } else {
      assert a == 0 && b == |s|;
    }
  }

  lemma Middle(before: string, m: string, after: string, s: string)
    requires s == before + m + after
    ensures s[0..|before|] == before && s[|before|..|s| - |after|] == m && s[|s| - |after|..|s|] == after
  {
  }

  lemma TrimPositions(part: string) returns (x: nat, y: nat)
    ensures x <= y <= |part| && AllBlank(part[0..x]) && AllBlank(part[y..|part|]) && Trim(part) == part[x..y]
    ensures x == y || (!Blank(part[x]) && !Blank(part[y - 1]))
  {
    var before, after := TrimTrims(part);
    Middle(before, Trim(part), after, part);
    x, y := |before|, |part| - |after|;
    var m := part[x..y];
    assert x < y ==> m[0] == part[x] && m[|m| - 1] == part[y - 1];
  }

  lemma TrimBounds(v: string, i: nat, j: nat, part: string) returns (a: nat, b: nat)
    requires i <= j <= |v| && part == v[i..j]
    ensures i <= a <= b <= j && AllBlank(v[i..a]) && AllBlank(v[b..j]) && Trim(part) == v[a..b]
    ensures a == b || (!Blank(v[a]) && !Blank(v[b - 1]))
    ensures forall l :: i <= l < a || b <= l < j ==> Blank(v[l])
  {
    var x, y := TrimPositions(part);
    SliceOfSlice(v, i, j, 0, x);
    SliceOfSlice(v, i, j, x, y);
    SliceOfSlice(v, i, j, y, |part|);
    a, b := i + x, i + y;
    assert forall l :: i <= l < a ==> v[i..a][l - i] == v[l];
    assert forall l :: b <= l < j ==> v[b..j][l - b] == v[l];
  }

  lemma DeclaredPart(lib: Library, v: string, name: string, k: nat)
    requires k < |Split(v)| && lib.parseName(Trim(Split(v)[k])) == Some(name)
    ensures DeclaredIn(lib, v, name)
  {
    var i, j := PartIsPiece(v, k);
    var a, b := TrimBounds(v, i, j, Split(v)[k]);
    assert PieceNames(lib, v, i, a, b, j, name);
  }

  lemma PieceTrimmed(v: string, i: nat, a: nat, b: nat, j: nat)
    requires i <= a <= b <= j <= |v| && AllBlank(v[i..a]) && AllBlank(v[b..j])
    requires a == b || (!Blank(v[a]) && !Blank(v[b - 1]))
    ensures Trim(v[i..j]) == v[a..b]
  {
    SliceOfSlice(v, i, j, 0, a - i);
    SliceOfSlice(v, i, j, a - i, b - i);
    SliceOfSlice(v, i, j, b - i, j - i);
    TrimUnique(v[i..j], a - i, b - i);
  }

  /** What a readable value declares: exactly the names of its pieces. */
  lemma DeclaredExactly(lib: Library, v: string, name: string)
    requires lib.visible(v)
    ensures name in Declared(lib, v) <==> DeclaredIn(lib, v, name)
  {
    ParseAllFinds(lib, Split(v), name);
    if name in Declared(lib, v) {
      var k :| 0 <= k < |Split(v)| && lib.parseName(Trim(Split(v)[k])) == Some(name);
      DeclaredPart(lib, v, name, k);
    }
    if DeclaredIn(lib, v, name) {
      var i, a, b, j :| PieceNames(lib, v, i, a, b, j, name);
      var k := PieceIsPart(v, i, j);
      PieceTrimmed(v, i, a, b, j);
    }
  }

  // ----- values that are one name -----

  lemma {:induction false} SplitWithoutComma(v: string)
    requires ',' !in v
    ensures Split(v) == [v]
  {
    if v == [] {
    } else {
      SplitWithoutComma(v[1..]);
      assert [v[0]] + v[1..] == v;
    }
  }

  /** A value that is one header name in normal form. */
  predicate SingleName(lib: Library, name: string)
  {
    && lib.visible(name) && lib.parseName(name) == Some(name) && ',' !in name
    && name != [] && !Blank(name[0]) && !Blank(name[|name| - 1])
  }

  lemma DeclaredAlone(lib: Library, name: string)
    requires SingleName(lib, name)
    ensures Declared(lib, name) == [name]
  {
    SplitWithoutComma(name);
    assert Trim(name) == name;
    assert ParseAll(lib, [name]) == [name] + ParseAll(lib, [name][1..]);
  }
}
