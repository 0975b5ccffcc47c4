/**
 The edit distance behind the shell's command suggestions. The matrix is sized
 by byte lengths and filled by characters, so it is the edit distance only
 under a condition stated here exactly.
 */
module Levenshtein {

  function Min(a: nat, b: nat): nat {
    if a <= b then a else b
  }

  function Front(s: string): string
    requires s != ""
  {
    s[..|s| - 1]
  }

  function Last(s: string): char
    requires s != ""
  {
    s[|s| - 1]
  }

  /** The recurrence the matrix tabulates. */
  function Dist(s: string, t: string): nat
    decreases |s| + |t|
  {
    if s == "" then |t|
    else if t == "" then |s|
    else Min(Min(Dist(Front(s), t) + 1, Dist(s, Front(t)) + 1),
             Dist(Front(s), Front(t)) + if Last(s) == Last(t) then 0 else 1)
  }

  // ------------------------------------------------------------ edit scripts

  /** `t` is `s` with one character inserted, deleted or replaced, between `x` and `y`. */
  predicate EditAt(s: string, t: string, x: string, a: string, b: string, y: string) {
    |a| <= 1 && |b| <= 1 && (a != "" || b != "") && s == x + a + y && t == x + b + y
  }

  ghost predicate Edit(s: string, t: string) {
    exists x, a, b, y :: EditAt(s, t, x, a, b, y)
  }

  /** `n` single edits turn `s` into `t`. */
  ghost predicate Reaches(s: string, t: string, n: nat)
    decreases n
  {
    if n == 0 then s == t else exists u :: Reaches(s, u, n - 1) && Edit(u, t)
  }

  lemma {:induction false} Compose(s: string, u: string, t: string, m: nat, n: nat)
    requires Reaches(s, u, m) && Reaches(u, t, n)
    ensures Reaches(s, t, m + n)
    decreases n
  {
    if n > 0 {
      var v :| Reaches(u, v, n - 1) && Edit(v, t);
      Compose(s, u, v, m, n - 1);
    }
  }

  lemma Append(s: string, u: string, t: string, n: nat)
    requires Reaches(s, u, n) && Edit(u, t)
    ensures Reaches(s, t, n + 1)
  {
  }

  lemma OneEdit(s: string, t: string)
    requires Edit(s, t)
    ensures Reaches(s, t, 1)
  {
    assert Reaches(s, s, 0);
  }

  lemma EditSymmetric(s: string, t: string)
    requires Edit(s, t)
    ensures Edit(t, s)
  {
    var x, a, b, y :| EditAt(s, t, x, a, b, y);
    assert EditAt(t, s, x, b, a, y);
  }

  lemma {:induction false} ReachesSymmetric(s: string, t: string, n: nat)
    requires Reaches(s, t, n)
    ensures Reaches(t, s, n)
    decreases n
  {
    if n > 0 {
      var u :| Reaches(s, u, n - 1) && Edit(u, t);
      ReachesSymmetric(s, u, n - 1);
      EditSymmetric(u, t);
      OneEdit(t, u);
      Compose(t, u, s, 1, n - 1);
    }
  }

  lemma {:induction false} Lift(s: string, t: string, n: nat, c: char)
    requires Reaches(s, t, n)
    ensures Reaches(s + [c], t + [c], n)
    decreases n
  {
    if n > 0 {
      var u :| Reaches(s, u, n - 1) && Edit(u, t);
      Lift(s, u, n - 1, c);
      var x, a, b, y :| EditAt(u, t, x, a, b, y);
      assert u + [c] == x + a + (y + [c]) && t + [c] == x + b + (y + [c]);
      assert EditAt(u + [c], t + [c], x, a, b, y + [c]);
      Append(s + [c], u + [c], t + [c], n - 1);
    }
  }

  // ----------------------------------------------------- the distance is reached

  lemma SplitLast(s: string)
    requires s != ""
    ensures s == Front(s) + [Last(s)]
  {
  }

  lemma {:induction false} Attained(s: string, t: string)
    ensures Reaches(s, t, Dist(s, t))
    decreases |s| + |t|
  {
    if s == "" && t == "" {
    } else if s == "" || (t != "" && Dist(s, t) == Dist(s, Front(t)) + 1) {
      assert Dist(s, t) == Dist(s, Front(t)) + 1;
      hide Dist;
      Attained(s, Front(t));
      LastEdit(t);
      Append(s, Front(t), t, Dist(s, Front(t)));
    } else if t == "" || Dist(s, t) == Dist(Front(s), t) + 1 {
      assert Dist(s, t) == Dist(Front(s), t) + 1;
      hide Dist;
      Attained(Front(s), t);
      LastEdit(s);
      OneEdit(s, Front(s));
      Compose(s, Front(s), t, 1, Dist(Front(s), t));
    } else {
      AttainedDiagonal(s, t);
    }
  }

  /** Adding and dropping the last character are edits. */
  lemma LastEdit(t: string)
    requires t != ""
    ensures Edit(Front(t), t) && Edit(t, Front(t))
  {
    SplitLast(t);
    assert Front(t) + "" + "" == Front(t);
    assert EditAt(Front(t), t, Front(t), "", [Last(t)], "");
    assert EditAt(t, Front(t), Front(t), [Last(t)], "", "");
  }

  lemma AttainedDiagonal(s: string, t: string)
    requires s != "" && t != ""
    requires Dist(s, t) == Dist(Front(s), Front(t)) + if Last(s) == Last(t) then 0 else 1
    ensures Reaches(s, t, Dist(s, t))
    decreases |s| + |t|, 0
  {
    hide Dist;
    SplitLast(s);
    SplitLast(t);
    Attained(Front(s), Front(t));
    Lift(Front(s), Front(t), Dist(Front(s), Front(t)), Last(s));
    if Last(s) != Last(t) {
      var mid := Front(t) + [Last(s)];
      assert EditAt(mid, t, Front(t), [Last(s)], [Last(t)], "");
      Append(s, mid, t, Dist(Front(s), Front(t)));
    }
  }

  // ------------------------------------------------- no script is shorter

  lemma {:induction false} Nearby(s: string, x: string, a: string, b: string)
    requires |a| <= 1 && |b| <= 1
    ensures Dist(s, x + b) <= Dist(s, x + a) + 1
    decreases |s|
  {
    assert a != "" ==> Front(x + a) == x;
    assert b != "" ==> Front(x + b) == x;
    assert x + "" == x;
    if s != "" {
      Nearby(Front(s), x, a, b);
      Nearby(Front(s), x, "", b);
      Nearby(Front(s), x, a, "");
      NearbyStep(s, x, x + a, x + b);
    }
  }

  /** The recurrence as bounds. */
  lemma Unfold(s: string, t: string)
    requires s != ""
    ensures Dist(s, t) <= Dist(Front(s), t) + 1
    ensures t != "" ==> Dist(s, t) <= Dist(s, Front(t)) + 1
    ensures t != "" ==> Dist(s, t) <= Dist(Front(s), Front(t)) + 1
    ensures t != "" && Last(s) == Last(t) ==> Dist(s, t) <= Dist(Front(s), Front(t))
    ensures t == "" ==> Dist(s, t) == Dist(Front(s), t) + 1
    ensures t != "" ==> Dist(s, t) == Dist(Front(s), t) + 1 || Dist(s, t) == Dist(s, Front(t)) + 1
                        || Dist(s, t) == Dist(Front(s), Front(t)) + if Last(s) == Last(t) then 0 else 1
  {
  }

  lemma NearbyStep(s: string, x: string, t: string, u: string)
    requires s != "" && (t == x || (t != "" && Front(t) == x)) && (u == x || (u != "" && Front(u) == x))
    requires Dist(Front(s), u) <= Dist(Front(s), t) + 1
    requires Dist(Front(s), u) <= Dist(Front(s), x) + 1
    requires Dist(Front(s), x) <= Dist(Front(s), t) + 1
    ensures Dist(s, u) <= Dist(s, t) + 1
  {
    hide Dist;
    Unfold(s, t);
    Unfold(s, u);
    Unfold(s, x);
  }

  /** One edit of the second string moves the distance by at most one. */
  lemma {:induction false} Lipschitz(s: string, x: string, a: string, b: string, y: string)
    requires |a| <= 1 && |b| <= 1
    ensures Dist(s, x + b + y) <= Dist(s, x + a + y) + 1
    decreases |s| + |y|
  {
    var t, u := x + a + y, x + b + y;
    if y == "" {
      assert t == x + a && u == x + b;
      Nearby(s, x, a, b);
    } else if s != "" {
      assert Front(t) == x + a + Front(y) && Front(u) == x + b + Front(y);
      assert Last(t) == Last(u);
      Lipschitz(Front(s), x, a, b, y);
      Lipschitz(s, x, a, b, Front(y));
      Lipschitz(Front(s), x, a, b, Front(y));
      Unfold(s, t);
      Unfold(s, u);
      hide Dist;
    }
  }

  lemma {:induction false} NoShorter(s: string, t: string, n: nat)
    requires Reaches(s, t, n)
    ensures Dist(s, t) <= n
    decreases n
  {
    if n == 0 {
      DistSelf(s);
    } else {
      var u :| Reaches(s, u, n - 1) && Edit(u, t);
      NoShorter(s, u, n - 1);
      var x, a, b, y :| EditAt(u, t, x, a, b, y);
      Lipschitz(s, x, a, b, y);
    }
  }

  lemma {:induction false} DistSelf(s: string)
    ensures Dist(s, s) == 0
  {
    if s != "" {
      DistSelf(Front(s));
    }
  }

  /** The distance is the least number of single-character edits that turn one string into the other. */
  lemma DistIsLeast(s: string, t: string)
    ensures Reaches(s, t, Dist(s, t))
    ensures forall n :: Reaches(s, t, n) ==> Dist(s, t) <= n
  {
    Attained(s, t);
    forall n | Reaches(s, t, n) ensures Dist(s, t) <= n {
      NoShorter(s, t, n);
    }
  }

  /** It is a metric. */
  lemma DistIsMetric(s: string, t: string, u: string)
    ensures Dist(s, t) == 0 <==> s == t
    ensures Dist(s, t) == Dist(t, s)
    ensures Dist(s, u) <= Dist(s, t) + Dist(t, u)
  {
    hide Dist;
    DistIsLeast(s, t);
    DistIsLeast(t, s);
    DistIsLeast(t, u);
    ReachesSymmetric(s, t, Dist(s, t));
    ReachesSymmetric(t, s, Dist(t, s));
    Compose(s, t, u, Dist(s, t), Dist(t, u));
    NoShorter(s, u, Dist(s, t) + Dist(t, u));
    if s == t {
      DistSelf(s);
    }
  }

  // ---------------------------------------------------------------- the matrix

  /** `char::len_utf8`. */
  function Utf8Width(c: char): (n: nat)
    ensures 1 <= n <= 4
  {
    var v := c as int;
    if v < 0x80 then 1 else if v < 0x800 then 2 else if v < 0x10000 then 3 else 4
  }

  /** `str::len`: the length in bytes. */
  function ByteLen(s: string): (n: nat)
    ensures n >= |s|
    ensures n == 0 <==> s == ""
  {
    if s == "" then 0 else ByteLen(Front(s)) + Utf8Width(Last(s))
  }

  predicate Ascii(s: string) {
    forall i :: 0 <= i < |s| ==> s[i] as int < 0x80
  }

  lemma {:induction false} AsciiIff(s: string)
    ensures Ascii(s) <==> ByteLen(s) == |s|
  {
    if s != "" {
      AsciiIff(Front(s));
      assert Ascii(s) <==> Ascii(Front(s)) && Last(s) as int < 0x80;
    }
  }

  /** Cell (p, q) belongs to the tabulated part and holds the distance of the prefixes. */
  predicate Cell(m: array2<nat>, s: string, t: string, p: nat, q: nat)
    requires p < m.Length0 && q < m.Length1 && p <= |s| && q <= |t|
    reads m
  {
    m[p, q] == Dist(s[..p], t[..q])
  }

  /** Rows up to `i` and, in row `i + 1`, columns up to `j` are done; the surplus cells are untouched. */
  ghost predicate Filled(m: array2<nat>, s: string, t: string, i: nat, j: nat)
    reads m
  {
    m.Length0 == ByteLen(s) + 1 && m.Length1 == ByteLen(t) + 1
    && (forall p, q :: 0 <= p <= |s| && 0 <= q <= |t| && (p <= i || q == 0 || (p == i + 1 && q <= j)) ==> Cell(m, s, t, p, q))
    && (forall p, q :: 0 < p < m.Length0 && 0 < q < m.Length1 && (p > |s| || q > |t|) ==> m[p, q] == 0)
    && m[m.Length0 - 1, 0] == m.Length0 - 1 && m[0, m.Length1 - 1] == m.Length1 - 1
  }

  /** What `levenshtein_distance` returns. */
  function Computed(s: string, t: string): nat {
    if ByteLen(s) == |s| && ByteLen(t) == |t| then Dist(s, t)
    else if s == "" then ByteLen(t)
    else if t == "" then ByteLen(s)
    else 0
  }

  /** `levenshtein_distance`. */
  method LevenshteinDistance(s1: string, s2: string) returns (d: nat)
    ensures d == Computed(s1, s2)
  {
    hide Filled, Dist;
    var len1, len2 := ByteLen(s1), ByteLen(s2);
    var matrix := Initialise(s1, s2);
    for i := 0 to |s1|
      invariant matrix.Length0 == len1 + 1 && matrix.Length1 == len2 + 1
      invariant Filled(matrix, s1, s2, i, 0)
    {
      for j := 0 to |s2|
        invariant matrix.Length0 == len1 + 1 && matrix.Length1 == len2 + 1
        invariant Filled(matrix, s1, s2, i, j)
      {
        var cost := if s1[i] == s2[j] then 0 else 1;
        ReadCells(matrix, s1, s2, i, j);
        DistStep(s1, s2, i, j);
        SetCell(matrix, s1, s2, i, j,
                Min(Min(matrix[i, j + 1] + 1, matrix[i + 1, j] + 1), matrix[i, j] + cost));
      }
      RowDone(matrix, s1, s2, i);
    }
    Corner(matrix, s1, s2);
    d := matrix[len1, len2];
  }

  method Initialise(s1: string, s2: string) returns (matrix: array2<nat>)
    ensures fresh(matrix) && Filled(matrix, s1, s2, 0, 0)
    ensures matrix.Length0 == ByteLen(s1) + 1 && matrix.Length1 == ByteLen(s2) + 1
    ensures forall p :: 0 <= p < matrix.Length0 ==> matrix[p, 0] == p
    ensures forall q :: 0 <= q < matrix.Length1 ==> matrix[0, q] == q
    ensures forall p, q :: 0 < p < matrix.Length0 && 0 < q < matrix.Length1 ==> matrix[p, q] == 0
  {
    hide Filled, Dist;
    var len1, len2 := ByteLen(s1), ByteLen(s2);
    matrix := new nat[len1 + 1, len2 + 1]((i, j) => 0);
    for i := 0 to len1 + 1
      invariant forall p :: 0 <= p < i ==> matrix[p, 0] == p
      invariant forall p, q :: 0 <= p <= len1 && 0 < q <= len2 ==> matrix[p, q] == 0
    {
      matrix[i, 0] := i;
    }
    for j := 0 to len2 + 1
      invariant forall p :: 0 <= p <= len1 ==> matrix[p, 0] == p
      invariant forall q :: 0 <= q < j ==> matrix[0, q] == q
      invariant forall p, q :: 0 < p <= len1 && 0 < q <= len2 ==> matrix[p, q] == 0
    {
      matrix[0, j] := j;
    }
    FirstRow(matrix, s1, s2);
  }

  method SetCell(m: array2<nat>, s: string, t: string, i: nat, j: nat, value: nat)
    requires i < |s| && j < |t| && Filled(m, s, t, i, j)
    requires value == Dist(s[..i + 1], t[..j + 1])
    modifies m
    ensures Filled(m, s, t, i, j + 1)
  {
    hide Dist;
    m[i + 1, j + 1] := value;
    forall p, q | 0 <= p <= |s| && 0 <= q <= |t| && (p <= i || q == 0 || (p == i + 1 && q <= j + 1))
      ensures Cell(m, s, t, p, q)
    {
      if !(p == i + 1 && q == j + 1) {
        assert old(Cell(m, s, t, p, q));
      }
    }
  }

  lemma RowDone(m: array2<nat>, s: string, t: string, i: nat)
    requires i < |s| && Filled(m, s, t, i, |t|)
    ensures Filled(m, s, t, i + 1, 0)
  {
    hide Dist;
    forall p, q | 0 <= p <= |s| && 0 <= q <= |t| && (p <= i + 1 || q == 0) ensures Cell(m, s, t, p, q) {
    }
  }

  lemma FirstRow(m: array2<nat>, s: string, t: string)
    requires m.Length0 == ByteLen(s) + 1 && m.Length1 == ByteLen(t) + 1
    requires forall p :: 0 <= p < m.Length0 ==> m[p, 0] == p
    requires forall q :: 0 <= q < m.Length1 ==> m[0, q] == q
    requires forall p, q :: 0 < p < m.Length0 && 0 < q < m.Length1 ==> m[p, q] == 0
    ensures Filled(m, s, t, 0, 0)
  {
    forall p, q | 0 <= p <= |s| && 0 <= q <= |t| && (p == 0 || q == 0) ensures Cell(m, s, t, p, q) {
      assert |s[..p]| == p && |t[..q]| == q;
    }
  }

  lemma ReadCells(m: array2<nat>, s: string, t: string, i: nat, j: nat)
    requires i < |s| && j < |t| && Filled(m, s, t, i, j)
    ensures m[i, j + 1] == Dist(s[..i], t[..j + 1])
    ensures m[i + 1, j] == Dist(s[..i + 1], t[..j])
    ensures m[i, j] == Dist(s[..i], t[..j])
  {
    hide Dist;
    assert Cell(m, s, t, i, j + 1) && Cell(m, s, t, i + 1, j) && Cell(m, s, t, i, j);
  }

  lemma DistStep(s: string, t: string, i: nat, j: nat)
    requires i < |s| && j < |t|
    ensures Dist(s[..i + 1], t[..j + 1])
         == Min(Min(Dist(s[..i], t[..j + 1]) + 1, Dist(s[..i + 1], t[..j]) + 1),
                Dist(s[..i], t[..j]) + if s[i] == t[j] then 0 else 1)
  {
    hide Dist;
    assert Front(s[..i + 1]) == s[..i] && Front(t[..j + 1]) == t[..j];
    Recurrence(s[..i + 1], t[..j + 1]);
  }

  lemma Recurrence(s: string, t: string)
    requires s != "" && t != ""
    ensures Dist(s, t) == Min(Min(Dist(Front(s), t) + 1, Dist(s, Front(t)) + 1),
                              Dist(Front(s), Front(t)) + if Last(s) == Last(t) then 0 else 1)
  {
    hide Min, Front, Last;
  }

  lemma Corner(m: array2<nat>, s: string, t: string)
    requires Filled(m, s, t, |s|, 0)
    ensures m[ByteLen(s), ByteLen(t)] == Computed(s, t)
  {
    hide Dist;
    if ByteLen(s) == |s| && ByteLen(t) == |t| {
      assert Cell(m, s, t, |s|, |t|);
      assert s[..|s|] == s && t[..|t|] == t;
    }
  }

  /** The result is the edit distance exactly when both strings are ASCII or they are equal. */
  lemma CorrectIff(s: string, t: string)
    ensures Computed(s, t) == Dist(s, t) <==> (Ascii(s) && Ascii(t)) || s == t
  {
    AsciiIff(s);
    AsciiIff(t);
    DistIsMetric(s, t, t);
  }

  /** A two-byte letter: 2 edits are reported where one removes it, and none where one replaces it. */
  lemma AccentedLetter()
    ensures Computed("\U{00E9}", "") == 2 && Dist("\U{00E9}", "") == 1
    ensures Computed("\U{00E9}", "e") == 0 && Dist("\U{00E9}", "e") == 1
  {
    var s := "\U{00E9}";
    assert s[1..] == "";
    assert Front(s) == "";
    assert ByteLen(s) == 2;
    assert Front("e") == "";
  }
}
