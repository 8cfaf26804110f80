/** The edit distance behind typo suggestions: the two-row computation, the recursive definition it refines, and
    what the number means. */
module EditDistance {
  function Min(x: nat, y: nat): nat {
    if x <= y then x else y
  }

  function Front<T>(s: seq<T>): seq<T>
    requires s != []
  {
    s[..|s| - 1]
  }

  function Last<T>(s: seq<T>): T
    requires s != []
  {
    s[|s| - 1]
  }

  function Cost<T(==)>(x: T, y: T): nat {
    if x == y then 0 else 1
  }

  function Distance<T(==)>(a: seq<T>, b: seq<T>): nat
    decreases |a| + |b|
  {
    if a == [] then |b|
    else if b == [] then |a|
    else Min(Min(Distance(Front(a), b) + 1, Distance(a, Front(b)) + 1),
             Distance(Front(a), Front(b)) + Cost(Last(a), Last(b)))
  }

  /** The row holds the distances from `a` to every prefix of `b`. */
  ghost predicate IsRow<T>(row: seq<nat>, a: seq<T>, b: seq<T>) {
    |row| == |b| + 1 && forall k :: 0 <= k <= |b| ==> row[k] == Distance(a, b[..k])
  }

  lemma {:induction false} FrontOfTake<T>(s: seq<T>, i: nat)
    requires 1 <= i <= |s|
    ensures Front(s[..i]) == s[..i - 1] && Last(s[..i]) == s[i - 1]
  {
  }

  lemma {:induction false} DistanceUnfolds<T>(a: seq<T>, b: seq<T>)
    requires a != [] && b != []
    ensures Distance(a, b) == Min(Min(Distance(Front(a), b) + 1, Distance(a, Front(b)) + 1),
                                  Distance(Front(a), Front(b)) + Cost(Last(a), Last(b)))
  {
  }

  lemma {:induction false} CellStep<T>(a: seq<T>, b: seq<T>, i: nat, j: nat, prev: seq<nat>, curr: seq<nat>)
    requires 1 <= i <= |a| && 1 <= j <= |b| && |curr| == |b| + 1
    requires IsRow(prev, a[..i - 1], b) && curr[j - 1] == Distance(a[..i], b[..j - 1])
    ensures Distance(a[..i], b[..j]) ==
      Min(Min(prev[j] + 1, curr[j - 1] + 1), prev[j - 1] + Cost(a[i - 1], b[j - 1]))
  {
    FrontOfTake(a, i);
    FrontOfTake(b, j);
    DistanceUnfolds(a[..i], b[..j]);
  }

  /** The inner loop: one row from the row above it. */
  method FillRow<T(==)>(a: seq<T>, b: seq<T>, i: nat, prev: array<nat>, curr: array<nat>)
    requires 1 <= i <= |a| && prev != curr && curr.Length == |b| + 1
    requires IsRow(prev[..], a[..i - 1], b)
    modifies curr
    ensures IsRow(curr[..], a[..i], b)
  {
    curr[0] := i;
    var j := 1;
    while j <= |b|
      invariant 1 <= j <= |b| + 1
      invariant forall k :: 0 <= k < j ==> curr[k] == Distance(a[..i], b[..k])
    {
      CellStep(a, b, i, j, prev[..], curr[..]);
      var cost := Cost(a[i - 1], b[j - 1]);
      curr[j] := Min(Min(prev[j] + 1, curr[j - 1] + 1), prev[j - 1] + cost);
      j := j + 1;
    }
  }

  lemma {:induction false} FirstRow<T>(row: seq<nat>, a: seq<T>, b: seq<T>)
    requires |row| == |b| + 1 && forall k :: 0 <= k <= |b| ==> row[k] == k
    ensures IsRow(row, a[..0], b)
  {
  }

  method Levenshtein<T(==)>(a: seq<T>, b: seq<T>) returns (distance: nat)
    ensures distance == Distance(a, b)
  {
    var m, n := |a|, |b|;
    if m == 0 {
      return n;
    }
    if n == 0 {
      return m;
    }
    var prev := new nat[n + 1](index => index);
    var curr := new nat[n + 1](_ => 0);
    FirstRow(prev[..], a, b);
    var i := 1;
    while i <= m
      invariant 1 <= i <= m + 1
      invariant prev != curr && curr.Length == n + 1 && fresh(prev) && fresh(curr)
      invariant IsRow(prev[..], a[..i - 1], b)
    {
      FillRow(a, b, i, prev, curr);
      var swap := prev;
      prev := curr;
      curr := swap;
      i := i + 1;
    }
    assert a[..m] == a && b[..n] == b;
    return prev[n];
  }

  // ---- A metric ----

  lemma {:induction false} DistanceBounds<T>(a: seq<T>, b: seq<T>)
    ensures Distance(a, b) <= |a| + |b|
    ensures |a| <= |b| + Distance(a, b) && |b| <= |a| + Distance(a, b)
    decreases |a| + |b|
  {
    if a == [] || b == [] {
    } else {
      DistanceBounds(Front(a), b);
      DistanceBounds(a, Front(b));
      DistanceBounds(Front(a), Front(b));
    }
  }

  lemma {:induction false} ZeroIffEqual<T>(a: seq<T>, b: seq<T>)
    ensures Distance(a, b) == 0 <==> a == b
    decreases |a| + |b|
  {
    if a == [] || b == [] {
    } else {
      ZeroIffEqual(Front(a), Front(b));
      assert a == Front(a) + [Last(a)] && b == Front(b) + [Last(b)];
    }
  }

  lemma {:induction false} Symmetric<T>(a: seq<T>, b: seq<T>)
    ensures Distance(a, b) == Distance(b, a)
    decreases |a| + |b|
  {
    if a == [] || b == [] {
    } else {
      Symmetric(Front(a), b);
      Symmetric(a, Front(b));
      Symmetric(Front(a), Front(b));
    }
  }

  lemma {:induction false} Triangle<T>(a: seq<T>, b: seq<T>, c: seq<T>)
    ensures Distance(a, c) <= Distance(a, b) + Distance(b, c)
    decreases |a| + |b| + |c|
  {
    DistanceBounds(a, b);
    DistanceBounds(b, c);
    DistanceBounds(a, c);
    if a == [] || b == [] || c == [] {
    } else {
      if Distance(a, b) == Distance(Front(a), b) + 1 {
        Triangle(Front(a), b, c);
      } else if Distance(b, c) == Distance(b, Front(c)) + 1 {
        Triangle(a, b, Front(c));
      } else if Distance(a, b) == Distance(a, Front(b)) + 1 {
        if Distance(b, c) == Distance(Front(b), c) + 1 {
          Triangle(a, Front(b), c);
        } else {
          Triangle(a, Front(b), Front(c));
        }
      } else if Distance(b, c) == Distance(Front(b), c) + 1 {
        Triangle(Front(a), Front(b), c);
      } else {
        Triangle(Front(a), Front(b), Front(c));
      }
    }
  }

  // ---- The least number of single-character edits ----

  ghost predicate Inserts<T(!new)>(s: seq<T>, t: seq<T>) {
    exists p: seq<T>, x: T, q: seq<T> :: s == p + q && t == p + [x] + q
  }

  ghost predicate Replaces<T(!new)>(s: seq<T>, t: seq<T>) {
    exists p: seq<T>, x: T, y: T, q: seq<T> :: s == p + [x] + q && t == p + [y] + q
  }

  /** One character inserted, deleted or replaced. */
  ghost predicate OneEdit<T(!new)>(s: seq<T>, t: seq<T>) {
    Inserts(s, t) || Inserts(t, s) || Replaces(s, t)
  }

  ghost predicate EditPath<T(!new)>(path: seq<seq<T>>, a: seq<T>, b: seq<T>) {
    && path != [] && path[0] == a && path[|path| - 1] == b
    && forall i :: 0 < i < |path| ==> OneEdit(path[i - 1], path[i])
  }

  lemma {:induction false} CommonSuffix<T>(u: seq<T>, v: seq<T>, q: seq<T>)
    ensures Distance(u + q, v + q) <= Distance(u, v)
    decreases |q|
  {
    if q == [] {
      assert u + q == u && v + q == v;
    } else {
      CommonSuffix(u, v, Front(q));
      assert Front(u + q) == u + Front(q) && Front(v + q) == v + Front(q);
    }
  }

  lemma {:induction false} InsertIsNear<T(!new)>(s: seq<T>, t: seq<T>)
    requires Inserts(s, t)
    ensures Distance(s, t) <= 1
  {
    var p, x, q :| s == p + q && t == p + [x] + q;
    CommonSuffix(p, p + [x], q);
    ZeroIffEqual(p, p);
    assert Front(p + [x]) == p;
  }

  lemma {:induction false} OneEditIsNear<T(!new)>(s: seq<T>, t: seq<T>)
    requires OneEdit(s, t)
    ensures Distance(s, t) <= 1
  {
    if Inserts(s, t) {
      InsertIsNear(s, t);
    } else if Inserts(t, s) {
      InsertIsNear(t, s);
      Symmetric(s, t);
    } else {
      var p, x, y, q :| s == p + [x] + q && t == p + [y] + q;
      CommonSuffix(p + [x], p + [y], q);
      ZeroIffEqual(p, p);
      assert Front(p + [x]) == p && Front(p + [y]) == p;
    }
  }

  lemma {:induction false} PathIsNoShorter<T(!new)>(path: seq<seq<T>>, a: seq<T>, b: seq<T>)
    requires EditPath(path, a, b)
    ensures Distance(a, b) <= |path| - 1
    decreases |path|
  {
    if |path| == 1 {
      ZeroIffEqual(a, b);
    } else {
      var shorter := path[..|path| - 1];
      var c := shorter[|shorter| - 1];
      PathIsNoShorter(shorter, a, c);
      OneEditIsNear(c, b);
      Triangle(a, c, b);
    }
  }

  lemma {:induction false} InsertThenSame<T(!new)>(s: seq<T>, t: seq<T>, c: T)
    requires Inserts(s, t)
    ensures Inserts(s + [c], t + [c])
  {
    var p, x, q :| s == p + q && t == p + [x] + q;
    assert s + [c] == p + (q + [c]) && t + [c] == p + [x] + (q + [c]);
  }

  lemma {:induction false} OneEditThenSame<T(!new)>(s: seq<T>, t: seq<T>, c: T)
    requires OneEdit(s, t)
    ensures OneEdit(s + [c], t + [c])
  {
    if Inserts(s, t) {
      InsertThenSame(s, t, c);
    } else if Inserts(t, s) {
      InsertThenSame(t, s, c);
    } else {
      var p, x, y, q :| s == p + [x] + q && t == p + [y] + q;
      assert s + [c] == p + [x] + (q + [c]) && t + [c] == p + [y] + (q + [c]);
    }
  }

  lemma {:induction false} AppendIsOneEdit<T(!new)>(s: seq<T>)
    requires s != []
    ensures Inserts(Front(s), s)
  {
    assert Front(s) == Front(s) + [] && s == Front(s) + [Last(s)] + [];
  }

  ghost function EachThen<T>(path: seq<seq<T>>, c: T): (r: seq<seq<T>>)
    ensures |r| == |path| && forall i :: 0 <= i < |path| ==> r[i] == path[i] + [c]
  {
    seq(|path|, i requires 0 <= i < |path| => path[i] + [c])
  }

  lemma {:induction false} PathBehind<T(!new)>(a: seq<T>, rest: seq<seq<T>>, b: seq<T>)
    requires a != [] && EditPath(rest, Front(a), b)
    ensures EditPath([a] + rest, a, b)
  {
    AppendIsOneEdit(a);
    var path := [a] + rest;
    forall i | 0 < i < |path|
      ensures OneEdit(path[i - 1], path[i])
    {
      assert i > 1 ==> OneEdit(rest[i - 2], rest[i - 1]);
    }
  }

  lemma PathExtended<T(!new)>(path: seq<seq<T>>, a: seq<T>, b: seq<T>, c: seq<T>)
    requires EditPath(path, a, b) && OneEdit(b, c)
    ensures EditPath(path + [c], a, c)
  {
    var longer := path + [c];
    forall i | 0 < i < |longer|
      ensures OneEdit(longer[i - 1], longer[i])
    {
      assert i < |path| ==> OneEdit(path[i - 1], path[i]);
    }
  }

  lemma {:induction false} PathBefore<T(!new)>(a: seq<T>, rest: seq<seq<T>>, b: seq<T>)
    requires b != [] && EditPath(rest, a, Front(b))
    ensures EditPath(rest + [b], a, b)
  {
    AppendIsOneEdit(b);
    PathExtended(rest, a, Front(b), b);
  }

  /** How the distance of two strings comes about from shorter ones. */
  lemma {:induction false} DistanceCases<T>(a: seq<T>, b: seq<T>)
    requires a != [] || b != []
    ensures || (a != [] && Distance(a, b) == Distance(Front(a), b) + 1)
            || (b != [] && Distance(a, b) == Distance(a, Front(b)) + 1)
            || (a != [] && b != [] && Distance(a, b) == Distance(Front(a), Front(b)) + Cost(Last(a), Last(b)))
  {
  }

  lemma {:induction false} PathAlong<T(!new)>(path: seq<seq<T>>, a: seq<T>, b: seq<T>, c: T)
    requires EditPath(path, a, b)
    ensures EditPath(EachThen(path, c), a + [c], b + [c])
  {
    var longer := EachThen(path, c);
    forall i | 0 < i < |longer|
      ensures OneEdit(longer[i - 1], longer[i])
    {
      OneEditThenSame(path[i - 1], path[i], c);
    }
  }

  lemma {:induction false} ReplaceLast<T(!new)>(s: seq<T>, x: T, y: T)
    ensures OneEdit(s + [x], s + [y])
  {
    assert s + [x] == s + [x] + [] && s + [y] == s + [y] + [];
  }

  lemma FrontThenLast<T>(s: seq<T>)
    requires s != []
    ensures Front(s) + [Last(s)] == s
  {
  }

  /** A path between the fronts, then the last characters: one edit more if those differ. */
  lemma {:induction false} PathAligned<T(!new)>(path: seq<seq<T>>, a: seq<T>, b: seq<T>) returns (longer: seq<seq<T>>)
    requires a != [] && b != [] && EditPath(path, Front(a), Front(b))
    ensures EditPath(longer, a, b) && |longer| == |path| + Cost(Last(a), Last(b))
  {
    PathAlong(path, Front(a), Front(b), Last(a));
    FrontThenLast(a);
    FrontThenLast(b);
    longer := EachThen(path, Last(a));
    if Last(a) != Last(b) {
      ReplaceLast(Front(b), Last(a), Last(b));
      PathExtended(longer, a, Front(b) + [Last(a)], b);
      longer := longer + [b];
    }
  }

  /** A shortest edit path. */
  lemma {:induction false} ShortestPath<T(!new)>(a: seq<T>, b: seq<T>) returns (path: seq<seq<T>>)
    ensures EditPath(path, a, b) && |path| == Distance(a, b) + 1
    decreases |a| + |b|
  {
    if a == [] && b == [] {
      return [a];
    }
    DistanceCases(a, b);
    if a != [] && Distance(a, b) == Distance(Front(a), b) + 1 {
      path := ShortestPath(Front(a), b);
      PathBehind(a, path, b);
      path := [a] + path;
    } else if b != [] && Distance(a, b) == Distance(a, Front(b)) + 1 {
      path := ShortestPath(a, Front(b));
      PathBefore(a, path, b);
      path := path + [b];
    } else {
      path := ShortestPath(Front(a), Front(b));
      path := PathAligned(path, a, b);
    }
  }

  /** The distance is the length of a shortest sequence of single-character edits. */
  lemma {:induction false} DistanceIsLeastEdits<T(!new)>(a: seq<T>, b: seq<T>)
    ensures exists path: seq<seq<T>> :: EditPath(path, a, b) && |path| == Distance(a, b) + 1
    ensures forall path: seq<seq<T>> :: EditPath(path, a, b) ==> Distance(a, b) + 1 <= |path|
  {
    var path := ShortestPath(a, b);
    forall path: seq<seq<T>> | EditPath(path, a, b)
      ensures Distance(a, b) + 1 <= |path|
    {
      PathIsNoShorter(path, a, b);
    }
  }
}
