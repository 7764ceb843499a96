/** Row edits in the sense of QList, and the tools to reason about lists that are
    filtered or rewritten row by row. */
module Lists {

  datatype Option<+T> = None | Some(value: T)

  function RemoveAt<T>(s: seq<T>, i: nat): (r: seq<T>)
    requires i < |s|
  {
    s[..i] + s[i + 1..]
  }

  function InsertAt<T>(s: seq<T>, i: nat, x: T): (r: seq<T>)
    requires i <= |s|
  {
    s[..i] + [x] + s[i..]
  }

  /** QList::move: take the row out, then put it back so that it ends up at `to`. */
  function Move<T>(s: seq<T>, from: nat, to: nat): (r: seq<T>)
    requires from < |s| && to < |s|
  {
    InsertAt(RemoveAt(s, from), to, s[from])
  }

  /** The rows left when the contiguous range first..last is cut out. */
  function CutRows<T>(s: seq<T>, first: nat, last: nat): (r: seq<T>)
    requires first <= last < |s|
  {
    s[..first] + s[last + 1..]
  }

  ghost predicate Distinct<T>(s: seq<T>) {
    forall i, j | 0 <= i < j < |s| :: s[i] != s[j]
  }

  /** Positions in a list of n rows, in increasing order. */
  ghost predicate Picks(from: seq<nat>, n: nat) {
    (forall k | 0 <= k < |from| :: from[k] < n) && forall j, k | 0 <= j < k < |from| :: from[j] < from[k]
  }

  function IndexOf<T(==)>(s: seq<T>, x: T): (i: nat)
    requires x in s
    ensures i < |s| && s[i] == x && forall k | 0 <= k < i :: s[k] != x
  {
    if s[0] == x then 0 else 1 + IndexOf(s[1..], x)
  }

  /** Rewrites each row by f, dropping the rows f maps to None. */
  function FilterMap<T, U>(s: seq<T>, f: T -> Option<U>): (r: seq<U>) {
    if s == [] then []
    else
      var rest := FilterMap(s[1..], f);
      match f(s[0])
      case None => rest
      case Some(y) => [y] + rest
  }

  function Keep<T>(p: T -> bool): T -> Option<T> {
    x => if p(x) then Some(x) else None
  }

  function Filter<T>(s: seq<T>, p: T -> bool): (r: seq<T>) {
    FilterMap(s, Keep(p))
  }

  lemma {:induction false} FilterMapConcat<T, U>(a: seq<T>, b: seq<T>, f: T -> Option<U>)
    ensures FilterMap(a + b, f) == FilterMap(a, f) + FilterMap(b, f)
  {
    if a == [] {
      assert a + b == b;
    } else {
      assert (a + b)[0] == a[0] && (a + b)[1..] == a[1..] + b;
      FilterMapConcat(a[1..], b, f);
    }
  }

  /** Where each surviving row of s[i..] came from: an increasing selection of positions that
      misses exactly the dropped rows. */
  lemma {:induction false} FilterMapOriginFrom<T, U>(s: seq<T>, f: T -> Option<U>, i: nat) returns (from: seq<nat>)
    requires i <= |s|
    ensures |from| == |FilterMap(s[i..], f)|
    ensures forall k | 0 <= k < |from| :: i <= from[k] < |s| && f(s[from[k]]) == Some(FilterMap(s[i..], f)[k])
    ensures forall j, k | 0 <= j < k < |from| :: from[j] < from[k]
    ensures forall n | i <= n < |s| && f(s[n]).Some? :: n in from
    decreases |s| - i
  {
    if i == |s| {
      from := [];
    } else {
      var rest := FilterMapOriginFrom(s, f, i + 1);
      assert s[i..][1..] == s[i + 1..];
      from := if f(s[i]).Some? then [i] + rest else rest;
    }
  }

  lemma FilterMapOrigin<T, U>(s: seq<T>, f: T -> Option<U>) returns (from: seq<nat>)
    ensures |from| == |FilterMap(s, f)|
    ensures forall k | 0 <= k < |from| :: from[k] < |s| && f(s[from[k]]) == Some(FilterMap(s, f)[k])
    ensures forall j, k | 0 <= j < k < |from| :: from[j] < from[k]
    ensures forall n | 0 <= n < |s| && f(s[n]).Some? :: n in from
  {
    assert s[0..] == s;
    from := FilterMapOriginFrom(s, f, 0);
  }

  lemma FilterMapMember<T, U>(s: seq<T>, f: T -> Option<U>, y: U)
    ensures y in FilterMap(s, f) <==> exists i :: 0 <= i < |s| && f(s[i]) == Some(y)
  {
    var from := FilterMapOrigin(s, f);
    if y in FilterMap(s, f) {
      var k :| 0 <= k < |FilterMap(s, f)| && FilterMap(s, f)[k] == y;
      assert f(s[from[k]]) == Some(y);
    }
    if i :| 0 <= i < |s| && f(s[i]) == Some(y) {
      assert i in from;
      var k :| 0 <= k < |from| && from[k] == i;
      assert FilterMap(s, f)[k] == y;
    }
  }

  lemma {:induction false} FilterMapCongruence<T, U>(s: seq<T>, f: T -> Option<U>, g: T -> Option<U>)
    requires forall i | 0 <= i < |s| :: f(s[i]) == g(s[i])
    ensures FilterMap(s, f) == FilterMap(s, g)
  {
    if s != [] {
      assert f(s[0]) == g(s[0]);
      assert forall i | 0 <= i < |s| - 1 :: s[1..][i] == s[i + 1];
      FilterMapCongruence(s[1..], f, g);
    }
  }

  /** Two passes are one pass by the composed rewriting. */
  lemma {:induction false} FilterMapCompose<T, U, V>(
      s: seq<T>, f: T -> Option<U>, g: U -> Option<V>, h: T -> Option<V>)
    requires forall i | 0 <= i < |s| :: h(s[i]) == (match f(s[i]) case None => None case Some(y) => g(y))
    ensures FilterMap(FilterMap(s, f), g) == FilterMap(s, h)
  {
    if s != [] {
      var rest := FilterMap(s[1..], f);
      assert h(s[0]) == (match f(s[0]) case None => None case Some(y) => g(y));
      assert forall i | 0 <= i < |s| - 1 :: s[1..][i] == s[i + 1];
      FilterMapCompose(s[1..], f, g, h);
      match f(s[0])
      case None =>
      case Some(y) =>
        assert ([y] + rest)[0] == y && ([y] + rest)[1..] == rest;
    }
  }

  lemma {:induction false} FilterMapIdentity<T>(s: seq<T>, f: T -> Option<T>)
    requires forall x | x in s :: f(x) == Some(x)
    ensures FilterMap(s, f) == s
  {
    if s != [] {
      FilterMapIdentity(s[1..], f);
    }
  }

  lemma {:induction false} FilterMapTotal<T, U>(s: seq<T>, f: T -> Option<U>, r: seq<U>)
    requires |r| == |s| && forall i | 0 <= i < |s| :: f(s[i]) == Some(r[i])
    ensures FilterMap(s, f) == r
  {
    if s != [] {
      assert f(s[0]) == Some(r[0]);
      FilterMapTotal(s[1..], f, r[1..]);
    }
  }

  lemma {:induction false} FilterMapAll<T, U>(s: seq<T>, f: T -> Option<U>)
    requires forall i | 0 <= i < |s| :: f(s[i]).Some?
    ensures |FilterMap(s, f)| == |s| && forall i | 0 <= i < |s| :: f(s[i]) == Some(FilterMap(s, f)[i])
  {
    if s != [] {
      assert f(s[0]).Some? && forall i | 0 <= i < |s| - 1 :: s[1..][i] == s[i + 1];
      FilterMapAll(s[1..], f);
    }
  }

  /** Where the rows of r came from when all but the first row are rewritten by f. */
  lemma OriginsBehind<T, U>(s: seq<T>, r: seq<U>, f: T -> Option<U>) returns (from: seq<nat>)
    requires s != [] && r != [] && r[1..] == FilterMap(s[1..], f)
    ensures |from| == |r| && from[0] == 0
    ensures forall j, k | 0 <= j < k < |from| :: from[j] < from[k]
    ensures forall k | 1 <= k < |r| :: 1 <= from[k] < |s| && f(s[from[k]]) == Some(r[k])
    ensures forall j: nat | 1 <= j < |s| :: j in from <==> f(s[j]).Some?
  {
    var origin := FilterMapOrigin(s[1..], f);
    from := Shifted(origin);
    forall k | 1 <= k < |r| ensures 1 <= from[k] < |s| && f(s[from[k]]) == Some(r[k]) {
      OriginRow(s, r, f, origin, k);
    }
    forall j: nat | 1 <= j < |s| ensures j in from <==> f(s[j]).Some? {
      ShiftedIn(origin, from, j);
      OriginMember(s, f, origin, j);
    }
  }

  lemma Shifted(origin: seq<nat>) returns (from: seq<nat>)
    requires forall j, k | 0 <= j < k < |origin| :: origin[j] < origin[k]
    ensures |from| == |origin| + 1 && from[0] == 0
    ensures forall k | 1 <= k < |from| :: from[k] == origin[k - 1] + 1
    ensures forall j, k | 0 <= j < k < |from| :: from[j] < from[k]
  {
    from := [0] + seq(|origin|, k requires 0 <= k < |origin| => origin[k] + 1);
  }

  lemma OriginRow<T, U>(s: seq<T>, r: seq<U>, f: T -> Option<U>, origin: seq<nat>, k: nat)
    requires s != [] && r != [] && |origin| == |r| - 1 && 1 <= k < |r|
    requires origin[k - 1] < |s| - 1 && f(s[1..][origin[k - 1]]) == Some(r[1..][k - 1])
    ensures f(s[origin[k - 1] + 1]) == Some(r[k])
  {
  }

  lemma OriginMember<T, U>(s: seq<T>, f: T -> Option<U>, origin: seq<nat>, j: nat)
    requires 1 <= j < |s|
    requires forall k | 0 <= k < |origin| :: origin[k] < |s| - 1 && f(s[1..][origin[k]]).Some?
    requires forall n | 0 <= n < |s| - 1 && f(s[1..][n]).Some? :: n in origin
    ensures j - 1 in origin <==> f(s[j]).Some?
  {
    var i: nat := j - 1;
    assert s[1..][i] == s[j];
    if i in origin { assert f(s[1..][origin[IndexOf(origin, i)]]).Some?; }
  }

  lemma ShiftedIn(origin: seq<nat>, from: seq<nat>, j: nat)
    requires j > 0 && |from| == |origin| + 1 && from[0] == 0
    requires forall k | 1 <= k < |from| :: from[k] == origin[k - 1] + 1
    ensures j in from <==> j - 1 in origin
  {
    if j in from {
      var k := IndexOf(from, j);
      assert origin[k - 1] == j - 1;
    }
    if j - 1 in origin {
      var i: nat := j - 1;
      assert from[IndexOf(origin, i) + 1] == j;
    }
  }

  lemma FilterMapAround<T>(a: seq<T>, x: T, b: seq<T>, f: T -> Option<T>)
    requires forall y | y in a :: f(y) == Some(y)
    requires forall y | y in b :: f(y) == Some(y)
    ensures FilterMap(a + [x] + b, f) == match f(x) case None => a + b case Some(y) => a + [y] + b
  {
    FilterMapConcat(a + [x], b, f);
    FilterMapConcat(a, [x], f);
    FilterMapIdentity(a, f);
    FilterMapIdentity(b, f);
    assert FilterMap([x][1..], f) == [];
  }

  /** A rewriting that leaves every row but one alone removes or replaces that row. */
  lemma {:induction false} FilterMapPoint<T>(s: seq<T>, f: T -> Option<T>, p: nat)
    requires p < |s|
    requires forall i | 0 <= i < |s| && i != p :: f(s[i]) == Some(s[i])
    ensures FilterMap(s, f) == match f(s[p]) case None => RemoveAt(s, p) case Some(y) => s[p := y]
  {
    var rest := s[1..];
    assert forall i | 0 <= i < |rest| :: rest[i] == s[i + 1];
    if p == 0 {
      FilterMapIdentity(rest, f);
    } else {
      FilterMapPoint(rest, f, p - 1);
      PointInTail(s, p, if f(s[p]).Some? then f(s[p]).value else s[p]);
    }
  }

  lemma PointInTail<T>(s: seq<T>, p: nat, y: T)
    requires 0 < p < |s|
    ensures RemoveAt(s, p) == [s[0]] + RemoveAt(s[1..], p - 1)
    ensures s[p := y] == [s[0]] + s[1..][p - 1 := y]
  {
  }

  /** A rewriting that drops just an inserted row undoes the insertion. */
  lemma FilterMapUninsert<T>(s: seq<T>, i: nat, x: T, f: T -> Option<T>)
    requires i <= |s| && f(x).None?
    requires forall y | y in s :: f(y) == Some(y)
    ensures FilterMap(InsertAt(s, i, x), f) == s
  {
    FilterMapAround(s[..i], x, s[i..], f);
    assert s == s[..i] + s[i..];
  }

  /** Taking out a row of a list splits its multiset. */
  lemma RemoveAtMultiset<T>(s: seq<T>, i: nat)
    requires i < |s|
    ensures multiset(s) == multiset(RemoveAt(s, i)) + multiset{s[i]}
  {
    assert s == s[..i] + [s[i]] + s[i + 1..];
  }

  lemma InsertAtMultiset<T>(s: seq<T>, i: nat, x: T)
    requires i <= |s|
    ensures multiset(InsertAt(s, i, x)) == multiset(s) + multiset{x}
  {
    assert s == s[..i] + s[i..];
  }

  function WithoutFirst<T(==)>(s: seq<T>, x: T): seq<T> {
    if x in s then RemoveAt(s, IndexOf(s, x)) else s
  }

  function Count<T(==)>(s: seq<T>, x: T): nat {
    if s == [] then 0 else (if s[0] == x then 1 else 0) + Count(s[1..], x)
  }

  lemma {:induction false} CountConcat<T>(a: seq<T>, b: seq<T>, x: T)
    ensures Count(a + b, x) == Count(a, x) + Count(b, x)
  {
    if a == [] {
      assert a + b == b;
    } else {
      assert (a + b)[0] == a[0] && (a + b)[1..] == a[1..] + b;
      CountConcat(a[1..], b, x);
    }
  }

  lemma {:induction false} CountRemoveAt<T>(s: seq<T>, i: nat, x: T)
    requires i < |s|
    ensures Count(s, x) == Count(RemoveAt(s, i), x) + (if s[i] == x then 1 else 0)
  {
    if i == 0 {
      assert RemoveAt(s, 0) == s[1..];
    } else {
      CountRemoveAt(s[1..], i - 1, x);
      assert RemoveAt(s, i)[0] == s[0] && RemoveAt(s, i)[1..] == RemoveAt(s[1..], i - 1);
    }
  }

  lemma CountInsertAt<T>(s: seq<T>, i: nat, y: T, x: T)
    requires i <= |s|
    ensures Count(InsertAt(s, i, y), x) == Count(s, x) + (if y == x then 1 else 0)
  {
    RemoveInserted(s, i, y);
    CountRemoveAt(InsertAt(s, i, y), i, x);
  }

  lemma RemoveInserted<T>(s: seq<T>, i: nat, y: T)
    requires i <= |s|
    ensures |InsertAt(s, i, y)| == |s| + 1 && InsertAt(s, i, y)[i] == y && RemoveAt(InsertAt(s, i, y), i) == s
  {
  }

  lemma CountUpdate<T>(s: seq<T>, i: nat, y: T, x: T)
    requires i < |s| && s[i] != x
    ensures Count(s[i := y], x) == Count(s, x) + (if y == x then 1 else 0)
  {
    var rest := RemoveAt(s, i);
    assert s == InsertAt(rest, i, s[i]);
    assert s[i := y] == InsertAt(rest, i, y);
    CountInsertAt(rest, i, s[i], x);
    CountInsertAt(rest, i, y, x);
  }

  lemma {:induction false} CountPositive<T>(s: seq<T>, x: T)
    ensures Count(s, x) > 0 <==> x in s
  {
    if s != [] { CountPositive(s[1..], x); }
  }

  lemma {:induction false} CountIsMultiplicity<T>(s: seq<T>, x: T)
    ensures Count(s, x) == multiset(s)[x]
  {
    if s != [] {
      CountIsMultiplicity(s[1..], x);
      assert s == [s[0]] + s[1..];
    }
  }

  lemma {:induction false} CountedTwice<T>(s: seq<T>, x: T) returns (i: nat, j: nat)
    requires Count(s, x) >= 2
    ensures i < j < |s| && s[i] == x && s[j] == x
  {
    if s[0] == x {
      CountPositive(s[1..], x);
      i, j := 0, IndexOf(s[1..], x) + 1;
    } else {
      i, j := CountedTwice(s[1..], x);
      i, j := i + 1, j + 1;
    }
  }

  lemma {:induction false} CountFilter<T>(s: seq<T>, p: T -> bool, x: T)
    ensures Count(Filter(s, p), x) == if p(x) then Count(s, x) else 0
  {
    if s != [] {
      CountFilter(s[1..], p, x);
      if p(s[0]) {
        assert Filter(s, p) == [s[0]] + Filter(s[1..], p);
      }
    }
  }

  lemma DistinctCounts<T>(s: seq<T>, x: T)
    requires Distinct(s)
    ensures Count(s, x) <= 1
  {
    if Count(s, x) >= 2 {
      var i, j := CountedTwice(s, x);
    }
  }

  lemma CountsDistinct<T(!new)>(s: seq<T>)
    requires forall x :: Count(s, x) <= 1
    ensures Distinct(s)
  {
    forall i, j | 0 <= i < j < |s| ensures s[i] != s[j] {
      var rest := RemoveAt(s, j);
      CountRemoveAt(s, j, s[j]);
      CountPositive(rest, s[j]);
      assert rest[i] == s[i] && rest[i] in rest;
    }
  }

  // ---------- sets, filters, distinct rows ----------

  lemma SubsetCount<T>(a: set<T>, b: set<T>)
    requires a <= b
    ensures |a| <= |b|
  {
    assert b == a + (b - a);
  }

  /** Filtering never lengthens, and shortens when it drops something. */
  lemma {:induction false} FilterShortens<T>(s: seq<T>, p: T -> bool)
    ensures |Filter(s, p)| <= |s|
    ensures (exists x :: x in s && !p(x)) ==> |Filter(s, p)| < |s|
  {
    if s != [] {
      FilterShortens(s[1..], p);
      if x :| x in s && !p(x) {
        if p(s[0]) { assert x in s[1..]; }
      }
    }
  }

  lemma FilterSnoc<T>(s: seq<T>, i: nat, p: T -> bool)
    requires i < |s|
    ensures Filter(s[..i + 1], p) == if p(s[i]) then Filter(s[..i], p) + [s[i]] else Filter(s[..i], p)
  {
    assert s[..i + 1] == s[..i] + [s[i]];
    FilterMapConcat(s[..i], [s[i]], Keep(p));
    assert FilterMap([s[i]][1..], Keep(p)) == [];
  }

  lemma FilterMember<T>(s: seq<T>, p: T -> bool, x: T)
    ensures x in Filter(s, p) <==> x in s && p(x)
  {
    FilterMapMember(s, Keep(p), x);
    if x in s {
      var i :| 0 <= i < |s| && s[i] == x;
      assert Keep(p)(s[i]) == if p(x) then Some(x) else None;
    }
  }

  /** The rows of r are in the order in which `ids` first has them, so none is there twice. */
  ghost predicate InOrderOf<T>(r: seq<T>, ids: seq<T>) {
    && (forall k | 0 <= k < |r| :: r[k] in ids)
    && forall j, k | 0 <= j < k < |r| :: IndexOf(ids, r[j]) < IndexOf(ids, r[k])
  }

  lemma {:induction false} FilterIndex<T>(s: seq<T>, p: T -> bool, x: T, y: T)
    requires x in Filter(s, p) && y in Filter(s, p) && IndexOf(Filter(s, p), x) < IndexOf(Filter(s, p), y)
    ensures x in s && y in s && IndexOf(s, x) < IndexOf(s, y)
  {
    FilterMember(s, p, x);
    FilterMember(s, p, y);
    var rest := Filter(s[1..], p);
    if p(s[0]) { assert ([s[0]] + rest)[1..] == rest; }
    if x != s[0] && y != s[0] { FilterIndex(s[1..], p, x, y); }
  }

  lemma FilterOrder<T>(r: seq<T>, s: seq<T>, p: T -> bool)
    requires InOrderOf(r, Filter(s, p))
    ensures InOrderOf(r, s)
  {
    forall k | 0 <= k < |r| ensures r[k] in s { FilterMember(s, p, r[k]); }
    forall j, k | 0 <= j < k < |r| ensures IndexOf(s, r[j]) < IndexOf(s, r[k]) {
      FilterIndex(s, p, r[j], r[k]);
    }
  }

  /** Filtering picks rows in their order. */
  lemma FilterPicks<T>(s: seq<T>, p: T -> bool) returns (from: seq<nat>)
    ensures Picks(from, |s|) && |from| == |Filter(s, p)|
    ensures forall k | 0 <= k < |from| :: Filter(s, p)[k] == s[from[k]] && p(s[from[k]])
    ensures forall j: nat | j < |s| :: j in from <==> p(s[j])
  {
    from := FilterMapOrigin(s, Keep(p));
    forall k | 0 <= k < |from| ensures Filter(s, p)[k] == s[from[k]] && p(s[from[k]]) {
      assert Keep(p)(s[from[k]]) == Some(Filter(s, p)[k]);
    }
    forall j: nat | j < |s| && p(s[j]) ensures j in from {
      assert Keep(p)(s[j]).Some?;
    }
  }

  lemma FilteredDistinct<T>(s: seq<T>, p: T -> bool)
    requires Distinct(s)
    ensures Distinct(Filter(s, p))
  {
    var from := FilterPicks(s, p);
  }

  lemma OneFiltered<T>(x: T, p: T -> bool)
    ensures Filter([x], p) == if p(x) then [x] else []
  {
    assert [x][1..] == [] && FilterMap([], Keep(p)) == [];
  }

  lemma ConcatDistinct<T>(a: seq<T>, b: seq<T>)
    requires Distinct(a) && Distinct(b) && forall x | x in b :: x !in a
    ensures Distinct(a + b)
  {
    var r := a + b;
    forall i, j | 0 <= i < j < |r| ensures r[i] != r[j] {
      if i < |a| <= j { assert r[i] in a && r[j] in b; }
    }
  }

  lemma Associative<T>(a: seq<T>, b: seq<T>, c: seq<T>)
    ensures (a + b) + c == a + (b + c)
  {
  }
}
