/** The launcher category of an app, voted for by the category names of its desktop file. */
module CategoryVotes {
  import opened Lists

  datatype Category =
    | Internet | Chat | Music | Video | Graphics | Game | Office | Reading | Development | System | Others | Err

  /** All categories in the order of the enumeration, in which a map over them is iterated. */
  const Enumeration: seq<Category> :=
    [Internet, Chat, Music, Video, Graphics, Game, Office, Reading, Development, System, Others, Err]

  function Rank(c: Category): nat {
    match c
    case Internet => 0 case Chat => 1 case Music => 2 case Video => 3 case Graphics => 4 case Game => 5
    case Office => 6 case Reading => 7 case Development => 8 case System => 9 case Others => 10 case Err => 11
  }

  /** How names are lower-cased, and what the two tables of names say. */
  datatype Tables = Tables(toLower: string -> string, dde: map<string, Category>, xdg: map<string, seq<Category>>)
  {
    function ParseDDECategoryString(str: string): Category {
      if str in dde then dde[str] else Err
    }

    function ParseXdgCategoryString(str: string): seq<Category> {
      if str in xdg then xdg[str] else []
    }

    /** What one category name votes for. */
    function VotesOf(category: string): seq<Category> {
      var name := toLower(category);
      if ParseDDECategoryString(name) != Err then [ParseDDECategoryString(name)] else ParseXdgCategoryString(name)
    }

    function Ballot(categories: seq<string>): seq<Category> {
      if categories == [] then [] else VotesOf(categories[0]) + Ballot(categories[1..])
    }
  }

  /** How many votes a category gets: of each name, lower-cased, its one vote if the first table has a category for
      it, else as many as the second table lists. */
  lemma BallotExactly(t: Tables, categories: seq<string>, c: Category)
    ensures Count(t.Ballot(categories), c)
         == if categories == [] then 0
            else
              var n := |categories| - 1;
              var name := t.toLower(categories[n]);
              Count(t.Ballot(categories[..n]), c)
              + (if name in t.dde && t.dde[name] != Err then (if t.dde[name] == c then 1 else 0)
                 else if name in t.xdg then Count(t.xdg[name], c) else 0)
  {
    if categories != [] {
      var n := |categories| - 1;
      assert categories == categories[..n] + [categories[n]];
      BallotConcat(t, categories[..n], [categories[n]]);
      CountConcat(t.Ballot(categories[..n]), t.Ballot([categories[n]]), c);
      assert [categories[n]][1..] == [];
      assert t.Ballot([categories[n]]) == t.VotesOf(categories[n]);
      var only := t.ParseDDECategoryString(t.toLower(categories[n]));
      assert [only][1..] == [];
    }
  }

  // ---------- what the best category is ----------

  ghost predicate Winner(votes: seq<Category>, c: Category) {
    c != Others && c in votes && forall d | d != Others :: Count(votes, d) <= Count(votes, c)
  }

  /** Others when nothing else has a vote; otherwise a winner: Video if Music and Video are winners,
      else the first winner of the enumeration. */
  ghost predicate IsBest(votes: seq<Category>, r: Category) {
    if forall c | c in votes :: c == Others then r == Others
    else
      && Winner(votes, r)
      && if Winner(votes, Music) && Winner(votes, Video) then r == Video
         else forall c | Winner(votes, c) :: Rank(r) <= Rank(c)
  }

  /** Votes with the same counts have the same best category, and only one. */
  lemma BestIsUnique(votes: seq<Category>, r: Category, others: seq<Category>, q: Category)
    requires forall c :: Count(votes, c) == Count(others, c)
    requires IsBest(votes, r) && IsBest(others, q)
    ensures r == q
  {
    forall c ensures (c in votes <==> c in others) && (Winner(votes, c) <==> Winner(others, c)) {
      CountPositive(votes, c);
      CountPositive(others, c);
    }
  }

  lemma {:induction false} BallotConcat(t: Tables, a: seq<string>, b: seq<string>)
    ensures t.Ballot(a + b) == t.Ballot(a) + t.Ballot(b)
  {
    if a == [] {
      assert a + b == b;
    } else {
      assert (a + b)[1..] == a[1..] + b;
      BallotConcat(t, a[1..], b);
    }
  }

  lemma TakenOut(x: string, rest: seq<string>, before: seq<string>, after: seq<string>)
    requires multiset([x] + rest) == multiset(before + [x] + after)
    ensures multiset(rest) == multiset(before + after)
  {
    var m, n := multiset(rest), multiset(before + after);
    assert multiset([x] + rest) == m + multiset{x};
    assert multiset(before + [x] + after) == n + multiset{x};
    assert m == m + multiset{x} - multiset{x};
    assert n == n + multiset{x} - multiset{x};
  }

  /** The counts depend on which names there are and how often, not on their order. */
  lemma {:induction false} CountsIgnoreOrder(t: Tables, a: seq<string>, b: seq<string>, c: Category)
    requires multiset(a) == multiset(b)
    ensures Count(t.Ballot(a), c) == Count(t.Ballot(b), c)
  {
    if a == [] {
      assert |b| == |multiset(b)| == 0;
    } else {
      var j := PositionIn(a, b);
      var before, after := b[..j], b[j + 1..];
      CountsIgnoreOrder(t, a[1..], before + after, c);
      CountWithout(t, before, b[j], after, c);
      CountConcat(t.VotesOf(a[0]), t.Ballot(a[1..]), c);
    }
  }

  lemma PositionIn(a: seq<string>, b: seq<string>) returns (j: nat)
    requires a != [] && multiset(a) == multiset(b)
    ensures j < |b| && b[j] == a[0] && b == b[..j] + [b[j]] + b[j + 1..]
    ensures multiset(a[1..]) == multiset(b[..j] + b[j + 1..])
  {
    assert a[0] in multiset(b);
    j :| 0 <= j < |b| && b[j] == a[0];
    assert b == b[..j] + [b[j]] + b[j + 1..] && a == [a[0]] + a[1..];
    TakenOut(a[0], a[1..], b[..j], b[j + 1..]);
  }

  lemma CountWithout(t: Tables, before: seq<string>, name: string, after: seq<string>, c: Category)
    ensures Count(t.Ballot(before + [name] + after), c)
         == Count(t.VotesOf(name), c) + Count(t.Ballot(before + after), c)
  {
    BallotConcat(t, before, after);
    BallotConcat(t, before, [name]);
    BallotConcat(t, before + [name], after);
    assert t.Ballot([name]) == t.VotesOf(name) + t.Ballot([name][1..]) == t.VotesOf(name);
    CountConcat(t.Ballot(before), t.Ballot(after), c);
    CountConcat(t.Ballot(before), t.VotesOf(name), c);
    CountConcat(t.Ballot(before + [name]), t.Ballot(after), c);
  }

  /** The result does not depend on the order of the category names. */
  lemma BestIgnoresOrder(t: Tables, a: seq<string>, b: seq<string>, r: Category, q: Category)
    requires multiset(a) == multiset(b)
    requires IsBest(t.Ballot(a), r) && IsBest(t.Ballot(b), q)
    ensures r == q
  {
    forall c ensures Count(t.Ballot(a), c) == Count(t.Ballot(b), c) {
      CountsIgnoreOrder(t, a, b, c);
    }
    BestIsUnique(t.Ballot(a), r, t.Ballot(b), q);
  }

  // ---------- the method ----------

  lemma {:induction false} FilterSorted(s: seq<Category>, p: Category -> bool)
    requires Ascending(s)
    ensures Ascending(Filter(s, p)) && forall c :: c in Filter(s, p) <==> c in s && p(c)
  {
    if s != [] {
      FilterSorted(s[1..], p);
      assert s == [s[0]] + s[1..];
      forall c | c in s[1..] ensures Rank(s[0]) < Rank(c) {
        var i :| 0 <= i < |s[1..]| && s[1..][i] == c;
        assert s[i + 1] == c;
      }
    }
  }

  ghost predicate Ascending(s: seq<Category>) {
    forall i, j | 0 <= i < j < |s| :: Rank(s[i]) < Rank(s[j])
  }

  ghost predicate IsIteration(m: map<Category, nat>, keys: seq<Category>) {
    Ascending(keys) && forall c :: c in keys <==> c in m
  }

  /** The map's keys in the order in which it is iterated. */
  method InOrder(m: map<Category, nat>) returns (keys: seq<Category>)
    ensures IsIteration(m, keys)
  {
    forall i | 0 <= i < |Enumeration| ensures Rank(Enumeration[i]) == i {
      RankIsPosition(i);
    }
    keys := Filter(Enumeration, c => c in m);
    FilterSorted(Enumeration, c => c in m);
    forall c ensures c in Enumeration {
      Enumerated(c);
    }
  }

  lemma RankIsPosition(i: nat)
    requires i < |Enumeration|
    ensures Rank(Enumeration[i]) == i
  {
  }

  lemma Enumerated(c: Category)
    ensures c in Enumeration
  {
    assert Enumeration[Rank(c)] == c;
  }

  function SortedInsert(s: seq<Category>, c: Category): seq<Category> {
    if s == [] || Rank(c) <= Rank(s[0]) then [c] + s else [s[0]] + SortedInsert(s[1..], c)
  }

  /** std::sort by the value of the enumeration. */
  function Sort(s: seq<Category>): seq<Category> {
    if s == [] then [] else SortedInsert(Sort(s[1..]), s[0])
  }

  lemma {:induction false} SortedInsertFirst(s: seq<Category>, c: Category)
    ensures var r := SortedInsert(s, c);
            && r != [] && (forall d :: d in r <==> d == c || d in s)
            && ((forall d | d in s :: Rank(s[0]) <= Rank(d)) ==> forall d | d in r :: Rank(r[0]) <= Rank(d))
  {
    if s != [] { SortedInsertFirst(s[1..], c); }
  }

  /** Sorting keeps the members and puts a smallest one first. */
  lemma {:induction false} SortMeaning(s: seq<Category>)
    ensures forall c :: c in Sort(s) <==> c in s
    ensures s != [] ==> Sort(s) != [] && forall c | c in s :: Rank(Sort(s)[0]) <= Rank(c)
  {
    if s != [] {
      SortMeaning(s[1..]);
      SortedInsertFirst(Sort(s[1..]), s[0]);
    }
  }

  /** The map holds the count of every category that has a vote. */
  ghost predicate Tallies(m: map<Category, nat>, votes: seq<Category>) {
    forall c :: (c in m <==> Count(votes, c) > 0) && (c in m ==> m[c] == Count(votes, c))
  }

  lemma TallyOne(m: map<Category, nat>, votes: seq<Category>, c: Category)
    requires Tallies(m, votes)
    ensures Tallies(m[c := (if c in m then m[c] else 0) + 1], votes + [c])
  {
    forall d ensures Count(votes + [c], d) == Count(votes, d) + if d == c then 1 else 0 {
      CountConcat(votes, [c], d);
      assert [c][1..] == [];
    }
  }

  method CountVotes(t: Tables, categories: seq<string>) returns (categoriesMap: map<Category, nat>)
    ensures Tallies(categoriesMap, t.Ballot(categories))
  {
    categoriesMap := map[];
    var i := 0;
    assert categories[..0] == [];
    while i < |categories|
      invariant 0 <= i <= |categories|
      invariant Tallies(categoriesMap, t.Ballot(categories[..i]))
    {
      var tys := t.VotesOf(categories[i]);
      var j := 0;
      ghost var votes := t.Ballot(categories[..i]);
      assert votes + tys[..0] == votes;
      while j < |tys|
        invariant 0 <= j <= |tys|
        invariant Tallies(categoriesMap, votes + tys[..j])
      {
        TallyOne(categoriesMap, votes + tys[..j], tys[j]);
        assert votes + tys[..j] + [tys[j]] == votes + tys[..j + 1];
        categoriesMap := categoriesMap[tys[j] := (if tys[j] in categoriesMap then categoriesMap[tys[j]] else 0) + 1];
        j := j + 1;
      }
      assert tys[..j] == tys;
      BallotConcat(t, categories[..i], [categories[i]]);
      assert t.Ballot([categories[i]]) == tys + t.Ballot([categories[i]][1..]) == tys;
      assert categories[..i] + [categories[i]] == categories[..i + 1];
      i := i + 1;
    }
    assert categories[..i] == categories;
  }

  ghost predicate HasMax(m: map<Category, nat>, c: Category) {
    c in m && forall d | d in m :: m[d] <= m[c]
  }

  /** The key at p has the greatest value of all, and is the first with it. */
  ghost predicate FirstMaxOf(m: map<Category, nat>, keys: seq<Category>, p: nat, max: nat) {
    && p < |keys| && (forall k | 0 <= k < |keys| :: keys[k] in m && m[keys[k]] <= max)
    && m[keys[p]] == max && forall k | 0 <= k < p :: m[keys[k]] < max
  }

  lemma FirstMaxStep(m: map<Category, nat>, keys: seq<Category>, i: nat, p: nat, max: nat)
    requires i < |keys| && forall k | 0 <= k <= i :: keys[k] in m
    requires if i == 0 then max == 0 else FirstMaxOf(m, keys[..i], p, max)
    ensures if m[keys[i]] > max then FirstMaxOf(m, keys[..i + 1], i, m[keys[i]])
            else i > 0 ==> FirstMaxOf(m, keys[..i + 1], p, max)
  {
    assert keys[..i + 1] == keys[..i] + [keys[i]];
  }

  /** The first of the keys with the greatest value. */
  method MostVoted(categoriesMap: map<Category, nat>) returns (ty: Category)
    requires categoriesMap != map[] && forall c | c in categoriesMap :: categoriesMap[c] > 0
    ensures HasMax(categoriesMap, ty)
    ensures forall c | HasMax(categoriesMap, c) :: Rank(ty) <= Rank(c)
  {
    var keys := InOrder(categoriesMap);
    KeysMembers(categoriesMap, keys);
    var max, i := 0, 0;
    ghost var p := 0;
    ty := Others;
    while i < |keys|
      invariant 0 <= i <= |keys|
      invariant i == 0 ==> max == 0
      invariant i > 0 ==> p < i && keys[p] == ty && FirstMaxOf(categoriesMap, keys[..i], p, max)
    {
      var key := keys[i];
      FirstMaxStep(categoriesMap, keys, i, p, max);
      if categoriesMap[key] > max {
        max, ty, p := categoriesMap[key], key, i;
      }
      i := i + 1;
    }
    assert keys[..i] == keys;
    FirstOfMax(categoriesMap, keys, p);
  }

  lemma KeysMembers(m: map<Category, nat>, keys: seq<Category>)
    requires IsIteration(m, keys)
    ensures forall k | 0 <= k < |keys| :: keys[k] in m
    ensures m != map[] ==> keys != []
  {
    if m != map[] {
      var c :| c in m;
      assert c in keys;
    }
  }

  lemma FirstOfMax(m: map<Category, nat>, keys: seq<Category>, p: nat)
    requires IsIteration(m, keys) && p < |keys| && keys[p] in m && FirstMaxOf(m, keys, p, m[keys[p]])
    ensures HasMax(m, keys[p])
    ensures forall c | HasMax(m, c) :: Rank(keys[p]) <= Rank(c)
  {
    forall c | c in m ensures m[c] <= m[keys[p]] && (m[c] == m[keys[p]] ==> Rank(keys[p]) <= Rank(c)) {
      var k :| 0 <= k < |keys| && keys[k] == c;
    }
  }

  /** All the keys with the greatest value, `ty` in front. */
  method Tied(categoriesMap: map<Category, nat>, ty: Category) returns (maxCategories: seq<Category>)
    requires HasMax(categoriesMap, ty)
    ensures maxCategories != [] && maxCategories[0] == ty
    ensures forall c :: c in maxCategories <==> HasMax(categoriesMap, c)
  {
    var keys := InOrder(categoriesMap);
    var i := 0;
    maxCategories := [ty];
    while i < |keys|
      invariant 0 <= i <= |keys|
      invariant maxCategories != [] && maxCategories[0] == ty
      invariant forall c :: c in maxCategories <==> c == ty || (c in keys[..i] && HasMax(categoriesMap, c))
    {
      assert keys[i] in keys && keys[..i + 1] == keys[..i] + [keys[i]];
      if keys[i] != ty && categoriesMap[keys[i]] == categoriesMap[ty] {
        maxCategories := maxCategories + [keys[i]];
      }
      i := i + 1;
    }
    assert keys[..i] == keys;
  }

  lemma WinnersHaveMax(m: map<Category, nat>, votes: seq<Category>)
    requires Tallies(m, votes)
    ensures forall c :: HasMax(m - {Others}, c) <==> Winner(votes, c)
    ensures m - {Others} == map[] <==> forall c | c in votes :: c == Others
  {
    var n := m - {Others};
    forall c ensures c in m <==> c in votes {
      CountPositive(votes, c);
    }
    forall c ensures HasMax(n, c) <==> Winner(votes, c) {
      if HasMax(n, c) {
        forall d | d != Others ensures Count(votes, d) <= Count(votes, c) {
          assert d in m <==> d in n;
        }
      }
    }
    if forall c | c in votes :: c == Others {
      assert forall c :: c !in n;
    } else {
      var c :| c in votes && c != Others;
      assert c in n;
    }
  }

  method ParseBestMatchedCategory(t: Tables, categories: seq<string>) returns (r: Category)
    ensures IsBest(t.Ballot(categories), r)
  {
    var categoriesMap := CountVotes(t, categories);
    ghost var votes := t.Ballot(categories);
    WinnersHaveMax(categoriesMap, votes);
    categoriesMap := categoriesMap - {Others};
    if categoriesMap == map[] {
      return Others;
    }
    var ty := MostVoted(categoriesMap);
    var maxCategories := Tied(categoriesMap, ty);
    ghost var winners := maxCategories;
    assert forall c :: c in winners <==> Winner(votes, c);
    if |maxCategories| == 1 {
      return maxCategories[0];
    }
    SortMeaning(maxCategories);
    maxCategories := Sort(maxCategories);
    var foundMusic, foundVideo, i := false, false, 0;
    while i < |maxCategories|
      invariant 0 <= i <= |maxCategories|
      invariant foundMusic <==> Music in maxCategories[..i]
      invariant foundVideo <==> Video in maxCategories[..i]
    {
      if maxCategories[i] == Music {
        foundMusic := true;
      } else if maxCategories[i] == Video {
        foundVideo := true;
      }
      i := i + 1;
    }
    assert maxCategories[..i] == maxCategories;
    if foundMusic && foundVideo {
      return Video;
    }
    return maxCategories[0];
  }
}
