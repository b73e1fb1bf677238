/** Generic building blocks shared by every module of the model: an optional
    value, order-preserving filtering and counting over sequences, first-match
    search, real-valued sums and a stable insertion sort by an integer key
    (the behaviour of JavaScript's `Array.prototype.sort` with a numeric
    comparator, which is stable). */
module Base {

  datatype Option<+T> = None | Some(value: T)

  /** JavaScript truthiness of an optional id: present and not the empty string. */
  predicate Truthy(o: Option<string>) {
    o.Some? && o.value != ""
  }

  /** `s.filter(p)`: the elements satisfying `p`, in their original order. */
  function Filter<T>(s: seq<T>, p: T -> bool): (r: seq<T>)
    ensures |r| <= |s|
    ensures forall i :: 0 <= i < |r| ==> r[i] in s && p(r[i])
    ensures forall i :: 0 <= i < |s| && p(s[i]) ==> s[i] in r
    ensures multiset(r) <= multiset(s)
  {
    if |s| == 0 then []
    else
      assert s == [s[0]] + s[1..];
      (if p(s[0]) then [s[0]] else []) + Filter(s[1..], p)
  }

  lemma FilterConcat<T>(a: seq<T>, b: seq<T>, p: T -> bool)
    ensures Filter(a + b, p) == Filter(a, p) + Filter(b, p)
  {
    if |a| > 0 {
      assert (a + b)[1..] == a[1..] + b;
      FilterConcat(a[1..], b, p);
    } else {
      assert a + b == b;
    }
  }

  lemma FilterAll<T>(s: seq<T>, p: T -> bool)
    requires forall i :: 0 <= i < |s| ==> p(s[i])
    ensures Filter(s, p) == s
  {
    if |s| > 0 {
      FilterAll(s[1..], p);
    }
  }

  /** Filtering out a value appended to a list that passes entirely gives
      the list back. */
  lemma FilterDropsLast<T>(s: seq<T>, x: T, p: T -> bool)
    requires forall i :: 0 <= i < |s| ==> p(s[i])
    requires !p(x)
    ensures Filter(s + [x], p) == s
  {
    FilterConcat(s, [x], p);
    FilterAll(s, p);
    FilterSingle(x, p);
    ConcatEmpty(s);
  }

  lemma FilterNone<T>(s: seq<T>, p: T -> bool)
    requires forall i :: 0 <= i < |s| ==> !p(s[i])
    ensures Filter(s, p) == []
  {
    if |s| > 0 {
      FilterNone(s[1..], p);
    }
  }

  ghost predicate Distinct<T>(s: seq<T>) {
    forall i, j :: 0 <= i < j < |s| ==> s[i] != s[j]
  }

  /** Filtering a sequence without repeats gives one without repeats. */
  lemma {:induction false} FilterDistinct<T>(s: seq<T>, p: T -> bool)
    requires Distinct(s)
    ensures Distinct(Filter(s, p))
  {
    if |s| > 0 {
      DistinctTail(s);
      FilterDistinct(s[1..], p);
      var t := Filter(s[1..], p);
      assert forall j :: 0 <= j < |t| ==> t[j] in s[1..];
    }
  }

  /** `s.filter(p).length`, counted directly. */
  function Count<T>(s: seq<T>, p: T -> bool): nat {
    if |s| == 0 then 0 else (if p(s[0]) then 1 else 0) + Count(s[1..], p)
  }

  /** Counting is the length of the filtered sequence. */
  lemma {:induction false} FilterLength<T>(s: seq<T>, p: T -> bool)
    ensures |Filter(s, p)| == Count(s, p)
  {
    if |s| > 0 {
      FilterLength(s[1..], p);
    }
  }

  lemma CountCons<T>(s: seq<T>, p: T -> bool)
    requires |s| > 0
    ensures Count(s, p) == (if p(s[0]) then 1 else 0) + Count(s[1..], p)
  {
  }

  lemma {:induction false} CountConcat<T>(a: seq<T>, b: seq<T>, p: T -> bool)
    ensures Count(a + b, p) == Count(a, p) + Count(b, p)
  {
    if |a| == 0 {
      assert a + b == b;
    } else {
      assert (a + b)[1..] == a[1..] + b;
      CountConcat(a[1..], b, p);
    }
  }

  /** Two sequences of one length whose elements agree position by position
      on the predicates have the same count. */
  lemma {:induction false} CountTransfer<T, U>(a: seq<T>, p: T -> bool, b: seq<U>, q: U -> bool)
    requires |a| == |b|
    requires forall i :: 0 <= i < |a| ==> p(a[i]) == q(b[i])
    ensures Count(a, p) == Count(b, q)
  {
    if |a| > 0 {
      CountTransfer(a[1..], p, b[1..], q);
    }
  }

  /** Elements satisfying `p` and elements satisfying its negation add up to
      all of them. */
  lemma {:induction false} CountComplement<T>(s: seq<T>, p: T -> bool, q: T -> bool)
    requires forall i :: 0 <= i < |s| ==> q(s[i]) == !p(s[i])
    ensures Count(s, p) + Count(s, q) == |s|
  {
    if |s| > 0 {
      CountComplement(s[1..], p, q);
    }
  }

  /** Membership in a filtered sequence, and in any arrangement of it. */
  lemma FilterMembers<T>(s: seq<T>, p: T -> bool, r: seq<T>)
    requires multiset(r) == multiset(Filter(s, p))
    ensures forall x :: x in r <==> x in s && p(x)
  {
    var f := Filter(s, p);
    SameMembers(r, f);
    forall x | x in s && p(x)
      ensures x in f
    {
      var i :| 0 <= i < |s| && s[i] == x;
    }
  }

  /** One unfolding of `Filter`, counted as a multiset. */
  lemma FilterStep<T>(s: seq<T>, p: T -> bool)
    requires |s| > 0
    ensures multiset(Filter(s, p)) == (if p(s[0]) then multiset{s[0]} else multiset{}) + multiset(Filter(s[1..], p))
  {
  }

  lemma MultisetCons<T>(s: seq<T>)
    requires |s| > 0
    ensures multiset(s) == multiset{s[0]} + multiset(s[1..])
  {
    assert s == [s[0]] + s[1..];
  }

  /** `a` occurs in `b` in order, possibly with gaps (matched greedily). */
  predicate Subsequence<T(==)>(a: seq<T>, b: seq<T>)
    decreases |b|
  {
    if |a| == 0 then true
    else if |b| == 0 then false
    else if a[0] == b[0] then Subsequence(a[1..], b[1..])
    else Subsequence(a, b[1..])
  }

  /** Every sequence embeds in itself. */
  lemma {:induction false} SubsequenceRefl<T>(s: seq<T>)
    ensures Subsequence(s, s)
  {
    if |s| > 0 {
      SubsequenceRefl(s[1..]);
    }
  }

  lemma SubsequenceTake<T>(x: T, a: seq<T>, b: seq<T>)
    requires |b| > 0 && b[0] == x && Subsequence(a, b[1..])
    ensures Subsequence([x] + a, b)
  {
    assert ([x] + a)[1..] == a;
  }

  lemma SubsequenceSkip<T>(a: seq<T>, b: seq<T>)
    requires |b| > 0 && (|a| == 0 || a[0] != b[0]) && Subsequence(a, b[1..])
    ensures Subsequence(a, b)
  {
  }

  /** Filtering keeps what it keeps in its original order. */
  lemma {:induction false} FilterSubsequence<T>(s: seq<T>, p: T -> bool)
    ensures Subsequence(Filter(s, p), s)
  {
    if |s| > 0 {
      FilterSubsequence(s[1..], p);
      var f := Filter(s[1..], p);
      if p(s[0]) {
        assert Filter(s, p) == [s[0]] + f;
        SubsequenceTake(s[0], f, s);
      } else {
        assert Filter(s, p) == f;
        if |f| > 0 {
          assert p(f[0]);
        }
        SubsequenceSkip(f, s);
      }
    }
  }

  /** Filtering keeps every accepted value as often as it occurs and drops
      every other value entirely. */
  lemma {:induction false} FilterCount<T>(s: seq<T>, p: T -> bool)
    ensures forall x :: multiset(Filter(s, p))[x] == if p(x) then multiset(s)[x] else 0
  {
    if |s| > 0 {
      FilterCount(s[1..], p);
      FilterStep(s, p);
      MultisetCons(s);
    }
  }

  /** `rel` holds between every element and every later one. */
  ghost predicate Pairwise<T>(s: seq<T>, rel: (T, T) -> bool) {
    forall i, j :: 0 <= i < j < |s| ==> rel(s[i], s[j])
  }

  lemma PairwiseTail<T>(s: seq<T>, rel: (T, T) -> bool)
    requires Pairwise(s, rel) && |s| > 0
    ensures Pairwise(s[1..], rel)
    ensures forall k :: 1 <= k < |s| ==> rel(s[0], s[k])
  {
    var t := s[1..];
    forall i, j | 0 <= i < j < |t|
      ensures rel(t[i], t[j])
    {
      assert t[i] == s[i + 1] && t[j] == s[j + 1];
    }
  }

  lemma PairwiseCons<T>(x: T, t: seq<T>, rel: (T, T) -> bool)
    requires Pairwise(t, rel)
    requires forall k :: 0 <= k < |t| ==> rel(x, t[k])
    ensures Pairwise([x] + t, rel)
  {
    var r := [x] + t;
    forall i, j | 0 <= i < j < |r|
      ensures rel(r[i], r[j])
    {
      assert r[j] == t[j - 1];
      if i > 0 {
        assert r[i] == t[i - 1];
      }
    }
  }

  /** Filtering keeps a relation between earlier and later elements. */
  lemma {:induction false} FilterPairwise<T>(s: seq<T>, p: T -> bool, rel: (T, T) -> bool)
    requires Pairwise(s, rel)
    ensures Pairwise(Filter(s, p), rel)
  {
    if |s| > 0 {
      var t := s[1..];
      PairwiseTail(s, rel);
      FilterPairwise(t, p, rel);
      var f := Filter(t, p);
      if p(s[0]) {
        forall k | 0 <= k < |f|
          ensures rel(s[0], f[k])
        {
          var m :| 0 <= m < |t| && t[m] == f[k];
          assert t[m] == s[m + 1];
        }
        PairwiseCons(s[0], f, rel);
        assert Filter(s, p) == [s[0]] + f;
      } else {
        assert Filter(s, p) == f;
      }
    }
  }

  /** Filtering by a predicate and by its negation splits a sequence. */
  lemma {:induction false} FilterComplement<T>(s: seq<T>, p: T -> bool, q: T -> bool)
    requires forall i :: 0 <= i < |s| ==> q(s[i]) == !p(s[i])
    ensures multiset(Filter(s, p)) + multiset(Filter(s, q)) == multiset(s)
  {
    if |s| > 0 {
      var t, x := s[1..], s[0];
      assert forall i :: 0 <= i < |t| ==> q(t[i]) == !p(t[i]) by {
        forall i | 0 <= i < |t| ensures q(t[i]) == !p(t[i]) {
          assert t[i] == s[i + 1];
        }
      }
      FilterComplement(t, p, q);
      FilterStep(s, p);
      FilterStep(s, q);
      MultisetCons(s);
      assert q(x) == !p(x);
    }
  }

  /** Sequences with the same elements, counted, have the same members. */
  lemma SameMembers<T>(a: seq<T>, b: seq<T>)
    requires multiset(a) == multiset(b)
    ensures forall x :: x in a <==> x in b
  {
    forall x
      ensures x in a <==> x in b
    {
      assert x in a <==> x in multiset(a);
      assert x in b <==> x in multiset(b);
    }
  }

  lemma MultisetCancel<T>(x: T, a: seq<T>, b1: seq<T>, b2: seq<T>)
    requires multiset([x] + a) == multiset(b1 + [x] + b2)
    ensures multiset(a) == multiset(b1 + b2)
  {
    var A, B := multiset(a), multiset(b1 + b2);
    assert multiset([x] + a) == multiset{x} + A;
    assert multiset(b1 + [x] + b2) == multiset{x} + B;
    forall y
      ensures A[y] == B[y]
    {
      assert (multiset{x} + A)[y] == multiset{x}[y] + A[y];
      assert (multiset{x} + B)[y] == multiset{x}[y] + B[y];
    }
    assert A == B;
  }

  /** Counting is insensitive to the order of the elements. */
  lemma CountMultiset<T>(a: seq<T>, b: seq<T>, p: T -> bool)
    requires multiset(a) == multiset(b)
    ensures Count(a, p) == Count(b, p)
    decreases |a|
  {
    if |a| > 0 {
      var x := a[0];
      assert x in multiset(b);
      var j :| 0 <= j < |b| && b[j] == x;
      var b' := b[..j] + b[j+1..];
      assert b == b[..j] + [x] + b[j+1..];
      assert a == [x] + a[1..];
      MultisetCancel(x, a[1..], b[..j], b[j+1..]);
      CountMultiset(a[1..], b', p);
      CountConcat([x], a[1..], p);
      CountConcat(b[..j] + [x], b[j+1..], p);
      CountConcat(b[..j], [x], p);
      CountConcat(b[..j], b[j+1..], p);
    } else {
      assert b == [];
    }
  }

  /** `s.findIndex(p)`, with -1 as None. */
  function FindIndex<T>(s: seq<T>, p: T -> bool): (r: Option<nat>)
    ensures r.Some? ==> r.value < |s| && p(s[r.value])
    ensures r.Some? ==> forall j :: 0 <= j < r.value ==> !p(s[j])
    ensures r.None? <==> forall j :: 0 <= j < |s| ==> !p(s[j])
  {
    if |s| == 0 then None
    else if p(s[0]) then Some(0)
    else match FindIndex(s[1..], p)
      case None => None
      case Some(i) => Some(i + 1)
  }

  /** `s.find(p)`: the first element satisfying `p`. */
  function Find<T>(s: seq<T>, p: T -> bool): (r: Option<T>)
    ensures r.Some? ==> r.value in s && p(r.value)
    ensures r.None? <==> forall j :: 0 <= j < |s| ==> !p(s[j])
  {
    match FindIndex(s, p)
    case None => None
    case Some(i) => Some(s[i])
  }

  /** The first element satisfying `p` is the one `Find` returns. */
  lemma FindAt<T>(s: seq<T>, p: T -> bool, j: nat)
    requires j < |s| && p(s[j])
    requires forall k :: 0 <= k < j ==> !p(s[k])
    ensures FindIndex(s, p) == Some(j) && Find(s, p) == Some(s[j])
  {
    if j > 0 {
      FindAt(s[1..], p, j - 1);
    }
  }

  /** `find` returns the head of `filter`, and nothing when it is empty. */
  lemma {:induction false} FindIsFilterHead<T>(s: seq<T>, p: T -> bool)
    ensures Find(s, p) == if |Filter(s, p)| == 0 then None else Some(Filter(s, p)[0])
  {
    if |s| > 0 {
      FilterHeadTail(s, p);
      if !p(s[0]) {
        FindIsFilterHead(s[1..], p);
        ConcatEmpty(Filter(s[1..], p));
      }
    }
  }

  /** The conjunction of two predicates. */
  function Both<T>(p: T -> bool, q: T -> bool): T -> bool {
    (x: T) => p(x) && q(x)
  }

  /** Filtering twice filters by both predicates. */
  lemma {:induction false} FilterFilter<T>(s: seq<T>, p: T -> bool, q: T -> bool)
    ensures Filter(Filter(s, p), q) == Filter(s, Both(p, q))
  {
    if |s| > 0 {
      FilterFilter(s[1..], p, q);
      FilterHeadTail(s, p);
      FilterHeadTail(s, Both(p, q));
      if p(s[0]) {
        FilterCons(s[0], Filter(s[1..], p), q);
      } else {
        ConcatEmpty(Filter(s[1..], p));
      }
    }
  }

  /** The first element of a filtered sequence satisfying `q` is the first
      element of the whole satisfying both. */
  lemma FindInFilter<T>(s: seq<T>, p: T -> bool, q: T -> bool)
    ensures Find(Filter(s, p), q) == Find(s, Both(p, q))
  {
    FindIsFilterHead(Filter(s, p), q);
    FilterFilter(s, p, q);
    FindIsFilterHead(s, Both(p, q));
  }

  /** `s.some(p)`. */
  predicate Exists<T>(s: seq<T>, p: T -> bool) {
    exists i :: 0 <= i < |s| && p(s[i])
  }

  /** `s.map(f)`. */
  function Map<T, U>(s: seq<T>, f: T -> U): (r: seq<U>)
    ensures |r| == |s|
    ensures forall i :: 0 <= i < |s| ==> r[i] == f(s[i])
  {
    seq(|s|, i requires 0 <= i < |s| => f(s[i]))
  }

  lemma MapConcat<T, U>(a: seq<T>, b: seq<T>, f: T -> U)
    ensures Map(a + b, f) == Map(a, f) + Map(b, f)
  {
  }

  /** `s.flatMap(x => x)`: the inner sequences one after the other. */
  function Flatten<T>(ss: seq<seq<T>>): seq<T> {
    if |ss| == 0 then [] else ss[0] + Flatten(ss[1..])
  }

  /** An element of a flattened sequence comes from one of the inner
      sequences, and every element of an inner sequence survives. */
  lemma {:induction false} FlattenMember<T>(ss: seq<seq<T>>, x: T)
    ensures x in Flatten(ss) <==> exists i :: 0 <= i < |ss| && x in ss[i]
  {
    if |ss| > 0 {
      FlattenMember(ss[1..], x);
      assert forall i :: 1 <= i < |ss| ==> ss[i] == ss[1..][i - 1];
      if x in Flatten(ss[1..]) {
        var i :| 0 <= i < |ss[1..]| && x in ss[1..][i];
        assert x in ss[i + 1];
      }
    }
  }

  /** `Array.from(new Set(s))`: the distinct elements, in order of first
      appearance. */
  function Dedup<T(==)>(s: seq<T>): (r: seq<T>)
    ensures forall i, j :: 0 <= i < j < |r| ==> r[i] != r[j]
    ensures forall i :: 0 <= i < |s| ==> s[i] in r
    ensures forall i :: 0 <= i < |r| ==> r[i] in s
    decreases |s|
  {
    if |s| == 0 then []
    else
      var prev := Dedup(s[..|s| - 1]);
      assert forall i :: 0 <= i < |s| - 1 ==> s[..|s| - 1][i] == s[i];
      if s[|s| - 1] in prev then prev else prev + [s[|s| - 1]]
  }

  /** In a sequence without repetitions the head does not recur in the tail. */
  lemma DistinctTail<T>(s: seq<T>)
    requires |s| > 0
    requires forall i, j :: 0 <= i < j < |s| ==> s[i] != s[j]
    ensures s[0] !in s[1..]
    ensures forall x :: x in s <==> x == s[0] || x in s[1..]
  {
    forall k | 0 <= k < |s| - 1
      ensures s[1..][k] != s[0]
    {
      assert s[1..][k] == s[k + 1];
    }
    assert s == [s[0]] + s[1..];
  }

  /** `s.splice(i, 1)` on a copy: drop the element at position `i`. */
  function RemoveAt<T>(s: seq<T>, i: nat): (r: seq<T>)
    requires i < |s|
    ensures |r| == |s| - 1
    ensures forall j :: 0 <= j < i ==> r[j] == s[j]
    ensures forall j :: i <= j < |r| ==> r[j] == s[j + 1]
  {
    s[..i] + s[i + 1..]
  }

  function SumReal(s: seq<real>): real {
    if |s| == 0 then 0.0 else s[0] + SumReal(s[1..])
  }

  lemma SumRealConcat(a: seq<real>, b: seq<real>)
    ensures SumReal(a + b) == SumReal(a) + SumReal(b)
  {
    if |a| > 0 {
      assert (a + b)[1..] == a[1..] + b;
      SumRealConcat(a[1..], b);
    } else {
      assert a + b == b;
    }
  }

  // ---------------------------------------------------------------------
  // Stable insertion sort by an integer key

  ghost predicate SortedBy<T>(s: seq<T>, key: T -> int) {
    forall i, j :: 0 <= i < j < |s| ==> key(s[i]) <= key(s[j])
  }

  /** Inserts `x` after every element whose key is not larger than its own,
      so that elements with equal keys keep their relative order. */
  function Insert<T>(s: seq<T>, x: T, key: T -> int): (r: seq<T>)
    ensures |r| == |s| + 1
  {
    if |s| == 0 then [x]
    else if key(x) < key(s[0]) then [x] + s
    else [s[0]] + Insert(s[1..], x, key)
  }

  lemma {:induction false} InsertMultiset<T>(s: seq<T>, x: T, key: T -> int)
    ensures multiset(Insert(s, x, key)) == multiset(s) + multiset{x}
  {
    if |s| > 0 && key(x) >= key(s[0]) {
      InsertMultiset(s[1..], x, key);
      assert s == [s[0]] + s[1..];
    }
  }

  /** Inserting into a sorted sequence keeps it sorted. */
  lemma {:induction false} InsertSorted<T>(s: seq<T>, x: T, key: T -> int)
    requires SortedBy(s, key)
    ensures SortedBy(Insert(s, x, key), key)
  {
    if |s| > 0 && key(x) >= key(s[0]) {
      var t := Insert(s[1..], x, key);
      InsertSorted(s[1..], x, key);
      InsertMultiset(s[1..], x, key);
      forall k | 0 <= k < |t|
        ensures key(s[0]) <= key(t[k])
      {
        assert t[k] in multiset(t);
        assert t[k] == x || t[k] in multiset(s[1..]);
      }
    }
  }

  /** A key at least every other key is inserted at the end. */
  lemma {:induction false} InsertAtEnd<T>(s: seq<T>, x: T, key: T -> int)
    requires forall i :: 0 <= i < |s| ==> key(s[i]) <= key(x)
    ensures Insert(s, x, key) == s + [x]
  {
    if |s| > 0 {
      InsertAtEnd(s[1..], x, key);
      assert s == [s[0]] + s[1..];
    }
  }

  /** Removing one element keeps a sorted sequence sorted. */
  lemma RemoveAtSorted<T>(s: seq<T>, k: nat, key: T -> int)
    requires k < |s|
    ensures SortedBy(s, key) ==> SortedBy(RemoveAt(s, k), key)
  {
    if SortedBy(s, key) {
      var r := RemoveAt(s, k);
      forall i, j | 0 <= i < j < |r|
        ensures key(r[i]) <= key(r[j])
      {
        var i', j' := if i < k then i else i + 1, if j < k then j else j + 1;
        assert r[i] == s[i'] && r[j] == s[j'];
      }
    }
  }

  /** Removing one element takes exactly it out of the multiset. */
  lemma RemoveAtMultiset<T>(s: seq<T>, k: nat)
    requires k < |s|
    ensures multiset(RemoveAt(s, k)) + multiset{s[k]} == multiset(s)
  {
    assert RemoveAt(s, k) == s[..k] + s[k + 1..];
    assert s == s[..k] + [s[k]] + s[k + 1..];
  }

  /** `[...s].sort((a, b) => key(a) - key(b))`. */
  function SortBy<T>(s: seq<T>, key: T -> int): (r: seq<T>)
    ensures SortedBy(r, key)
    ensures multiset(r) == multiset(s)
    ensures |r| == |s|
    decreases |s|
  {
    if |s| == 0 then []
    else
      var last := |s| - 1;
      assert s == s[..last] + [s[last]];
      InsertMultiset(SortBy(s[..last], key), s[last], key);
      InsertSorted(SortBy(s[..last], key), s[last], key);
      Insert(SortBy(s[..last], key), s[last], key)
  }

  function KeyIs<T>(key: T -> int, v: int): T -> bool {
    (x: T) => key(x) == v
  }

  lemma FilterCons<T>(a: T, u: seq<T>, p: T -> bool)
    ensures Filter([a] + u, p) == (if p(a) then [a] else []) + Filter(u, p)
  {
    assert ([a] + u)[1..] == u;
  }

  /** Inserting into a sorted sequence puts `x` after every element of its
      own key. */
  lemma {:induction false} InsertFilterKey<T>(t: seq<T>, x: T, key: T -> int, v: int)
    requires SortedBy(t, key)
    ensures Filter(Insert(t, x, key), KeyIs(key, v)) == Filter(t, KeyIs(key, v)) + Filter([x], KeyIs(key, v))
    decreases |t|
  {
    if |t| == 0 {
      assert Insert(t, x, key) == [x];
      assert t + [x] == [x];
    } else if key(x) < key(t[0]) {
      InsertFilterFront(t, x, key, v);
    } else {
      SortedTail(t, key);
      InsertFilterKey(t[1..], x, key, v);
      InsertFilterStep(t, x, key, KeyIs(key, v));
    }
  }

  lemma FilterHeadTail<T>(t: seq<T>, p: T -> bool)
    requires |t| > 0
    ensures Filter(t, p) == (if p(t[0]) then [t[0]] else []) + Filter(t[1..], p)
  {
  }

  lemma InsertFirst<T>(t: seq<T>, x: T, key: T -> int)
    requires |t| > 0 && key(x) < key(t[0])
    ensures Insert(t, x, key) == [x] + t
  {
  }

  lemma InsertAfterHead<T>(t: seq<T>, x: T, key: T -> int)
    requires |t| > 0 && key(x) >= key(t[0])
    ensures Insert(t, x, key) == [t[0]] + Insert(t[1..], x, key)
  {
  }

  /** `x` goes first, and nothing after it shares its key. */
  lemma InsertFilterFront<T>(t: seq<T>, x: T, key: T -> int, v: int)
    requires SortedBy(t, key) && |t| > 0 && key(x) < key(t[0])
    ensures Filter(Insert(t, x, key), KeyIs(key, v)) == Filter(t, KeyIs(key, v)) + Filter([x], KeyIs(key, v))
  {
    var p := KeyIs(key, v);
    InsertFirst(t, x, key);
    FilterCons(x, t, p);
    FilterSingle(x, p);
    if p(x) {
      SortedTail(t, key);
      FilterNone(t, p);
      ConcatEmpty([x]);
    } else {
      ConcatEmpty(Filter(t, p));
    }
  }

  lemma ConcatEmpty<T>(a: seq<T>)
    ensures a + [] == a && [] + a == a
  {
  }

  lemma SnocSplit<T>(s: seq<T>)
    requires |s| > 0
    ensures s[..|s| - 1] + [s[|s| - 1]] == s
  {
  }

  lemma FilterSingle<T>(x: T, p: T -> bool)
    ensures Filter([x], p) == if p(x) then [x] else []
  {
    assert [x][1..] == [];
  }

  /** `x` goes after `t[0]`: filtering splits off the head. */
  lemma InsertFilterStep<T>(t: seq<T>, x: T, key: T -> int, p: T -> bool)
    requires |t| > 0 && key(x) >= key(t[0])
    requires Filter(Insert(t[1..], x, key), p) == Filter(t[1..], p) + Filter([x], p)
    ensures Filter(Insert(t, x, key), p) == Filter(t, p) + Filter([x], p)
  {
    InsertAfterHead(t, x, key);
    FilterCons(t[0], Insert(t[1..], x, key), p);
    FilterHeadTail(t, p);
    ConcatAssoc(if p(t[0]) then [t[0]] else [], Filter(t[1..], p), Filter([x], p));
  }

  lemma ConcatAssoc<T>(a: seq<T>, b: seq<T>, c: seq<T>)
    ensures a + (b + c) == (a + b) + c
  {
  }

  /** The sort is stable: the elements of any one key come out in the
      order they went in. */
  lemma {:induction false} SortByStable<T>(s: seq<T>, key: T -> int, v: int)
    ensures Filter(SortBy(s, key), KeyIs(key, v)) == Filter(s, KeyIs(key, v))
    decreases |s|
  {
    if |s| > 0 {
      var last := |s| - 1;
      SortByStable(s[..last], key, v);
      SortByLast(s, key);
      InsertFilterKey(SortBy(s[..last], key), s[last], key, v);
      FilterSnoc(s, KeyIs(key, v));
    }
  }

  /** The first sorted element of its key is the first of that key in the
      input. */
  lemma FindFirstOfKey<T>(s: seq<T>, key: T -> int, m: nat)
    requires m < |SortBy(s, key)|
    requires forall j :: 0 <= j < m ==> key(SortBy(s, key)[j]) != key(SortBy(s, key)[m])
    ensures Find(s, KeyIs(key, key(SortBy(s, key)[m]))) == Some(SortBy(s, key)[m])
  {
    var sorted := SortBy(s, key);
    var q := KeyIs(key, key(sorted[m]));
    FindAt(sorted, q, m);
    FindIsFilterHead(sorted, q);
    SortByStable(s, key, key(sorted[m]));
    FindIsFilterHead(s, q);
  }

  lemma SortByLast<T>(s: seq<T>, key: T -> int)
    requires |s| > 0
    ensures SortBy(s, key) == Insert(SortBy(s[..|s| - 1], key), s[|s| - 1], key)
  {
  }

  lemma FilterSnoc<T>(s: seq<T>, p: T -> bool)
    requires |s| > 0
    ensures Filter(s, p) == Filter(s[..|s| - 1], p) + Filter([s[|s| - 1]], p)
  {
    FilterConcat(s[..|s| - 1], [s[|s| - 1]], p);
    SnocSplit(s);
  }

  /** Sorting a sorted sequence leaves it as it is. */
  lemma {:induction false} SortByOfSorted<T>(s: seq<T>, key: T -> int)
    requires SortedBy(s, key)
    ensures SortBy(s, key) == s
    decreases |s|
  {
    if |s| > 0 {
      var last := |s| - 1;
      SortByOfSorted(s[..last], key);
      InsertAtEnd(s[..last], s[last], key);
      assert s[..last] + [s[last]] == s;
    }
  }

  lemma SortedTail<T>(a: seq<T>, key: T -> int)
    requires SortedBy(a, key) && |a| > 0
    ensures SortedBy(a[1..], key)
    ensures forall i :: 0 <= i < |a| ==> key(a[0]) <= key(a[i])
  {
  }

  lemma KeysApartTail<T>(a: seq<T>, key: T -> int)
    requires forall i, j :: 0 <= i < |a| && 0 <= j < |a| && key(a[i]) == key(a[j]) ==> a[i] == a[j]
    requires |a| > 0
    ensures forall i, j :: 0 <= i < |a| - 1 && 0 <= j < |a| - 1 && key(a[1..][i]) == key(a[1..][j]) ==> a[1..][i] == a[1..][j]
  {
    forall i, j | 0 <= i < |a| - 1 && 0 <= j < |a| - 1 && key(a[1..][i]) == key(a[1..][j])
      ensures a[1..][i] == a[1..][j]
    {
      assert a[1..][i] == a[i + 1] && a[1..][j] == a[j + 1];
    }
  }

  /** Two sorted arrangements of the same elements start alike when the
      key tells the elements apart. */
  lemma SameHead<T>(a: seq<T>, b: seq<T>, key: T -> int)
    requires |a| > 0 && |b| > 0
    requires forall i :: 0 <= i < |a| ==> key(a[0]) <= key(a[i])
    requires forall i :: 0 <= i < |b| ==> key(b[0]) <= key(b[i])
    requires multiset(a) == multiset(b)
    requires forall i, j :: 0 <= i < |a| && 0 <= j < |a| && key(a[i]) == key(a[j]) ==> a[i] == a[j]
    ensures a[0] == b[0]
  {
    assert a[0] in multiset(b);
    var j :| 0 <= j < |b| && b[j] == a[0];
    assert b[0] in multiset(a);
    var k :| 0 <= k < |a| && a[k] == b[0];
  }

  lemma MultisetTail<T>(a: seq<T>, b: seq<T>)
    requires |a| > 0 && |b| > 0 && a[0] == b[0]
    requires multiset(a) == multiset(b)
    ensures multiset(a[1..]) == multiset(b[1..])
  {
    MultisetCons(a);
    MultisetCons(b);
    assert multiset(a[1..]) == multiset(a) - multiset{a[0]};
    assert multiset(b[1..]) == multiset(b) - multiset{b[0]};
  }

  /** Two sorted arrangements of the same elements coincide when the key
      tells the elements apart. */
  lemma {:induction false} SortedUnique<T>(a: seq<T>, b: seq<T>, key: T -> int)
    requires SortedBy(a, key) && SortedBy(b, key)
    requires multiset(a) == multiset(b)
    requires forall i, j :: 0 <= i < |a| && 0 <= j < |a| && key(a[i]) == key(a[j]) ==> a[i] == a[j]
    ensures a == b
    decreases |a|
  {
    assert |a| == |multiset(a)| == |multiset(b)| == |b|;
    if |a| > 0 {
      SortedTail(a, key);
      SortedTail(b, key);
      SameHead(a, b, key);
      MultisetTail(a, b);
      KeysApartTail(a, key);
      SortedUnique(a[1..], b[1..], key);
      assert a == [a[0]] + a[1..];
      assert b == [b[0]] + b[1..];
    }
  }
}
