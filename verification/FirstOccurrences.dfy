/**
 * Keeping the first occurrence of each element, and how that interacts with appending and with
 * a stable sort. The loaders keep a hash set of what they have seen; this is what they compute.
 */
module FirstOccurrences {
  import opened Common
  import opened StableSort

  /** The first occurrences, in order. */
  function Dedup<T(==)>(s: seq<T>): seq<T> {
    if s == [] then []
    else
      var n := |s| - 1;
      Dedup(s[..n]) + if s[n] in s[..n] then [] else [s[n]]
  }

  function Outside<T(==)>(seen: set<T>): T -> bool {
    x => x !in seen
  }

  /** The elements not seen before. */
  function Unseen<T(==)>(seen: set<T>, s: seq<T>): seq<T> {
    Filter(Outside(seen), s)
  }

  lemma DedupExtend<T>(s: seq<T>, x: T)
    ensures Dedup(s + [x]) == if x in s then Dedup(s) else Dedup(s) + [x]
  {
    assert (s + [x])[..|s|] == s;
  }

  /** Same elements, each once. */
  lemma {:induction false} DedupMembers<T>(s: seq<T>)
    ensures forall x :: x in Dedup(s) <==> x in s
    ensures Distinct(Dedup(s)) && |Dedup(s)| <= |s|
  {
    if s != [] {
      var t, x := s[..|s| - 1], s[|s| - 1];
      DedupMembers(t);
      assert s == t + [x];
      DistinctExtend(Dedup(t), x);
    }
  }

  lemma DedupMember<T>(s: seq<T>, x: T)
    ensures x in Dedup(s) <==> x in s
  {
    DedupMembers(s);
  }

  /** Nothing is dropped exactly from a list of distinct elements. */
  lemma {:induction false} DedupDistinct<T>(s: seq<T>)
    ensures |Dedup(s)| <= |s|
    ensures |Dedup(s)| == |s| <==> Distinct(s)
    ensures Distinct(s) ==> Dedup(s) == s
  {
    if s != [] {
      hide Distinct;
      var t, x := s[..|s| - 1], s[|s| - 1];
      assert s == t + [x];
      DedupDistinct(t);
      DistinctExtend(t, x);
    }
  }

  lemma UnseenMembers<T>(seen: set<T>, s: seq<T>)
    ensures forall x :: x in Unseen(seen, s) <==> x in s && x !in seen
  {
    FilterMembers(Outside(seen), s);
  }

  lemma UnseenAppend<T>(seen: set<T>, a: seq<T>, b: seq<T>)
    ensures Unseen(seen, a + b) == Unseen(seen, a) + Unseen(seen, b)
  {
    FilterAppend(Outside(seen), a, b);
  }

  lemma UnseenOne<T>(seen: set<T>, x: T)
    ensures Unseen(seen, [x]) == if x in seen then [] else [x]
  {
    assert [x][1..] == [] && Filter(Outside(seen), [x][1..]) == [];
  }

  lemma NoDedup<T>(seen: set<T>)
    ensures Dedup<T>([]) == [] && Unseen(seen, Dedup<T>([])) == []
  {
  }

  /** What a second list adds to a first one. */
  lemma {:induction false} DedupJoin<T>(a: seq<T>, b: seq<T>)
    ensures Dedup(a + b) == Dedup(a) + Unseen(AsSet(a), Dedup(b))
  {
    hide Unseen, Dedup;
    if b == [] {
      assert a + b == a;
      NoDedup(AsSet(a));
    } else {
      var t, x := b[..|b| - 1], b[|b| - 1];
      DedupJoin(a, t);
      assert a + b == a + t + [x] && b == t + [x];
      DedupExtend(a + t, x);
      DedupExtend(t, x);
      assert x in a + t <==> x in a || x in t;
      UnseenAppend(AsSet(a), Dedup(t), [x]);
      UnseenOne(AsSet(a), x);
    }
  }

  lemma {:induction false} UnseenTwice<T>(a: set<T>, b: set<T>, s: seq<T>)
    ensures Unseen(b, Unseen(a, s)) == Unseen(a + b, s)
  {
    if s != [] {
      UnseenTwice(a, b, s[1..]);
      if s[0] !in a {
        assert ([s[0]] + Unseen(a, s[1..]))[1..] == Unseen(a, s[1..]);
      }
    }
  }

  lemma {:induction false} UnseenNothing<T>(seen: set<T>, s: seq<T>)
    ensures seen == {} ==> Unseen(seen, s) == s
    ensures (forall x :: x in s ==> x in seen) ==> Unseen(seen, s) == []
  {
    if s != [] {
      UnseenNothing(seen, s[1..]);
      assert s[0] in s && forall x :: x in s[1..] ==> x in s;
    }
  }

  lemma DedupSingle<T>(x: T)
    ensures Dedup([x]) == [x]
  {
    assert [x][..0] == [];
  }

  // ---------------------------------------------------------------- with a stable sort

  lemma {:induction false} DedupSorted<T(!new)>(le: (T, T) -> bool, s: seq<T>)
    requires Sorted(le, s)
    ensures Sorted(le, Dedup(s))
  {
    if s != [] {
      var n := |s| - 1;
      DedupSorted(le, s[..n]);
      DedupMembers(s[..n]);
      var d := Dedup(s[..n]);
      forall i | 0 <= i < |d| ensures le(d[i], s[n]) {
        assert d[i] in s[..n];
      }
    }
  }

  lemma UnseenSorted<T(!new)>(le: (T, T) -> bool, seen: set<T>, s: seq<T>)
    requires Preorder(le) && Sorted(le, s)
    ensures Sorted(le, Unseen(seen, s))
  {
    SortFixpoint(le, s);
    SortFilter(le, Outside(seen), s);
    SortFixpoint(le, Unseen(seen, s));
  }

  /** Inserting into a sorted list: the inserted element becomes the first occurrence. */
  lemma {:induction false} DedupInsert<T(!new)>(le: (T, T) -> bool, x: T, s: seq<T>)
    requires Preorder(le) && Sorted(le, s)
    ensures Dedup(Insert(le, x, s)) == Insert(le, x, Unseen({x}, Dedup(s)))
    decreases |s|, 1
  {
    hide Preorder, Sorted, Unseen;
    if s == [] {
      DedupSingle(x);
      UnseenNothing({x}, Dedup(s));
      assert Insert(le, x, []) == [x] + [];
    } else if le(x, s[0]) {
      InsertBelow(le, x, s);
      DedupJoin([x], s);
      DedupSingle(x);
      assert AsSet([x]) == {x};
    } else {
      InsertAbove(le, x, s);
    }
  }

  lemma InsertBelow<T(!new)>(le: (T, T) -> bool, x: T, s: seq<T>)
    requires Preorder(le) && Sorted(le, s) && s != [] && le(x, s[0])
    ensures Insert(le, x, s) == [x] + s
    ensures Insert(le, x, Unseen({x}, Dedup(s))) == [x] + Unseen({x}, Dedup(s))
  {
    hide Dedup, Unseen, Sorted;
    SortedTail(le, s);
    assert s == [s[0]] + s[1..];
    assert forall y :: y in s ==> le(x, y);
    DedupMembers(s);
    UnseenMembers({x}, Dedup(s));
    InsertFront(le, x, Unseen({x}, Dedup(s)));
  }

  lemma InsertAbove<T(!new)>(le: (T, T) -> bool, x: T, s: seq<T>)
    requires Preorder(le) && Sorted(le, s) && s != [] && !le(x, s[0])
    ensures Dedup(Insert(le, x, s)) == Insert(le, x, Unseen({x}, Dedup(s)))
    decreases |s|, 0
  {
    hide Unseen, Sorted, Dedup;
    var y, t := s[0], s[1..];
    SortedTail(le, s);
    DedupInsert(le, x, t);
    DedupJoin([y], Insert(le, x, t));
    DedupJoin([y], t);
    DedupSingle(y);
    assert AsSet([y]) == {y} && s == [y] + t;
    var d := Unseen({x}, Dedup(t));
    DedupSorted(le, t);
    UnseenSorted(le, {x}, Dedup(t));
    UnseenInsert(le, y, x, d);
    UnseenTwice({x}, {y}, Dedup(t));
    UnseenTwice({y}, {x}, Dedup(t));
    assert {x} + {y} == {y} + {x};
    UnseenAppend({x}, [y], Unseen({y}, Dedup(t)));
    UnseenOne({x}, y);
    assert ([y] + Unseen({y}, d))[1..] == Unseen({y}, d);
  }

  lemma UnseenInsert<T(!new)>(le: (T, T) -> bool, y: T, x: T, s: seq<T>)
    requires Preorder(le) && Sorted(le, s) && x != y
    ensures Unseen({y}, Insert(le, x, s)) == Insert(le, x, Unseen({y}, s))
  {
    FilterInsert(le, Outside({y}), x, s);
  }

  /** Deduplicating a sorted list is sorting the deduplicated one. */
  lemma {:induction false} DedupSort<T(!new)>(le: (T, T) -> bool, s: seq<T>)
    requires Preorder(le)
    ensures Dedup(Sort(le, s)) == Sort(le, Dedup(s))
  {
    hide Unseen, Preorder, Dedup;
    if s == [] {
      DedupMembers(s);
    } else {
      var x, t := s[0], s[1..];
      DedupSort(le, t);
      SortSorts(le, t);
      DedupInsert(le, x, Sort(le, t));
      assert s == [x] + t && AsSet([x]) == {x};
      DedupJoin([x], t);
      DedupSingle(x);
      SortUnseen(le, {x}, Dedup(t));
      assert ([x] + Unseen({x}, Dedup(t)))[1..] == Unseen({x}, Dedup(t));
    }
  }

  lemma SortUnseen<T(!new)>(le: (T, T) -> bool, seen: set<T>, s: seq<T>)
    requires Preorder(le)
    ensures Unseen(seen, Sort(le, s)) == Sort(le, Unseen(seen, s))
  {
    SortFilter(le, Outside(seen), s);
  }

  // ---------------------------------------------------------------- which of two comes first

  /** Of `x` and `y`, `x` is the first to occur. */
  predicate Before<T(==)>(s: seq<T>, x: T, y: T) {
    s != [] && s[0] != y && (s[0] == x || Before(s[1..], x, y))
  }

  lemma {:induction false} BeforeMembers<T>(s: seq<T>, x: T, y: T)
    ensures Before(s, x, y) ==> x in s && x != y && !Before(s, y, x)
    ensures x in s && x != y && !Before(s, x, y) ==> y in s && Before(s, y, x)
  {
    if s != [] {
      BeforeMembers(s[1..], x, y);
      assert s == [s[0]] + s[1..];
    }
  }

  lemma {:induction false} BeforeAppend<T>(a: seq<T>, b: seq<T>, x: T, y: T)
    ensures Before(a + b, x, y) <==> Before(a, x, y) || (x !in a && y !in a && Before(b, x, y))
  {
    if a == [] {
      assert a + b == b;
    } else {
      assert (a + b)[1..] == a[1..] + b && a == [a[0]] + a[1..];
      BeforeAppend(a[1..], b, x, y);
      BeforeMembers(a[1..], x, y);
      BeforeMembers(b, x, y);
    }
  }

  lemma BeforeOne<T>(z: T, x: T, y: T)
    ensures Before([z], x, y) <==> x == z && x != y
  {
  }

  /** Dropping repeats does not change it. */
  lemma {:induction false} BeforeDedup<T>(s: seq<T>, x: T, y: T)
    ensures Before(Dedup(s), x, y) <==> Before(s, x, y)
  {
    hide Before, Dedup;
    if s == [] {
      NoDedup<T>({});
    } else {
      var t, z := s[..|s| - 1], s[|s| - 1];
      assert s == t + [z];
      BeforeDedup(t, x, y);
      BeforeAppend(t, [z], x, y);
      BeforeAppend(Dedup(t), [z], x, y);
      BeforeOne(z, x, y);
      DedupExtend(t, z);
      DedupMembers(t);
    }
  }

  lemma {:induction false} BeforeFilter<T>(p: T -> bool, s: seq<T>, x: T, y: T)
    requires p(x) && p(y)
    ensures Before(Filter(p, s), x, y) <==> Before(s, x, y)
  {
    if s != [] {
      BeforeFilter(p, s[1..], x, y);
      if p(s[0]) {
        assert ([s[0]] + Filter(p, s[1..]))[1..] == Filter(p, s[1..]);
      }
    }
  }

  lemma {:induction false} BeforeSorted<T(!new)>(le: (T, T) -> bool, s: seq<T>, x: T, y: T)
    requires Sorted(le, s) && Preorder(le) && x in s && !le(y, x)
    ensures Before(s, x, y)
  {
    if s[0] != x {
      SortedTail(le, s);
      assert s == [s[0]] + s[1..];
      BeforeSorted(le, s[1..], x, y);
    }
  }

  lemma SortMembers<T>(le: (T, T) -> bool, s: seq<T>)
    ensures forall x :: x in Sort(le, s) <==> x in s
  {
    SortKeeps(le, s);
    assert forall x :: x in Sort(le, s) <==> x in multiset(Sort(le, s));
  }

  /** A stable sort puts the lesser first, and among equals keeps what was first. */
  lemma BeforeSort<T(!new)>(le: (T, T) -> bool, s: seq<T>, x: T, y: T)
    requires Preorder(le) && x in s && y in s
    ensures Before(Sort(le, s), x, y) <==> if le(x, y) && le(y, x) then Before(s, x, y) else le(x, y)
  {
    hide Before, Sort, Filter;
    SortSorts(le, s);
    SortMembers(le, s);
    if !le(y, x) {
      BeforeSorted(le, Sort(le, s), x, y);
    } else if !le(x, y) {
      BeforeSorted(le, Sort(le, s), y, x);
      BeforeMembers(Sort(le, s), x, y);
    } else {
      var like := (z: T) => le(x, z) && le(z, x);
      BeforeFilter(like, s, x, y);
      BeforeFilter(like, Sort(le, s), x, y);
      SortFilter(le, like, s);
      FilterMembers(like, s);
      AllAlike(le, x, Filter(like, s));
      SortFixpoint(le, Filter(like, s));
    }
  }

  lemma AllAlike<T(!new)>(le: (T, T) -> bool, x: T, s: seq<T>)
    requires Preorder(le) && forall z :: z in s ==> le(x, z) && le(z, x)
    ensures Sorted(le, s)
  {
    forall i, j | 0 <= i < j < |s| ensures le(s[i], s[j]) {
      assert s[i] in s && s[j] in s;
    }
  }

  /** `e` comes before everything that `f` takes to `y`. */
  ghost predicate Leads<A(!new), B>(f: A -> B, s: seq<A>, e: A, y: B) {
    forall d :: d in s && f(d) == y ==> Before(s, e, d)
  }

  lemma LeadsOn<A(!new), B>(f: A -> B, s: seq<A>, e: A, y: B)
    requires s != [] && f(s[0]) != y && e != s[0]
    ensures Leads(f, s, e, y) <==> Leads(f, s[1..], e, y)
  {
    assert s == [s[0]] + s[1..];
  }

  /** After a map, `x` comes first if one of its sources comes before every source of `y`. */
  lemma {:induction false} BeforeMap<A(!new), B>(f: A -> B, s: seq<A>, x: B, y: B)
    requires x in Map(f, s) && y in Map(f, s) && x != y
    ensures Before(Map(f, s), x, y) <==> exists e :: e in s && f(e) == x && Leads(f, s, e, y)
  {
    hide Leads;
    assert s == [s[0]] + s[1..] && Map(f, s)[0] == f(s[0]) && Map(f, s)[1..] == Map(f, s[1..]);
    if f(s[0]) == x {
      assert s[0] in s && Leads(f, s, s[0], y) by {
        HeadLeads(f, s, y);
      }
    } else if f(s[0]) == y {
      forall e ensures !Leads(f, s, e, y) {
        HeadLed(f, s, e, y);
      }
    } else {
      BeforeMap(f, s[1..], x, y);
      forall e | f(e) == x ensures Leads(f, s, e, y) <==> Leads(f, s[1..], e, y) {
        LeadsOn(f, s, e, y);
      }
    }
  }

  lemma HeadLeads<A(!new), B>(f: A -> B, s: seq<A>, y: B)
    requires s != [] && f(s[0]) != y
    ensures Leads(f, s, s[0], y)
  {
  }

  lemma HeadLed<A(!new), B>(f: A -> B, s: seq<A>, e: A, y: B)
    requires s != [] && f(s[0]) == y
    ensures !Leads(f, s, e, y)
  {
    assert s[0] in s && !Before(s, e, s[0]);
  }

  /**
   * Two lists have the same first occurrences exactly if they have the same members and order any
   * two of them alike.
   */
  lemma SameDedup<T(!new)>(s: seq<T>, t: seq<T>)
    ensures Dedup(s) == Dedup(t) <==>
            (forall x :: x in s <==> x in t) && (forall x, y :: x in s && y in s && Before(s, x, y) ==> Before(t, x, y))
  {
    hide Dedup, Before;
    DedupMembers(s);
    DedupMembers(t);
    forall x, y ensures Before(Dedup(s), x, y) <==> Before(s, x, y) {
      BeforeDedup(s, x, y);
    }
    forall x, y ensures Before(Dedup(t), x, y) <==> Before(t, x, y) {
      BeforeDedup(t, x, y);
    }
    if Dedup(s) == Dedup(t) {
      assert forall x :: x in s <==> x in Dedup(s);
    } else if (forall x :: x in s <==> x in t)
              && (forall x, y :: x in s && y in s && Before(s, x, y) ==> Before(t, x, y)) {
      SameDistinct(Dedup(s), Dedup(t));
      assert false;
    }
  }

  lemma NoMembers<T>(s: seq<T>)
    ensures s != [] ==> exists x :: x in s
  {
    if s != [] {
      assert s[0] in s;
    }
  }

  lemma SameFirst<T(!new)>(a: seq<T>, b: seq<T>)
    requires a != [] && forall x :: x in a <==> x in b
    requires forall x, y :: x in a && y in a && Before(a, x, y) ==> Before(b, x, y)
    ensures b != [] && b[0] == a[0]
  {
    assert a[0] in a && a[0] in b && b[0] in b;
    assert b[0] != a[0] ==> Before(a, a[0], b[0]);
  }

  lemma {:induction false} SameDistinct<T(!new)>(a: seq<T>, b: seq<T>)
    requires Distinct(a) && Distinct(b) && forall x :: x in a <==> x in b
    requires forall x, y :: x in a && y in a && Before(a, x, y) ==> Before(b, x, y)
    ensures a == b
  {
    if a == [] {
      NoMembers(b);
    } else {
      SameFirst(a, b);
      var a', b' := a[1..], b[1..];
      assert a == [a[0]] + a' && b == [a[0]] + b';
      assert forall x :: x in a' <==> x in a && x != a[0];
      assert forall x :: x in b' <==> x in b && x != a[0];
      forall x, y | x in a' && y in a' && Before(a', x, y) ensures Before(b', x, y) {
        assert Before(a, x, y);
      }
      SameDistinct(a', b');
    }
  }
}
