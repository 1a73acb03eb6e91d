/** The standard library's stable sort, as far as its callers rely on it. */
module StableSort {

  /** `le` compares any two values, and transitively. */
  ghost predicate Preorder<T(!new)>(le: (T, T) -> bool) {
    && (forall x, y :: le(x, y) || le(y, x))
    && (forall x, y, z :: le(x, y) && le(y, z) ==> le(x, z))
  }

  ghost predicate Sorted<T>(le: (T, T) -> bool, s: seq<T>) {
    forall i, j :: 0 <= i < j < |s| ==> le(s[i], s[j])
  }

  /** Puts `x` before the first element it does not exceed: it came first, so it stays first. */
  function Insert<T>(le: (T, T) -> bool, x: T, s: seq<T>): seq<T> {
    if s == [] || le(x, s[0]) then [x] + s else [s[0]] + Insert(le, x, s[1..])
  }

  function Sort<T>(le: (T, T) -> bool, s: seq<T>): seq<T> {
    if s == [] then [] else Insert(le, s[0], Sort(le, s[1..]))
  }

  lemma {:induction false} InsertKeeps<T>(le: (T, T) -> bool, x: T, s: seq<T>)
    ensures multiset(Insert(le, x, s)) == multiset{x} + multiset(s)
  {
    if s != [] && !le(x, s[0]) {
      InsertKeeps(le, x, s[1..]);
      assert s == [s[0]] + s[1..];
    }
  }

  lemma SortedCons<T(!new)>(le: (T, T) -> bool, x: T, s: seq<T>)
    requires Sorted(le, s) && forall i :: 0 <= i < |s| ==> le(x, s[i])
    ensures Sorted(le, [x] + s)
  {
  }

  lemma {:induction false} InsertSorts<T(!new)>(le: (T, T) -> bool, x: T, s: seq<T>)
    requires Preorder(le) && Sorted(le, s)
    ensures Sorted(le, Insert(le, x, s))
  {
    if s == [] {
    } else if le(x, s[0]) {
      SortedCons(le, x, s);
    } else {
      InsertSorts(le, x, s[1..]);
      var t := Insert(le, x, s[1..]);
      InsertKeeps(le, x, s[1..]);
      forall i | 0 <= i < |t| ensures le(s[0], t[i]) {
        assert t[i] in multiset(t);
      }
      SortedCons(le, s[0], t);
    }
  }

  /** Sorting rearranges, and leaves the list in order. */
  lemma {:induction false} SortSorts<T(!new)>(le: (T, T) -> bool, s: seq<T>)
    requires Preorder(le)
    ensures Sorted(le, Sort(le, s))
  {
    if s != [] {
      SortSorts(le, s[1..]);
      InsertSorts(le, s[0], Sort(le, s[1..]));
    }
  }

  lemma {:induction false} SortKeeps<T>(le: (T, T) -> bool, s: seq<T>)
    ensures multiset(Sort(le, s)) == multiset(s) && |Sort(le, s)| == |s|
  {
    if s != [] {
      SortKeeps(le, s[1..]);
      InsertKeeps(le, s[0], Sort(le, s[1..]));
      assert s == [s[0]] + s[1..];
    }
    assert |multiset(Sort(le, s))| == |multiset(s)|;
  }

  /** It leaves alone exactly the lists that are already in order. */
  lemma {:induction false} SortFixpoint<T(!new)>(le: (T, T) -> bool, s: seq<T>)
    requires Preorder(le)
    ensures Sort(le, s) == s <==> Sorted(le, s)
  {
    SortSorts(le, s);
    if Sorted(le, s) && s != [] {
      SortFixpoint(le, s[1..]);
    }
  }

  // ---------------------------------------------------------------- sorting and filtering

  function Filter<T>(p: T -> bool, s: seq<T>): seq<T> {
    if s == [] then [] else if p(s[0]) then [s[0]] + Filter(p, s[1..]) else Filter(p, s[1..])
  }

  lemma {:induction false} FilterMembers<T>(p: T -> bool, s: seq<T>)
    ensures forall x :: x in Filter(p, s) <==> x in s && p(x)
  {
    if s != [] {
      FilterMembers(p, s[1..]);
      assert s == [s[0]] + s[1..];
    }
  }

  lemma {:induction false} FilterAppend<T>(p: T -> bool, a: seq<T>, b: seq<T>)
    ensures Filter(p, a + b) == Filter(p, a) + Filter(p, b)
  {
    if a == [] {
      assert a + b == b;
    } else {
      assert (a + b)[1..] == a[1..] + b;
      FilterAppend(p, a[1..], b);
    }
  }

  lemma {:induction false} FilterSame<T>(p: T -> bool, q: T -> bool, s: seq<T>)
    requires forall x :: x in s ==> (p(x) <==> q(x))
    ensures Filter(p, s) == Filter(q, s)
  {
    if s != [] {
      assert s == [s[0]] + s[1..];
      FilterSame(p, q, s[1..]);
    }
  }

  lemma SortedTail<T>(le: (T, T) -> bool, s: seq<T>)
    requires Sorted(le, s) && s != []
    ensures Sorted(le, s[1..]) && forall x :: x in s[1..] ==> le(s[0], x)
  {
  }

  /** `x` goes in front of a list it does not exceed anywhere. */
  lemma InsertFront<T>(le: (T, T) -> bool, x: T, s: seq<T>)
    requires forall y :: y in s ==> le(x, y)
    ensures Insert(le, x, s) == [x] + s
  {
    if s != [] {
      assert s[0] in s;
    }
  }

  lemma {:induction false} FilterInsert<T(!new)>(le: (T, T) -> bool, p: T -> bool, x: T, s: seq<T>)
    requires Preorder(le) && Sorted(le, s)
    ensures Filter(p, Insert(le, x, s)) == if p(x) then Insert(le, x, Filter(p, s)) else Filter(p, s)
  {
    if s == [] {
      assert [x][1..] == [];
    } else if le(x, s[0]) {
      assert ([x] + s)[1..] == s;
      FilterMembers(p, s);
      SortedTail(le, s);
      assert s == [s[0]] + s[1..];
      assert forall y :: y in s ==> le(x, y);
      InsertFront(le, x, Filter(p, s));
    } else {
      SortedTail(le, s);
      var t := Insert(le, x, s[1..]);
      FilterInsert(le, p, x, s[1..]);
      assert ([s[0]] + t)[1..] == t;
    }
  }

  /** Sorting and filtering commute. */
  lemma {:induction false} SortFilter<T(!new)>(le: (T, T) -> bool, p: T -> bool, s: seq<T>)
    requires Preorder(le)
    ensures Filter(p, Sort(le, s)) == Sort(le, Filter(p, s))
  {
    if s != [] {
      SortFilter(le, p, s[1..]);
      SortSorts(le, s[1..]);
      FilterInsert(le, p, s[0], Sort(le, s[1..]));
    }
  }

  /** An element that does not exceed the second list is inserted into the first. */
  lemma {:induction false} InsertLeft<T>(le: (T, T) -> bool, x: T, a: seq<T>, b: seq<T>)
    requires forall y :: y in b ==> le(x, y)
    ensures Insert(le, x, a + b) == Insert(le, x, a) + b
  {
    if a == [] {
      assert a + b == b;
      InsertFront(le, x, b);
      assert Insert(le, x, a) == [x];
    } else {
      assert (a + b)[1..] == a[1..] + b;
      InsertLeft(le, x, a[1..], b);
    }
  }

  /** More elements sort behind the first ones exactly if they do not go below any of them. */
  lemma SortBehind<T(!new)>(le: (T, T) -> bool, a: seq<T>, b: seq<T>)
    requires Preorder(le)
    ensures Sort(le, a) <= Sort(le, a + b) <==> forall x, y :: x in a && y in b ==> le(x, y)
  {
    hide Sort, Sorted, Preorder;
    if forall x, y :: x in a && y in b ==> le(x, y) {
      SortBoth(le, a, b);
    }
    if Sort(le, a) <= Sort(le, a + b) {
      SortSorts(le, a + b);
      SortKeeps(le, a);
      SortKeeps(le, a + b);
      PrefixBelow(le, Sort(le, a), Sort(le, a + b), a, b);
    }
  }

  lemma {:induction false} SortBoth<T(!new)>(le: (T, T) -> bool, a: seq<T>, b: seq<T>)
    requires forall x, y :: x in a && y in b ==> le(x, y)
    ensures Sort(le, a + b) == Sort(le, a) + Sort(le, b)
  {
    hide Insert;
    if a == [] {
      assert a + b == b;
      assert Sort(le, a) == [];
    } else {
      var x, t := a[0], a[1..];
      assert a == [x] + t && (a + b)[1..] == t + b;
      SortBoth(le, t, b);
      SortKeeps(le, b);
      assert forall y :: y in Sort(le, b) ==> y in multiset(Sort(le, b));
      InsertLeft(le, x, Sort(le, t), Sort(le, b));
    }
  }

  /** In a sorted list, what is not in a prefix does not go below it. */
  lemma PrefixBelow<T>(le: (T, T) -> bool, p: seq<T>, s: seq<T>, a: seq<T>, b: seq<T>)
    requires Sorted(le, s) && p <= s && multiset(p) == multiset(a) && multiset(s) == multiset(a + b)
    ensures forall x, y :: x in a && y in b ==> le(x, y)
  {
    var rest := s[|p|..];
    assert s == p + rest;
    assert multiset(s) == multiset(p) + multiset(rest) && multiset(a + b) == multiset(a) + multiset(b);
    forall x, y | x in a && y in b ensures le(x, y) {
      assert x in multiset(p);
      assert multiset(s)[y] == multiset(p)[y] + multiset(rest)[y];
      assert multiset(a + b)[y] == multiset(a)[y] + multiset(b)[y];
      assert y in multiset(rest);
      var i :| 0 <= i < |p| && p[i] == x;
      var j :| 0 <= j < |rest| && rest[j] == y;
      assert s[i] == x && s[|p| + j] == y;
    }
  }

  // ---------------------------------------------------------------- sorting and mapping

  function Map<A, B>(f: A -> B, s: seq<A>): (r: seq<B>)
    ensures |r| == |s| && forall i :: 0 <= i < |s| ==> r[i] == f(s[i])
  {
    seq(|s|, i requires 0 <= i < |s| => f(s[i]))
  }

  lemma {:induction false} MapInsert<A, B>(f: A -> B, le: (A, A) -> bool, le': (B, B) -> bool, x: A, s: seq<A>)
    requires forall y :: y in s ==> (le(x, y) <==> le'(f(x), f(y)))
    ensures Map(f, Insert(le, x, s)) == Insert(le', f(x), Map(f, s))
  {
    if s == [] {
    } else {
      assert s[0] in s && s == [s[0]] + s[1..];
      assert Map(f, s)[1..] == Map(f, s[1..]);
      if !le(x, s[0]) {
        MapInsert(f, le, le', x, s[1..]);
      }
    }
  }

  /** A key-preserving map commutes with sorting. */
  lemma {:induction false} MapSort<A, B>(f: A -> B, le: (A, A) -> bool, le': (B, B) -> bool, s: seq<A>)
    requires forall x, y :: x in s && y in s ==> (le(x, y) <==> le'(f(x), f(y)))
    ensures Map(f, Sort(le, s)) == Sort(le', Map(f, s))
  {
    if s == [] {
    } else {
      assert s == [s[0]] + s[1..];
      MapSort(f, le, le', s[1..]);
      assert Map(f, s)[1..] == Map(f, s[1..]);
      var t := Sort(le, s[1..]);
      SortKeeps(le, s[1..]);
      forall y | y in t ensures y in s {
        assert y in multiset(t);
      }
      MapInsert(f, le, le', s[0], t);
    }
  }
}
