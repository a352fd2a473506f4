/**
 * Python's `list.sort(key=...)`: a stable sort. It is specified here by a
 * stable insertion sort; `le(a, b)` compares the keys of `a` and `b`.
 */
module StableSort {

  /** Comparing keys with `<=` is total and transitive. */
  ghost predicate TotalPreorder<T(!new)>(le: (T, T) -> bool) {
    (forall a, b :: le(a, b) || le(b, a))
    && (forall a, b, c :: le(a, b) && le(b, c) ==> le(a, c))
  }

  /** Every element's key is `<=` the key of every later element. */
  predicate Sorted<T>(s: seq<T>, le: (T, T) -> bool) {
    forall i, j :: 0 <= i < j < |s| ==> le(s[i], s[j])
  }

  /** `a` and `b` have equal keys. */
  predicate Tied<T>(le: (T, T) -> bool, a: T, b: T) {
    le(a, b) && le(b, a)
  }

  /**
   * Puts `x` in front of the first element whose key is not smaller, so that
   * `x` goes ahead of the elements with an equal key.
   */
  function Insert<T>(x: T, s: seq<T>, le: (T, T) -> bool): seq<T> {
    if s == [] || le(x, s[0]) then [x] + s
    else
      assert s == [s[0]] + s[1..];
      [s[0]] + Insert(x, s[1..], le)
  }

  /** The stable sort of `s`. */
  function Sort<T>(s: seq<T>, le: (T, T) -> bool): seq<T> {
    if s == [] then []
    else
      assert s == [s[0]] + s[1..];
      Insert(s[0], Sort(s[1..], le), le)
  }

  /** Inserting adds `x` and keeps every element of `s`. */
  lemma {:induction false} InsertPermutes<T>(x: T, s: seq<T>, le: (T, T) -> bool)
    ensures multiset(Insert(x, s, le)) == multiset(s) + multiset{x}
  {
    if s != [] && !le(x, s[0]) {
      InsertPermutes(x, s[1..], le);
      assert s == [s[0]] + s[1..];
    }
  }

  /** The result of `Sort` is a permutation of its input. */
  lemma {:induction false} SortPermutes<T>(s: seq<T>, le: (T, T) -> bool)
    ensures multiset(Sort(s, le)) == multiset(s)
  {
    if s != [] {
      SortPermutes(s[1..], le);
      InsertPermutes(s[0], Sort(s[1..], le), le);
      assert s == [s[0]] + s[1..];
    }
  }

  lemma SortCons<T>(x: T, s: seq<T>, le: (T, T) -> bool)
    ensures Sort([x] + s, le) == Insert(x, Sort(s, le), le)
  {
    assert ([x] + s)[1..] == s;
  }

  lemma InsertFront<T>(x: T, s: seq<T>, le: (T, T) -> bool)
    requires s == [] || le(x, s[0])
    ensures Insert(x, s, le) == [x] + s
  {
  }

  lemma InsertPast<T>(x: T, y: T, s: seq<T>, le: (T, T) -> bool)
    requires !le(x, y)
    ensures Insert(x, [y] + s, le) == [y] + Insert(x, s, le)
  {
    assert ([y] + s)[1..] == s;
  }

  /** A stable sort of three elements whose keys are in the order b, c, a. */
  lemma SortThreeRotated<T>(a: T, b: T, c: T, le: (T, T) -> bool)
    requires le(b, c) && !le(a, b) && !le(a, c)
    ensures Sort([a, b, c], le) == [b, c, a]
  {
    SortCons(a, [b, c], le);
    SortCons(b, [c], le);
    SortCons(c, [], le);
    InsertFront(c, [], le);
    InsertFront(b, [c], le);
    InsertPast(a, b, [c], le);
    InsertPast(a, c, [], le);
    InsertFront(a, [], le);
    assert [a] + [b, c] == [a, b, c] && [b] + [c] == [b, c] && [c] + [] == [c];
  }

  /** A stable sort of three elements whose keys are in the order c, b, a. */
  lemma SortThreeReversed<T>(a: T, b: T, c: T, le: (T, T) -> bool)
    requires !le(b, c) && !le(a, c) && !le(a, b)
    ensures Sort([a, b, c], le) == [c, b, a]
  {
    SortCons(a, [b, c], le);
    SortCons(b, [c], le);
    SortCons(c, [], le);
    InsertFront(c, [], le);
    InsertPast(b, c, [], le);
    InsertFront(b, [], le);
    InsertPast(a, c, [b], le);
    InsertPast(a, b, [], le);
    InsertFront(a, [], le);
    assert [a] + [b, c] == [a, b, c] && [b] + [c] == [b, c] && [c] + [] == [c];
  }

  /** The elements of `s` whose key equals the key of `x`, in their order in `s`. */
  function Ties<T>(s: seq<T>, le: (T, T) -> bool, x: T): seq<T> {
    if s == [] then []
    else (if Tied(le, s[0], x) then [s[0]] else []) + Ties(s[1..], le, x)
  }

  lemma {:induction false} InsertSorted<T(!new)>(x: T, s: seq<T>, le: (T, T) -> bool)
    requires TotalPreorder(le) && Sorted(s, le)
    ensures Sorted(Insert(x, s, le), le)
  {
    if s != [] && !le(x, s[0]) {
      var r := Insert(x, s[1..], le);
      InsertSorted(x, s[1..], le);
      InsertPermutes(x, s[1..], le);
      forall j | 0 <= j < |r| ensures le(s[0], r[j]) {
        assert r[j] in multiset(r);
        if r[j] != x {
          assert r[j] in multiset(s[1..]);
          var i :| 0 <= i < |s[1..]| && s[1..][i] == r[j];
          assert s[1 + i] == r[j];
        }
      }
      assert Insert(x, s, le) == [s[0]] + r;
    }
  }

  /** The result of `Sort` is sorted. */
  lemma {:induction false} SortSorted<T(!new)>(s: seq<T>, le: (T, T) -> bool)
    requires TotalPreorder(le)
    ensures Sorted(Sort(s, le), le)
  {
    if s != [] {
      SortSorted(s[1..], le);
      InsertSorted(s[0], Sort(s[1..], le), le);
    }
  }

  lemma {:induction false} InsertTies<T(!new)>(x: T, s: seq<T>, le: (T, T) -> bool, y: T)
    requires TotalPreorder(le)
    ensures Ties(Insert(x, s, le), le, y) == (if Tied(le, x, y) then [x] else []) + Ties(s, le, y)
  {
    if s == [] || le(x, s[0]) {
      assert ([x] + s)[1..] == s;
    } else {
      var h := s[0];
      InsertTies(x, s[1..], le, y);
      assert le(x, y) && le(y, h) ==> le(x, h);
      InsertTiesPast(x, s, le, y);
    }
  }

  /**
   * The step of `InsertTies` where `x` moves past the first element: the two
   * cannot both be tied with `y`, so their order among the ties is unaffected.
   */
  lemma InsertTiesPast<T>(x: T, s: seq<T>, le: (T, T) -> bool, y: T)
    requires s != [] && !le(x, s[0]) && !(Tied(le, x, y) && Tied(le, s[0], y))
    requires Ties(Insert(x, s[1..], le), le, y) == (if Tied(le, x, y) then [x] else []) + Ties(s[1..], le, y)
    ensures Ties(Insert(x, s, le), le, y) == (if Tied(le, x, y) then [x] else []) + Ties(s, le, y)
  {
    var h, rest := s[0], Insert(x, s[1..], le);
    var th := if Tied(le, h, y) then [h] else [];
    var tx := if Tied(le, x, y) then [x] else [];
    assert Insert(x, s, le) == [h] + rest;
    TiesCons(h, rest, le, y);
    assert Ties(s, le, y) == th + Ties(s[1..], le, y);
    SwapEmpty(th, tx, Ties(s[1..], le, y));
  }

  /** The ties of a sequence with a given first element. */
  lemma TiesCons<T>(h: T, rest: seq<T>, le: (T, T) -> bool, y: T)
    ensures Ties([h] + rest, le, y) == (if Tied(le, h, y) then [h] else []) + Ties(rest, le, y)
  {
    assert ([h] + rest)[1..] == rest;
  }

  /** Two prefixes of which one is empty can be swapped. */
  lemma SwapEmpty<T>(a: seq<T>, b: seq<T>, c: seq<T>)
    requires a == [] || b == []
    ensures a + (b + c) == b + (a + c)
  {
    if a == [] {
      assert a + (b + c) == b + c == b + (a + c);
    } else {
      assert a + (b + c) == a + c == b + (a + c);
    }
  }

  /** Stability: elements with equal keys come out in the order they went in. */
  lemma {:induction false} SortStable<T(!new)>(s: seq<T>, le: (T, T) -> bool, y: T)
    requires TotalPreorder(le)
    ensures Ties(Sort(s, le), le, y) == Ties(s, le, y)
  {
    if s != [] {
      SortStable(s[1..], le, y);
      InsertTies(s[0], Sort(s[1..], le), le, y);
    }
  }

  /**
   * A stable sort is determined by its input: any sorted sequence that keeps
   * the order of every group of tied elements is `Sort`'s result. So the
   * insertion sort above stands for any stable sort, such as Python's.
   */
  lemma {:induction false} SortUnique<T(!new)>(s: seq<T>, r: seq<T>, le: (T, T) -> bool)
    requires TotalPreorder(le)
    requires Sorted(r, le)
    requires forall y :: Ties(r, le, y) == Ties(s, le, y)
    ensures r == Sort(s, le)
  {
    var q := Sort(s, le);
    SortSorted(s, le);
    forall y ensures Ties(r, le, y) == Ties(q, le, y) {
      SortStable(s, le, y);
    }
    SortedTiesEqual(r, q, le);
  }

  lemma {:induction false} SortedTiesEqual<T(!new)>(r: seq<T>, q: seq<T>, le: (T, T) -> bool)
    requires TotalPreorder(le)
    requires Sorted(r, le) && Sorted(q, le)
    requires forall y :: Ties(r, le, y) == Ties(q, le, y)
    ensures r == q
    decreases |r| + |q|
  {
    if r != [] && q != [] {
      var x := r[0];
      TiesHead(r, le);
      TiesHead(q, le);
      TiedWithFirst(q, le, x);
      TiedWithFirst(r, le, q[0]);
      assert Tied(le, q[0], x);
      assert Ties(q, le, x)[0] == q[0];
      assert x == q[0];
      forall y ensures Ties(r[1..], le, y) == Ties(q[1..], le, y) {
        var head := if Tied(le, x, y) then [x] else [];
        assert Ties(r, le, y) == head + Ties(r[1..], le, y);
        assert Ties(q, le, y) == head + Ties(q[1..], le, y);
        assert Ties(r[1..], le, y) == (head + Ties(r[1..], le, y))[|head|..];
        assert Ties(q[1..], le, y) == (head + Ties(q[1..], le, y))[|head|..];
      }
      SortedTiesEqual(r[1..], q[1..], le);
      assert r == [x] + r[1..] && q == [q[0]] + q[1..];
    } else if r != [] {
      TiesHead(r, le);
      assert false;
    } else if q != [] {
      TiesHead(q, le);
      assert false;
    }
  }

  /** The first element is tied with itself, so it heads its own group. */
  lemma TiesHead<T(!new)>(s: seq<T>, le: (T, T) -> bool)
    requires TotalPreorder(le) && s != []
    ensures Ties(s, le, s[0]) != [] && Ties(s, le, s[0])[0] == s[0]
  {
    assert le(s[0], s[0]);
  }

  /** In a sorted sequence, whatever is tied with some element has a key at least the first one's. */
  lemma {:induction false} TiedWithFirst<T(!new)>(s: seq<T>, le: (T, T) -> bool, x: T)
    requires TotalPreorder(le) && Sorted(s, le) && s != []
    requires Ties(s, le, x) != []
    ensures le(s[0], x)
    decreases |s|
  {
    if !Tied(le, s[0], x) {
      TiedWithFirst(s[1..], le, x);
      assert le(s[0], s[1]);
    }
  }
}
