/** A reference definition of the stable sort that `Array.prototype.sort`
    performs when it is given a consistent comparator, and the properties
    that characterise it: the result is a permutation of the input, it is
    ordered by the comparator, and elements the comparator cannot tell apart
    keep their relative order. The comparator is a "less than or equal"
    relation `le`; JavaScript's three-way comparator `cmp` corresponds to
    `le(a, b) <==> cmp(a, b) <= 0`. */
module Sorting {

  /** `le` is total and transitive (hence also reflexive): what a consistent
      sort comparator provides. */
  ghost predicate TotalPreorder<T(!new)>(le: (T, T) -> bool) {
    && (forall x, y :: le(x, y) || le(y, x))
    && (forall x, y, z :: le(x, y) && le(y, z) ==> le(x, z))
  }

  /** Every element is `le` every later element. */
  ghost predicate Sorted<T>(le: (T, T) -> bool, s: seq<T>) {
    forall i, j :: 0 <= i < j < |s| ==> le(s[i], s[j])
  }

  /** The comparator cannot tell `x` and `y` apart (it would return 0). */
  predicate Equiv<T>(le: (T, T) -> bool, x: T, y: T) {
    le(x, y) && le(y, x)
  }

  /** The elements of `s` that `le` cannot tell apart from `k`, in their order in `s`. */
  function Peers<T>(le: (T, T) -> bool, k: T, s: seq<T>): seq<T> {
    if s == [] then []
    else (if Equiv(le, s[0], k) then [s[0]] else []) + Peers(le, k, s[1..])
  }

  /** `r` keeps, for every class of equivalent elements, the order those
      elements have in `s`: the stability promise. */
  ghost predicate StableWrt<T(!new)>(le: (T, T) -> bool, s: seq<T>, r: seq<T>) {
    forall k :: Peers(le, k, r) == Peers(le, k, s)
  }

  /** Puts `x` in front of the first element of `s` that is not below it. */
  function Insert<T>(le: (T, T) -> bool, x: T, s: seq<T>): (r: seq<T>)
    ensures multiset(r) == multiset(s) + multiset{x}
  {
    if s == [] then [x]
    else if le(x, s[0]) then [x] + s
    else
      assert s == [s[0]] + s[1..];
      [s[0]] + Insert(le, x, s[1..])
  }

  /** Stable sort by insertion, working from the back of the list. */
  function StableSort<T>(le: (T, T) -> bool, s: seq<T>): (r: seq<T>)
    ensures multiset(r) == multiset(s)
  {
    if s == [] then []
    else
      assert s == [s[0]] + s[1..];
      Insert(le, s[0], StableSort(le, s[1..]))
  }

  lemma {:induction false} InsertSorted<T(!new)>(le: (T, T) -> bool, x: T, s: seq<T>)
    requires TotalPreorder(le)
    requires Sorted(le, s)
    ensures Sorted(le, Insert(le, x, s))
  {
    if s == [] {
    } else if le(x, s[0]) {
      var r := [x] + s;
      forall i, j | 0 <= i < j < |r| ensures le(r[i], r[j]) {
        if i == 0 {
          assert le(x, s[0]) && le(s[0], s[j - 1]);
        }
      }
    } else {
      var tail := Insert(le, x, s[1..]);
      InsertSorted(le, x, s[1..]);
      var r := [s[0]] + tail;
      forall i, j | 0 <= i < j < |r| ensures le(r[i], r[j]) {
        if i == 0 {
          var y := r[j];
          assert y in multiset(tail);
          assert y == x || y in multiset(s[1..]);
          if y != x {
            var m :| 0 <= m < |s[1..]| && s[1..][m] == y;
            assert s[m + 1] == y;
          }
        } else {
          assert r[i] == tail[i - 1] && r[j] == tail[j - 1];
        }
      }
    }
  }

  /** The result of `StableSort` is ordered by `le`. */
  lemma {:induction false} StableSortSorted<T(!new)>(le: (T, T) -> bool, s: seq<T>)
    requires TotalPreorder(le)
    ensures Sorted(le, StableSort(le, s))
  {
    if s != [] {
      StableSortSorted(le, s[1..]);
      InsertSorted(le, s[0], StableSort(le, s[1..]));
    }
  }

  /** Unfolds `Peers` once, at the front of a list. */
  lemma PeersCons<T>(le: (T, T) -> bool, k: T, y: T, t: seq<T>)
    ensures Peers(le, k, [y] + t) == (if Equiv(le, y, k) then [y] else []) + Peers(le, k, t)
  {
  }

  /** Two elements on opposite sides of a strict comparison are never peers of the same `k`. */
  lemma NotBothPeers<T(!new)>(le: (T, T) -> bool, k: T, x: T, y: T)
    requires TotalPreorder(le)
    requires !le(x, y)
    ensures !(Equiv(le, x, k) && Equiv(le, y, k))
  {
  }

  /** Inserting `x` adds it to its own class only, at the front of that class. */
  lemma {:induction false} PeersInsert<T(!new)>(le: (T, T) -> bool, k: T, x: T, s: seq<T>)
    requires TotalPreorder(le)
    ensures Peers(le, k, Insert(le, x, s)) == Peers(le, k, [x] + s)
  {
    if s != [] && !le(x, s[0]) {
      var y, t := s[0], s[1..];
      assert s == [y] + t;
      var cx := if Equiv(le, x, k) then [x] else [];
      var cy := if Equiv(le, y, k) then [y] else [];
      NotBothPeers(le, k, x, y);
      assert cy + cx == cx + cy;
      calc {
        Peers(le, k, Insert(le, x, s));
        { assert Insert(le, x, s) == [y] + Insert(le, x, t); }
        Peers(le, k, [y] + Insert(le, x, t));
        { PeersCons(le, k, y, Insert(le, x, t)); }
        cy + Peers(le, k, Insert(le, x, t));
        { PeersInsert(le, k, x, t); PeersCons(le, k, x, t); }
        cy + (cx + Peers(le, k, t));
        { assert cy + (cx + Peers(le, k, t)) == (cy + cx) + Peers(le, k, t); }
        (cx + cy) + Peers(le, k, t);
        { PeersCons(le, k, y, t); }
        cx + Peers(le, k, s);
        { PeersCons(le, k, x, s); }
        Peers(le, k, [x] + s);
      }
    }
  }

  /** `StableSort` keeps equivalent elements in their input order. */
  lemma {:induction false} StableSortStable<T(!new)>(le: (T, T) -> bool, s: seq<T>)
    requires TotalPreorder(le)
    ensures StableWrt(le, s, StableSort(le, s))
  {
    if s != [] {
      StableSortStable(le, s[1..]);
      forall k ensures Peers(le, k, StableSort(le, s)) == Peers(le, k, s) {
        PeersInsert(le, k, s[0], StableSort(le, s[1..]));
        PeersCons(le, k, s[0], StableSort(le, s[1..]));
        PeersCons(le, k, s[0], s[1..]);
        assert s == [s[0]] + s[1..];
      }
    }
  }

  /** A list that is already in order is left exactly as it is. */
  lemma {:induction false} SortedIsFixpoint<T>(le: (T, T) -> bool, s: seq<T>)
    requires Sorted(le, s)
    ensures StableSort(le, s) == s
  {
    if s != [] {
      SortedIsFixpoint(le, s[1..]);
      assert s == [s[0]] + s[1..];
    }
  }

  /** Sorting twice gives the same list as sorting once. */
  lemma StableSortIdempotent<T(!new)>(le: (T, T) -> bool, s: seq<T>)
    requires TotalPreorder(le)
    ensures StableSort(le, StableSort(le, s)) == StableSort(le, s)
  {
    StableSortSorted(le, s);
    SortedIsFixpoint(le, StableSort(le, s));
  }

  /** A list whose head is equivalent to itself gives that head a peer. */
  lemma PeersOfHead<T>(le: (T, T) -> bool, s: seq<T>)
    ensures s != [] && le(s[0], s[0]) ==> Peers(le, s[0], s) != []
  {
  }

  /** In an ordered list, the head is below every element that has a peer in it. */
  lemma SortedHeadBelow<T(!new)>(le: (T, T) -> bool, a: seq<T>, y: T, b: seq<T>)
    requires TotalPreorder(le)
    requires Sorted(le, a) && a != []
    requires y in b && Peers(le, y, a) == Peers(le, y, b)
    ensures le(a[0], y)
  {
  }

  /** Two lists ordered by a total preorder that agree on every class of
      equivalent elements are the same list. */
  lemma {:induction false} SortedStableUnique<T(!new)>(le: (T, T) -> bool, a: seq<T>, b: seq<T>)
    requires TotalPreorder(le)
    requires Sorted(le, a) && Sorted(le, b)
    requires StableWrt(le, a, b)
    ensures a == b
  {
    if a == [] && b == [] {
    } else if a == [] {
      PeersOfHead(le, b);
      assert false;
    } else if b == [] {
      PeersOfHead(le, a);
      assert false;
    } else {
      var x, y := a[0], b[0];
      assert a == [x] + a[1..] && b == [y] + b[1..];
      SortedHeadBelow(le, a, y, b);
      SortedHeadBelow(le, b, x, a);
      assert le(x, x);
      PeersCons(le, x, x, a[1..]);
      PeersCons(le, x, y, b[1..]);
      assert Equiv(le, y, x);
      assert Peers(le, x, a) == Peers(le, x, b);
      assert Peers(le, x, a)[0] == x && Peers(le, x, b)[0] == y;
      forall k ensures Peers(le, k, a[1..]) == Peers(le, k, b[1..]) {
        var c := if Equiv(le, x, k) then [x] else [];
        PeersCons(le, k, x, a[1..]);
        PeersCons(le, k, x, b[1..]);
        assert Peers(le, k, a) == Peers(le, k, b);
        assert (c + Peers(le, k, a[1..]))[|c|..] == Peers(le, k, a[1..]);
        assert (c + Peers(le, k, b[1..]))[|c|..] == Peers(le, k, b[1..]);
      }
      SortedStableUnique(le, a[1..], b[1..]);
    }
  }

  /** Any ordered, stable rearrangement of `s` is `StableSort(le, s)`: the
      reference definition stands for every stable sort, including the one
      the JavaScript engine runs. */
  lemma StableSortCharacterised<T(!new)>(le: (T, T) -> bool, s: seq<T>, r: seq<T>)
    requires TotalPreorder(le)
    requires Sorted(le, r) && StableWrt(le, s, r)
    ensures r == StableSort(le, s)
  {
    StableSortSorted(le, s);
    StableSortStable(le, s);
    SortedStableUnique(le, r, StableSort(le, s));
  }
}
