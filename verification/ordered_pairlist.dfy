/**
  OrderedPairlist: the queue of critical pairs of Buchberger's algorithm.  A pair
  (i, j) of polynomial indices waits under the key lcm(lead(P[i]), lead(P[j])) in a
  map ordered by the term order, and red[j] holds bit i while the pair is pending.
  A polynomial is represented by its leading exponent vector, the only part of it
  the pair list looks at.
*/
module Pairlists {
  import opened Outcomes

  /** An ExpVector. */
  type Exp = seq<nat>

  /** Exponent t of e, with 0 past its end. */
  function Get(e: Exp, t: int): nat
  {
    if 0 <= t < |e| then e[t] else 0
  }

  function MaxLen(e: Exp, f: Exp): nat
  {
    if |e| >= |f| then |e| else |f|
  }

  /** ExpVector.EVLCM: the componentwise maximum. */
  function Lcm(e: Exp, f: Exp): (l: Exp)
    ensures |l| == MaxLen(e, f)
  {
    if |e| == 0 then f
    else if |f| == 0 then e
    else [if e[0] >= f[0] then e[0] else f[0]] + Lcm(e[1..], f[1..])
  }

  /** ExpVector.EVMT(e, f): the term of e is a multiple of the term of f. */
  predicate MultipleOf(e: Exp, f: Exp)
  {
    forall t :: 0 <= t < |f| ==> f[t] <= Get(e, t)
  }

  /** Exponent t of the lcm is the larger of the two exponents t. */
  lemma {:induction false} LcmAt(e: Exp, f: Exp, t: int)
    ensures Get(Lcm(e, f), t) == if Get(e, t) >= Get(f, t) then Get(e, t) else Get(f, t)
  {
    if |e| > 0 && |f| > 0 && t > 0 {
      LcmAt(e[1..], f[1..], t - 1);
    }
  }

  /** Lcm(e, f) is a common multiple of e and f, and divides every other one. */
  lemma LcmLeast(e: Exp, f: Exp, g: Exp)
    ensures MultipleOf(Lcm(e, f), e) && MultipleOf(Lcm(e, f), f)
    ensures MultipleOf(g, e) && MultipleOf(g, f) ==> MultipleOf(g, Lcm(e, f))
  {
    var l := Lcm(e, f);
    forall t | 0 <= t < |e|
      ensures e[t] <= Get(l, t)
    {
      LcmAt(e, f, t);
    }
    forall t | 0 <= t < |f|
      ensures f[t] <= Get(l, t)
    {
      LcmAt(e, f, t);
    }
    if MultipleOf(g, e) && MultipleOf(g, f) {
      forall t | 0 <= t < |l|
        ensures l[t] <= Get(g, t)
      {
        LcmAt(e, f, t);
        assert Get(e, t) <= Get(g, t) && Get(f, t) <= Get(g, t);
      }
    }
  }

  /** The key of a pair does not depend on the order of its two polynomials. */
  lemma {:induction false} LcmCommutes(e: Exp, f: Exp)
    ensures Lcm(e, f) == Lcm(f, e)
  {
    if |e| > 0 && |f| > 0 {
      LcmCommutes(e[1..], f[1..]);
    }
  }

  /** The ascending comparator of the term order: a strict total order on exponent vectors. */
  ghost predicate StrictTotalOrder(less: (Exp, Exp) -> bool)
  {
    (forall a :: !less(a, a))
    && (forall a, b, c :: less(a, b) && less(b, c) ==> less(a, c))
    && (forall a, b :: a != b ==> less(a, b) || less(b, a))
  }

  /** The inner class Pair: the two polynomials and their indices in P. */
  datatype Pair = Pair(pi: Exp, pj: Exp, i: int, j: int)

  /** A TreeMap entry: a key and the LinkedList of pairs stored under it. */
  type Entry = (Exp, seq<Pair>)

  /** The entries are in ascending key order, as the TreeMap keeps them. */
  predicate Ascending(less: (Exp, Exp) -> bool, pl: seq<Entry>)
  {
    |pl| <= 1 || (less(pl[0].0, pl[1].0) && Ascending(less, pl[1..]))
  }

  predicate NonEmptyLists(pl: seq<Entry>)
  {
    forall k :: 0 <= k < |pl| ==> |pl[k].1| > 0
  }

  /** The pairs of one list, each with its key. */
  function Tag(g: Exp, xs: seq<Pair>): (t: seq<(Exp, Pair)>)
    ensures |t| == |xs|
  {
    if |xs| == 0 then [] else [(g, xs[0])] + Tag(g, xs[1..])
  }

  lemma {:induction false} TagAt(g: Exp, xs: seq<Pair>, k: int)
    requires 0 <= k < |xs|
    ensures Tag(g, xs)[k] == (g, xs[k])
  {
    if k > 0 {
      TagAt(g, xs[1..], k - 1);
    }
  }

  /** The pairs in the order removeNext meets them: keys ascending, each list first in first out. */
  function Flat(pl: seq<Entry>): seq<(Exp, Pair)>
  {
    if |pl| == 0 then [] else Tag(pl[0].0, pl[0].1) + Flat(pl[1..])
  }

  /** The index pairs (i, j) of a sequence of pairs. */
  function Indices(fl: seq<(Exp, Pair)>): set<(int, int)>
  {
    if |fl| == 0 then {} else {(fl[0].1.i, fl[0].1.j)} + Indices(fl[1..])
  }

  /** pairlist.get(g), with the empty list for an absent key. */
  function Lookup(pl: seq<Entry>, g: Exp): seq<Pair>
  {
    if |pl| == 0 then [] else if pl[0].0 == g then pl[0].1 else Lookup(pl[1..], g)
  }

  /** `x = pairlist.get(g); xl.addLast(pair); pairlist.put(g, xl)` on the entry list. */
  function AddPair(less: (Exp, Exp) -> bool, pl: seq<Entry>, g: Exp, pr: Pair): seq<Entry>
  {
    if |pl| == 0 then [(g, [pr])]
    else if pl[0].0 == g then [(g, pl[0].1 + [pr])] + pl[1..]
    else if less(g, pl[0].0) then [(g, [pr])] + pl
    else [pl[0]] + AddPair(less, pl[1..], g, pr)
  }

  /** Bit i of red[j]: red.get(j).get(i). */
  predicate Has(red: seq<set<int>>, j: int, i: int)
  {
    0 <= j < |red| && i in red[j]
  }

  /** red.get(j).clear(i). */
  function Clear(red: seq<set<int>>, i: int, j: int): seq<set<int>>
  {
    if 0 <= j < |red| then red[j := red[j] - {i}] else red
  }

  /** A pair stored under g is (i, j) with i < j, the polynomials P[i] and P[j], and g their lcm. */
  predicate WellFormed(P: seq<Exp>, g: Exp, pr: Pair)
  {
    0 <= pr.i < pr.j < |P| && pr.pi == P[pr.i] && pr.pj == P[pr.j] && g == Lcm(P[pr.j], P[pr.i])
  }

  /** Every pair of the queue is well formed for P. */
  predicate AllWellFormed(P: seq<Exp>, fl: seq<(Exp, Pair)>)
  {
    |fl| == 0 || (WellFormed(P, fl[0].0, fl[0].1) && AllWellFormed(P, fl[1..]))
  }

  lemma {:induction false} AllWellFormedAt(P: seq<Exp>, fl: seq<(Exp, Pair)>, k: int)
    requires AllWellFormed(P, fl) && 0 <= k < |fl|
    ensures WellFormed(P, fl[k].0, fl[k].1) && AllWellFormed(P, fl[k + 1..])
  {
    if k > 0 {
      AllWellFormedAt(P, fl[1..], k - 1);
      assert fl[1..][k..] == fl[k + 1..];
    }
  }

  lemma {:induction false} AllWellFormedDrop(P: seq<Exp>, fl: seq<(Exp, Pair)>, k: int)
    requires AllWellFormed(P, fl) && 0 <= k <= |fl|
    ensures AllWellFormed(P, fl[k..])
  {
    if k > 0 {
      AllWellFormedAt(P, fl, k - 1);
    }
  }

  lemma {:induction false} AllWellFormedAppend(P: seq<Exp>, a: seq<(Exp, Pair)>, b: seq<(Exp, Pair)>)
    ensures AllWellFormed(P, a + b) <==> AllWellFormed(P, a) && AllWellFormed(P, b)
  {
    if |a| > 0 {
      AllWellFormedAppend(P, a[1..], b);
      assert (a + b)[1..] == a[1..] + b;
    } else {
      assert a + b == b;
    }
  }

  /** A pair well formed for P stays so when a polynomial joins P. */
  lemma {:induction false} AllWellFormedGrow(P: seq<Exp>, e: Exp, fl: seq<(Exp, Pair)>)
    requires AllWellFormed(P, fl)
    ensures AllWellFormed(P + [e], fl)
  {
    if |fl| > 0 {
      AllWellFormedGrow(P, e, fl[1..]);
    }
  }

  /** The index pairs of well-formed pairs are (i, j) with i < j < |P|. */
  lemma {:induction false} AllWellFormedIndices(P: seq<Exp>, fl: seq<(Exp, Pair)>)
    requires AllWellFormed(P, fl)
    ensures forall x :: x in Indices(fl) ==> 0 <= x.0 < x.1 < |P|
  {
    if |fl| > 0 {
      AllWellFormedIndices(P, fl[1..]);
    }
  }

  /** The BitSets for n polynomials that record the queue fl: bit i of red[j] for each pair (i, j), j < n. */
  function Bits(n: nat, fl: seq<(Exp, Pair)>): (b: seq<set<int>>)
    ensures |b| == n
  {
    if |fl| == 0 then NoBits(n)
    else
      var b := Bits(n, fl[1..]);
      var pr := fl[0].1;
      if 0 <= pr.j < n then b[pr.j := b[pr.j] + {pr.i}] else b
  }

  /** n fresh BitSets. */
  function NoBits(n: nat): (b: seq<set<int>>)
    ensures |b| == n && forall j :: 0 <= j < n ==> b[j] == {}
  {
    if n == 0 then [] else NoBits(n - 1) + [{}]
  }

  lemma {:induction false} BitsHas(n: nat, fl: seq<(Exp, Pair)>, i: int, j: int)
    requires 0 <= j < n
    ensures i in Bits(n, fl)[j] <==> (i, j) in Indices(fl)
  {
    if |fl| > 0 {
      BitsHas(n, fl[1..], i, j);
    }
  }

  /** No index pair waits twice. */
  predicate Once(fl: seq<(Exp, Pair)>)
  {
    |fl| == 0 || ((fl[0].1.i, fl[0].1.j) !in Indices(fl[1..]) && Once(fl[1..]))
  }

  /** A queue of two parts has no pair twice when neither part has and they share no pair. */
  lemma {:induction false} OnceAppend(a: seq<(Exp, Pair)>, b: seq<(Exp, Pair)>)
    ensures Once(a + b) <==> Once(a) && Once(b) && Indices(a) !! Indices(b)
  {
    if |a| > 0 {
      OnceAppend(a[1..], b);
      IndicesAppend(a[1..], b);
      assert (a + b)[1..] == a[1..] + b;
    } else {
      assert a + b == b;
    }
  }

  /** red records exactly the pending pairs: bit i of red[j] is set when (i, j) waits, once. */
  predicate Tracks(red: seq<set<int>>, fl: seq<(Exp, Pair)>)
  {
    red == Bits(|red|, fl) && Once(fl)
  }

  /** Tracks read bit by bit. */
  lemma TracksHas(red: seq<set<int>>, fl: seq<(Exp, Pair)>, i: int, j: int)
    requires Tracks(red, fl) && 0 <= j < |red|
    ensures Has(red, j, i) <==> (i, j) in Indices(fl)
  {
    BitsHas(|red|, fl, i, j);
  }

  /** The test GBCriterion3 makes for one k whose leading term divides eij. */
  predicate Chain(red: seq<set<int>>, i: int, j: int, k: int)
  {
    if k < i then Has(red, i, k) || Has(red, j, k)
    else if i < k < j then Has(red, k, i) || Has(red, j, k)
    else if j < k then Has(red, k, i) || Has(red, k, j)
    else true
  }

  /** GBCriterion3(i, j, eij): the S-polynomial of (i, j) is still required. */
  predicate Criterion3(P: seq<Exp>, red: seq<set<int>>, i: int, j: int, eij: Exp)
  {
    Has(red, j, i) && forall k :: 0 <= k < |P| && MultipleOf(eij, P[k]) ==> Chain(red, i, j, k)
  }

  function Min(a: int, b: int): int
  {
    if a <= b then a else b
  }

  function Max(a: int, b: int): int
  {
    if a <= b then b else a
  }

  /**
    With red tracking the queue, criterion 3 holds exactly when (i, j) is pending and
    every other k whose leading term divides eij still has the pair {i, k} or the
    pair {j, k} pending: Buchberger's chain criterion.
  */
  lemma Criterion3Chain(P: seq<Exp>, red: seq<set<int>>, fl: seq<(Exp, Pair)>, i: int, j: int, eij: Exp)
    requires Tracks(red, fl) && 0 <= i < j < |P| && |red| == |P|
    ensures Criterion3(P, red, i, j, eij) <==>
      (i, j) in Indices(fl) &&
      forall k :: 0 <= k < |P| && k != i && k != j && MultipleOf(eij, P[k]) ==>
        (Min(i, k), Max(i, k)) in Indices(fl) || (Min(j, k), Max(j, k)) in Indices(fl)
  {
    forall k | 0 <= k < |P| && k != i && k != j
      ensures Chain(red, i, j, k) <==>
        (Min(i, k), Max(i, k)) in Indices(fl) || (Min(j, k), Max(j, k)) in Indices(fl)
    {
      TracksHas(red, fl, Min(i, k), Max(i, k));
      TracksHas(red, fl, Min(j, k), Max(j, k));
    }
    TracksHas(red, fl, i, j);
  }

  /**
    What removeNext does to the queue fl and the bits red: it takes pairs from the
    front, clearing bit i of red[j] for each, until one passes criterion 4 and then
    criterion 3.  The result is that pair or none, the new bits, and the number of
    pairs taken.
  */
  function Drain(P: seq<Exp>, crit4: (Exp, Exp, Exp) -> bool, fl: seq<(Exp, Pair)>, red: seq<set<int>>)
    : (d: (Option<Pair>, seq<set<int>>, nat))
    ensures d.2 <= |fl|
    ensures d.0.None? ==> d.2 == |fl|
    ensures d.0.Some? ==> 1 <= d.2
  {
    if |fl| == 0 then (None, red, 0)
    else
      var g, pr := fl[0].0, fl[0].1;
      var c := crit4(pr.pi, pr.pj, g) && Criterion3(P, red, pr.i, pr.j, g);
      var red' := Clear(red, pr.i, pr.j);
      if c then (Some(pr), red', 1)
      else
        var d := Drain(P, crit4, fl[1..], red');
        (d.0, d.1, d.2 + 1)
  }

  /** Every pair Drain takes has its bit cleared and leaves the queue; the others stay. */
  lemma {:induction false} DrainClears(P: seq<Exp>, crit4: (Exp, Exp, Exp) -> bool, fl: seq<(Exp, Pair)>, red: seq<set<int>>)
    requires Tracks(red, fl) && AllWellFormed(P, fl) && |red| == |P|
    ensures var d := Drain(P, crit4, fl, red); Tracks(d.1, fl[d.2..])
  {
    if |fl| > 0 {
      var pr := fl[0].1;
      TracksStep(red, fl);
      var red' := Clear(red, pr.i, pr.j);
      var c := crit4(pr.pi, pr.pj, fl[0].0) && Criterion3(P, red, pr.i, pr.j, fl[0].0);
      if !c {
        DrainClears(P, crit4, fl[1..], red');
        var d := Drain(P, crit4, fl[1..], red');
        assert fl[1..][d.2..] == fl[d.2 + 1..];
      }
    }
  }

  /** The pair Drain returns is the last one it took. */
  lemma {:induction false} DrainFound(P: seq<Exp>, crit4: (Exp, Exp, Exp) -> bool, fl: seq<(Exp, Pair)>, red: seq<set<int>>)
    ensures var d := Drain(P, crit4, fl, red); d.0.Some? ==> d.0.value == fl[d.2 - 1].1
  {
    if |fl| > 0 {
      var pr := fl[0].1;
      DrainFound(P, crit4, fl[1..], Clear(red, pr.i, pr.j));
    }
  }

  lemma IndicesFront(fl: seq<(Exp, Pair)>)
    requires |fl| > 0
    ensures Indices(fl) == {(fl[0].1.i, fl[0].1.j)} + Indices(fl[1..])
  {
  }

  /** Taking the front pair and clearing its bit keeps red tracking the rest of the queue. */
  lemma TracksStep(red: seq<set<int>>, fl: seq<(Exp, Pair)>)
    requires Tracks(red, fl) && |fl| > 0 && 0 <= fl[0].1.j < |red|
    ensures Tracks(Clear(red, fl[0].1.i, fl[0].1.j), fl[1..])
  {
    var pr := fl[0].1;
    var b := Bits(|red|, fl[1..]);
    BitsHas(|red|, fl[1..], pr.i, pr.j);
    assert (b[pr.j] + {pr.i}) - {pr.i} == b[pr.j];
    assert Clear(red, pr.i, pr.j) == b;
  }

  lemma {:induction false} IndicesAppend(a: seq<(Exp, Pair)>, b: seq<(Exp, Pair)>)
    ensures Indices(a + b) == Indices(a) + Indices(b)
  {
    if |a| > 0 {
      IndicesAppend(a[1..], b);
      assert (a + b)[1..] == a[1..] + b;
    } else {
      assert a + b == b;
    }
  }

  lemma {:induction false} TagAppend(g: Exp, xs: seq<Pair>, pr: Pair)
    ensures Tag(g, xs + [pr]) == Tag(g, xs) + [(g, pr)]
  {
    if |xs| > 0 {
      TagAppend(g, xs[1..], pr);
      assert (xs + [pr])[1..] == xs[1..] + [pr];
    } else {
      assert xs + [pr] == [pr];
    }
  }

  lemma FlatFront(e: Entry, pl: seq<Entry>)
    ensures Flat([e] + pl) == Tag(e.0, e.1) + Flat(pl)
  {
    assert ([e] + pl)[1..] == pl;
  }

  /** A key below the first key of an ascending map is absent from it. */
  lemma {:induction false} AbsentBelow(less: (Exp, Exp) -> bool, pl: seq<Entry>, g: Exp)
    requires StrictTotalOrder(less) && Ascending(less, pl) && |pl| > 0 && less(g, pl[0].0)
    ensures Lookup(pl, g) == []
  {
    if |pl| > 1 {
      AbsentBelow(less, pl[1..], g);
    }
  }

  /** Adding a pair keeps the keys ascending and the lists nonempty. */
  lemma {:induction false} AddPairShape(less: (Exp, Exp) -> bool, pl: seq<Entry>, g: Exp, pr: Pair)
    requires StrictTotalOrder(less) && Ascending(less, pl)
    ensures Ascending(less, AddPair(less, pl, g, pr))
    ensures |AddPair(less, pl, g, pr)| > 0
    ensures AddPair(less, pl, g, pr)[0].0 == g || (|pl| > 0 && AddPair(less, pl, g, pr)[0].0 == pl[0].0)
    ensures NonEmptyLists(pl) ==> NonEmptyLists(AddPair(less, pl, g, pr))
  {
    var A := AddPair(less, pl, g, pr);
    if |pl| == 0 {
    } else if pl[0].0 == g {
      assert A[1..] == pl[1..];
    } else if less(g, pl[0].0) {
      assert A[1..] == pl;
    } else {
      AddPairShape(less, pl[1..], g, pr);
      assert A[1..] == AddPair(less, pl[1..], g, pr);
      assert less(pl[0].0, g);
    }
  }

  /** Adding a pair appends it to the list of its key and leaves the other keys' lists. */
  lemma {:induction false} AddPairLookup(less: (Exp, Exp) -> bool, pl: seq<Entry>, g: Exp, pr: Pair, h: Exp)
    requires StrictTotalOrder(less) && Ascending(less, pl)
    ensures Lookup(AddPair(less, pl, g, pr), h) == Lookup(pl, h) + (if h == g then [pr] else [])
  {
    var A := AddPair(less, pl, g, pr);
    if |pl| == 0 {
    } else if pl[0].0 == g {
      assert A[1..] == pl[1..];
    } else if less(g, pl[0].0) {
      assert A[1..] == pl;
      if h == g {
        AbsentBelow(less, pl, g);
      }
    } else {
      AddPairLookup(less, pl[1..], g, pr, h);
      assert A[1..] == AddPair(less, pl[1..], g, pr);
    }
  }

  /** b is a with x inserted at some position. */
  ghost predicate Inserted(a: seq<(Exp, Pair)>, b: seq<(Exp, Pair)>, x: (Exp, Pair))
  {
    exists u, v :: a == u + v && b == u + [x] + v
  }

  lemma InsertedFront(t: seq<(Exp, Pair)>, a: seq<(Exp, Pair)>, b: seq<(Exp, Pair)>, x: (Exp, Pair))
    requires Inserted(a, b, x)
    ensures Inserted(t + a, t + b, x)
  {
    var u, v :| a == u + v && b == u + [x] + v;
    assert t + a == (t + u) + v;
    assert t + b == (t + u) + [x] + v;
  }

  lemma InsertedFirst(a: seq<(Exp, Pair)>, x: (Exp, Pair))
    ensures Inserted(a, [x] + a, x)
  {
    assert a == [] + a;
    assert [x] + a == [] + [x] + a;
  }

  /** Adding a pair adds it, and only it, to the queue. */
  lemma {:induction false} AddPairFlat(less: (Exp, Exp) -> bool, pl: seq<Entry>, g: Exp, pr: Pair)
    ensures Inserted(Flat(pl), Flat(AddPair(less, pl, g, pr)), (g, pr))
  {
    var A := AddPair(less, pl, g, pr);
    if |pl| == 0 {
      assert Flat(A) == [(g, pr)] + Flat(pl);
      InsertedFirst(Flat(pl), (g, pr));
    } else if pl[0].0 == g {
      FlatFront((g, pl[0].1 + [pr]), pl[1..]);
      TagAppend(g, pl[0].1, pr);
      assert Flat(pl) == Tag(g, pl[0].1) + Flat(pl[1..]);
      assert Flat(A) == Tag(g, pl[0].1) + [(g, pr)] + Flat(pl[1..]);
    } else if less(g, pl[0].0) {
      FlatFront((g, [pr]), pl);
      assert Flat(A) == [(g, pr)] + Flat(pl);
      InsertedFirst(Flat(pl), (g, pr));
    } else {
      AddPairFlat(less, pl[1..], g, pr);
      FlatFront(pl[0], AddPair(less, pl[1..], g, pr));
      InsertedFront(Tag(pl[0].0, pl[0].1), Flat(pl[1..]), Flat(AddPair(less, pl[1..], g, pr)), (g, pr));
    }
  }

  /**
    The queue after adding a pair: the old pairs and the new one, and a new index
    pair keeps every index pair waiting once.
  */
  lemma AddPairQueue(less: (Exp, Exp) -> bool, pl: seq<Entry>, g: Exp, pr: Pair)
    ensures forall x :: x in Flat(AddPair(less, pl, g, pr)) <==> x in Flat(pl) || x == (g, pr)
    ensures Indices(Flat(AddPair(less, pl, g, pr))) == Indices(Flat(pl)) + {(pr.i, pr.j)}
    ensures Once(Flat(pl)) && (pr.i, pr.j) !in Indices(Flat(pl)) ==> Once(Flat(AddPair(less, pl, g, pr)))
  {
    AddPairFlat(less, pl, g, pr);
    var u, v :| Flat(pl) == u + v && Flat(AddPair(less, pl, g, pr)) == u + [(g, pr)] + v;
    IndicesAppend(u + [(g, pr)], v);
    IndicesAppend(u, [(g, pr)]);
    IndicesAppend(u, v);
    OnceAppend(u + [(g, pr)], v);
    OnceAppend(u, [(g, pr)]);
    OnceAppend(u, v);
  }

  /** Adding a well-formed pair keeps every pair of the queue well formed. */
  lemma AddPairWellFormed(less: (Exp, Exp) -> bool, P: seq<Exp>, pl: seq<Entry>, g: Exp, pr: Pair)
    requires AllWellFormed(P, Flat(pl)) && WellFormed(P, g, pr)
    ensures AllWellFormed(P, Flat(AddPair(less, pl, g, pr)))
  {
    AddPairFlat(less, pl, g, pr);
    var u, v :| Flat(pl) == u + v && Flat(AddPair(less, pl, g, pr)) == u + [(g, pr)] + v;
    AllWellFormedAppend(P, u, v);
    AllWellFormedAppend(P, u, [(g, pr)]);
    AllWellFormedAppend(P, u + [(g, pr)], v);
  }

  /** One turn of put's loop: the pair (j, |P|) goes under lcm(e, P[j]). */
  lemma PutStep(less: (Exp, Exp) -> bool, P: seq<Exp>, e: Exp, pl0: seq<Entry>, pl: seq<Entry>, j: int)
    requires StrictTotalOrder(less) && 0 <= j < |P|
    requires AllWellFormed(P, Flat(pl0))
    requires Ascending(less, pl) && NonEmptyLists(pl) && AllWellFormed(P + [e], Flat(pl)) && Once(Flat(pl))
    requires forall g :: Lookup(pl, g) == Lookup(pl0, g) + NewPairs(P, e, g, j)
    requires Indices(Flat(pl)) == Indices(Flat(pl0)) + NewIndices(j, |P|)
    ensures var pl' := AddPair(less, pl, Lcm(e, P[j]), Pair(P[j], e, j, |P|));
            Ascending(less, pl') && NonEmptyLists(pl') && AllWellFormed(P + [e], Flat(pl')) && Once(Flat(pl'))
            && (forall g :: Lookup(pl', g) == Lookup(pl0, g) + NewPairs(P, e, g, j + 1))
            && Indices(Flat(pl')) == Indices(Flat(pl0)) + NewIndices(j + 1, |P|)
  {
    var g := Lcm(e, P[j]);
    var pair := Pair(P[j], e, j, |P|);
    AllWellFormedIndices(P, Flat(pl0));
    assert (j, |P|) !in Indices(Flat(pl0));
    AddPairShape(less, pl, g, pair);
    AddPairQueue(less, pl, g, pair);
    LcmCommutes(e, P[j]);
    AddPairWellFormed(less, P + [e], pl, g, pair);
    PutStepLookup(less, P, e, pl0, pl, j);
  }

  lemma PutStepLookup(less: (Exp, Exp) -> bool, P: seq<Exp>, e: Exp, pl0: seq<Entry>, pl: seq<Entry>, j: int)
    requires StrictTotalOrder(less) && 0 <= j < |P| && Ascending(less, pl)
    requires forall g :: Lookup(pl, g) == Lookup(pl0, g) + NewPairs(P, e, g, j)
    ensures var pl' := AddPair(less, pl, Lcm(e, P[j]), Pair(P[j], e, j, |P|));
            forall g :: Lookup(pl', g) == Lookup(pl0, g) + NewPairs(P, e, g, j + 1)
  {
    var g := Lcm(e, P[j]);
    var pair := Pair(P[j], e, j, |P|);
    forall h
      ensures Lookup(AddPair(less, pl, g, pair), h) == Lookup(pl0, h) + NewPairs(P, e, h, j + 1)
    {
      AddPairLookup(less, pl, g, pair, h);
      AppendAssoc(Lookup(pl0, h), NewPairs(P, e, h, j), if h == g then [pair] else []);
    }
  }

  lemma AppendAssoc<T>(a: seq<T>, b: seq<T>, c: seq<T>)
    ensures (a + b) + c == a + (b + c)
  {
  }

  /** With nonempty lists, the map is empty exactly when no pair waits. */
  lemma FlatEmpty(pl: seq<Entry>)
    ensures NonEmptyLists(pl) ==> (|Flat(pl)| == 0 <==> |pl| == 0)
  {
    if |pl| > 0 && NonEmptyLists(pl) {
      assert |Tag(pl[0].0, pl[0].1)| > 0;
    }
  }

  function Shift(d: (Option<Pair>, seq<set<int>>, nat), n: nat): (Option<Pair>, seq<set<int>>, nat)
  {
    (d.0, d.1, d.2 + n)
  }

  /**
    Where removeNext stands after taking n pairs from the queue F0 that it met with
    the bits red0: fl is what is left of the queue and red the bits now.  Either
    the pair it returns has been found (c), or Drain on the rest decides the outcome.
  */
  ghost predicate Progress(P: seq<Exp>, crit4: (Exp, Exp, Exp) -> bool, F0: seq<(Exp, Pair)>, red0: seq<set<int>>,
                           n: int, fl: seq<(Exp, Pair)>, red: seq<set<int>>, c: bool, pair: Option<Pair>)
  {
    0 <= n <= |F0| && F0[n..] == fl
    && (c ==> Drain(P, crit4, F0, red0) == (pair, red, n))
    && (!c ==> Drain(P, crit4, F0, red0) == Shift(Drain(P, crit4, fl, red), n))
  }

  lemma ProgressStart(P: seq<Exp>, crit4: (Exp, Exp, Exp) -> bool, F0: seq<(Exp, Pair)>, red0: seq<set<int>>)
    ensures Progress(P, crit4, F0, red0, 0, F0, red0, false, None)
  {
    assert F0[0..] == F0;
  }

  /** Taking k more pairs from what is left after n: progress composes. */
  lemma ProgressCompose(P: seq<Exp>, crit4: (Exp, Exp, Exp) -> bool, F0: seq<(Exp, Pair)>, red0: seq<set<int>>,
                        n: int, fl: seq<(Exp, Pair)>, red: seq<set<int>>, pair: Option<Pair>,
                        k: int, m: int, fl': seq<(Exp, Pair)>, red': seq<set<int>>, c: bool, pair': Option<Pair>)
    requires Progress(P, crit4, F0, red0, n, fl, red, false, pair)
    requires Progress(P, crit4, fl, red, k, fl', red', c, pair') && m == n + k
    ensures Progress(P, crit4, F0, red0, m, fl', red', c, pair')
  {
    assert F0[n..][k..] == F0[n + k..];
  }

  /** Once the pair is found or the queue is used up, Drain's outcome is known. */
  lemma ProgressEnd(P: seq<Exp>, crit4: (Exp, Exp, Exp) -> bool, F0: seq<(Exp, Pair)>, red0: seq<set<int>>,
                    n: int, fl: seq<(Exp, Pair)>, red: seq<set<int>>, c: bool, pair: Option<Pair>)
    requires Progress(P, crit4, F0, red0, n, fl, red, c, pair) && (c || |fl| == 0)
    ensures var d := Drain(P, crit4, F0, red0);
            d.0 == (if c then pair else None) && d.1 == red && F0[d.2..] == fl
  {
  }

  /** After put's loop: the new BitSet holds exactly the indices of the new pairs. */
  lemma PutTracks(P: seq<Exp>, red: seq<set<int>>, before: seq<(Exp, Pair)>, after: seq<(Exp, Pair)>)
    requires |red| == |P| && Tracks(red, before) && AllWellFormed(P, before) && Once(after)
    requires Indices(after) == Indices(before) + NewIndices(|P|, |P|)
    ensures Tracks(red + [Below(|P|)], after)
  {
    var l := |P|;
    var red' := red + [Below(l)];
    var B := Bits(l + 1, after);
    forall j | 0 <= j < l + 1
      ensures B[j] == red'[j]
    {
      PutTracksColumn(P, red, before, after, j);
    }
    assert B == red';
  }

  lemma PutTracksColumn(P: seq<Exp>, red: seq<set<int>>, before: seq<(Exp, Pair)>, after: seq<(Exp, Pair)>, j: int)
    requires |red| == |P| && Tracks(red, before) && AllWellFormed(P, before)
    requires Indices(after) == Indices(before) + NewIndices(|P|, |P|)
    requires 0 <= j <= |P|
    ensures Bits(|P| + 1, after)[j] == (red + [Below(|P|)])[j]
  {
    if j < |P| {
      forall i
        ensures i in Bits(|P| + 1, after)[j] <==> i in red[j]
      {
        PutTracksOld(P, red, before, after, i, j);
      }
    } else {
      forall i
        ensures i in Bits(|P| + 1, after)[j] <==> i in Below(|P|)
      {
        PutTracksNew(P, before, after, i);
      }
    }
  }

  /** An old column of the BitSet keeps its bits. */
  lemma PutTracksOld(P: seq<Exp>, red: seq<set<int>>, before: seq<(Exp, Pair)>, after: seq<(Exp, Pair)>, i: int, j: int)
    requires |red| == |P| && Tracks(red, before)
    requires Indices(after) == Indices(before) + NewIndices(|P|, |P|)
    requires 0 <= j < |P|
    ensures i in Bits(|P| + 1, after)[j] <==> i in red[j]
  {
    BitsHas(|P| + 1, after, i, j);
    TracksHas(red, before, i, j);
  }

  /** The new column |P| of the BitSet holds 0..|P|-1. */
  lemma PutTracksNew(P: seq<Exp>, before: seq<(Exp, Pair)>, after: seq<(Exp, Pair)>, i: int)
    requires AllWellFormed(P, before)
    requires Indices(after) == Indices(before) + NewIndices(|P|, |P|)
    ensures i in Bits(|P| + 1, after)[|P|] <==> 0 <= i < |P|
  {
    BitsHas(|P| + 1, after, i, |P|);
    AllWellFormedIndices(P, before);
  }

  /** The bits 0..l-1 of a fresh BitSet. */
  function Below(l: int): (s: set<int>)
    ensures forall t :: t in s <==> 0 <= t < l
  {
    if l <= 0 then {} else Below(l - 1) + {l - 1}
  }

  /** The pairs put adds under g after looking at P[0..j): (t, |P|) for each t < j with lcm g. */
  function NewPairs(P: seq<Exp>, e: Exp, g: Exp, j: int): seq<Pair>
    requires 0 <= j <= |P|
  {
    if j == 0 then []
    else NewPairs(P, e, g, j - 1) + (if Lcm(e, P[j - 1]) == g then [Pair(P[j - 1], e, j - 1, |P|)] else [])
  }

  /** The index pairs (t, l) for t < j. */
  function NewIndices(j: int, l: int): (s: set<(int, int)>)
    ensures forall x :: x in s <==> x.1 == l && 0 <= x.0 < j
  {
    if j <= 0 then {} else NewIndices(j - 1, l) + {(j - 1, l)}
  }

  lemma {:induction false} TagDrop(g: Exp, xs: seq<Pair>, t: seq<(Exp, Pair)>, k: int)
    requires 0 <= k <= |xs|
    ensures (Tag(g, xs) + t)[k..] == Tag(g, xs[k..]) + t
  {
    if k > 0 {
      TagDrop(g, xs[1..], t, k - 1);
      assert xs[1..][k - 1..] == xs[k..];
      assert (Tag(g, xs) + t)[k..] == (Tag(g, xs[1..]) + t)[k - 1..];
    }
  }

  /**
    The map once the front list has been cut down to xl: the list is dropped when
    xl is empty and otherwise keeps its key.
  */
  lemma NextEntries(less: (Exp, Exp) -> bool, pl: seq<Entry>, xl: seq<Pair>)
    requires |pl| > 0 && Ascending(less, pl) && NonEmptyLists(pl)
    ensures var pl' := if |xl| == 0 then pl[1..] else [(pl[0].0, xl)] + pl[1..];
            Ascending(less, pl') && NonEmptyLists(pl') && Flat(pl') == Tag(pl[0].0, xl) + Flat(pl[1..])
  {
    if |xl| == 0 {
      assert Tag(pl[0].0, xl) + Flat(pl[1..]) == Flat(pl[1..]);
    } else {
      FlatFront((pl[0].0, xl), pl[1..]);
      assert ([(pl[0].0, xl)] + pl[1..])[1..] == pl[1..];
    }
  }

  /** The queue Tag(g, xs) + t after its front pair. */
  lemma QueueFront(g: Exp, xs: seq<Pair>, t: seq<(Exp, Pair)>)
    requires |xs| > 0
    ensures var q := Tag(g, xs) + t; |q| > 0 && q[0] == (g, xs[0]) && q[1..] == Tag(g, xs[1..]) + t
  {
    assert (Tag(g, xs) + t)[1..] == Tag(g, xs[1..]) + t;
  }


  class OrderedPairlist {
    /** The leading exponent vectors of the polynomials put so far. */
    var P: seq<Exp>
    /** The TreeMap from lcm key to the list of pairs waiting under it. */
    var pairlist: seq<Entry>
    /** The BitSets: red[j] holds i while the pair (i, j) is pending. */
    var red: seq<set<int>>
    /** The ascending comparator of the term order. */
    const less: (Exp, Exp) -> bool
    /** Reduction.GBCriterion4 on the two leading terms and the key. */
    const criterion4: (Exp, Exp, Exp) -> bool

    ghost predicate Valid()
      reads this
    {
      StrictTotalOrder(less) && |red| == |P|
      && Ascending(less, pairlist) && NonEmptyLists(pairlist)
      && AllWellFormed(P, Flat(pairlist)) && Tracks(red, Flat(pairlist))
    }

    constructor (less: (Exp, Exp) -> bool, criterion4: (Exp, Exp, Exp) -> bool)
      requires StrictTotalOrder(less)
      ensures Valid() && P == [] && pairlist == [] && red == []
      ensures this.less == less && this.criterion4 == criterion4
    {
      this.less := less;
      this.criterion4 := criterion4;
      P := [];
      pairlist := [];
      red := [];
    }

    /**
      put(p) with lead(p) = e: for each j < l = |P| the pair (j, l) goes to the end
      of the list under lcm(e, lead(P[j])); then e joins P and red gets a BitSet
      with bits 0..l-1 set.
    */
    method Put(e: Exp)
      requires Valid()
      modifies this
      ensures Valid()
      ensures P == old(P) + [e]
      ensures red == old(red) + [Below(|old(P)|)]
      ensures forall g :: Lookup(pairlist, g) == Lookup(old(pairlist), g) + NewPairs(old(P), e, g, |old(P)|)
      ensures Indices(Flat(pairlist)) == Indices(Flat(old(pairlist))) + NewIndices(|old(P)|, |old(P)|)
    {
      var P0 := P;
      var pl0 := pairlist;
      var red0 := red;
      var l := |P0|;
      var pl := pl0;
      AllWellFormedGrow(P0, e, Flat(pl0));
      for j := 0 to l
        invariant Ascending(less, pl) && NonEmptyLists(pl)
        invariant AllWellFormed(P0 + [e], Flat(pl)) && Once(Flat(pl))
        invariant forall g :: Lookup(pl, g) == Lookup(pl0, g) + NewPairs(P0, e, g, j)
        invariant Indices(Flat(pl)) == Indices(Flat(pl0)) + NewIndices(j, l)
      {
        PutStep(less, P0, e, pl0, pl, j);
        pl := AddPair(less, pl, Lcm(e, P0[j]), Pair(P0[j], e, j, l));
      }
      PutTracks(P0, red0, Flat(pl0), Flat(pl));
      pairlist := pl;
      P := P0 + [e];
      red := red0 + [Below(l)];
    }

    /**
      removeNext: walks the map in ascending key order and each list from its front,
      taking pairs and clearing their bits until one passes criterion 4 and criterion
      3; emptied keys leave the map.  It returns that pair, or none.
    */
    method RemoveNext() returns (r: Option<Pair>)
      requires Valid()
      modifies this
      ensures Valid() && P == old(P)
      ensures var d := Drain(P, criterion4, old(Flat(pairlist)), old(red));
              r == d.0 && red == d.1 && Flat(pairlist) == old(Flat(pairlist))[d.2..]
    {
      ghost var F0 := Flat(pairlist);
      ghost var red0 := red;
      ghost var n := 0;
      var pl := pairlist;
      ghost var fl := F0;
      var c := false;
      var pair: Option<Pair> := None;
      ProgressStart(P, criterion4, F0, red0);
      while !c && |pl| > 0
        modifies this`red
        invariant |red| == |P| && Ascending(less, pl) && NonEmptyLists(pl)
        invariant fl == Flat(pl) && AllWellFormed(P, fl) && Tracks(red, fl)
        invariant Progress(P, criterion4, F0, red0, n, fl, red, c, pair)
        decreases |fl|
      {
        var g := pl[0].0;
        var xl0 := pl[0].1;
        var rest := pl[1..];
        ghost var tail := Flat(rest);
        ghost var redB, pairB := red, pair;
        FlatFront(pl[0], rest);
        assert [pl[0]] + rest == pl;
        var xl: seq<Pair>;
        ghost var k;
        c, pair, xl, k := TakeFromList(g, xl0, tail);
        NextEntries(less, pl, xl);
        pl := if |xl| == 0 then rest else [(g, xl)] + rest;
        ghost var n0 := n;
        fl := Tag(g, xl) + tail;
        n := n + k;
        ProgressCompose(P, criterion4, F0, red0, n0, Tag(g, xl0) + tail, redB, pairB, k, n, fl, red, c, pair);
      }
      ProgressEnd(P, criterion4, F0, red0, n, fl, red, c, pair);
      pairlist := pl;
      if !c {
        pair := None;
      }
      r := pair;
    }

    /**
      The inner loop of removeNext on the list xl of one key g: take pairs from its
      front, clearing their bits, until one passes criterion 4 and criterion 3 or the
      list runs out.  k pairs are taken and rest is what is left of xl.
    */
    method TakeFromList(g: Exp, xl: seq<Pair>, ghost tail: seq<(Exp, Pair)>)
      returns (c: bool, pair: Option<Pair>, rest: seq<Pair>, ghost k: nat)
      requires |red| == |P| && |xl| > 0
      requires AllWellFormed(P, Tag(g, xl) + tail) && Tracks(red, Tag(g, xl) + tail)
      modifies this`red
      ensures |red| == |P| && 1 <= k <= |xl| && rest == xl[k..] && (!c ==> rest == [])
      ensures AllWellFormed(P, Tag(g, rest) + tail) && Tracks(red, Tag(g, rest) + tail)
      ensures Progress(P, criterion4, Tag(g, xl) + tail, old(red), k, Tag(g, rest) + tail, red, c, pair)
    {
      ghost var fl := Tag(g, xl) + tail;
      ghost var red0 := red;
      ghost var left := fl;
      rest := xl;
      c := false;
      pair := None;
      k := 0;
      ProgressStart(P, criterion4, fl, red0);
      while !c && |rest| > 0
        invariant |red| == |P| && 0 <= k <= |xl| && rest == xl[k..] && (c ==> k >= 1)
        invariant left == Tag(g, rest) + tail && AllWellFormed(P, left) && Tracks(red, left)
        invariant Progress(P, criterion4, fl, red0, k, left, red, c, pair)
        decreases |rest|
      {
        var pr := rest[0];
        ghost var q, redB, pairB, k0 := left, red, pair, k;
        QueueFront(g, rest, tail);
        AllWellFormedAt(P, q, 0);
        c := TakePair(g, pr, q);
        assert rest[1..] == xl[k + 1..];
        rest := rest[1..];
        pair := Some(pr);
        k := k + 1;
        left := q[1..];
        ProgressCompose(P, criterion4, fl, red0, k0, q, redB, pairB, 1, k, left, red, c, pair);
      }
    }

    /**
      The body of that loop for the pair pr at the front of the queue q: test
      criterion 4 and then criterion 3, and clear bit i of red[j].
    */
    method TakePair(g: Exp, pr: Pair, ghost q: seq<(Exp, Pair)>) returns (c: bool)
      requires |red| == |P| && |q| > 0 && q[0] == (g, pr) && WellFormed(P, g, pr) && Tracks(red, q)
      modifies this`red
      ensures |red| == |P| && Tracks(red, q[1..])
      ensures Progress(P, criterion4, q, old(red), 1, q[1..], red, c, Some(pr))
    {
      c := criterion4(pr.pi, pr.pj, g);
      if c {
        c := GBCriterion3(pr.i, pr.j, g);
      }
      TracksStep(red, q);
      red := red[pr.j := red[pr.j] - {pr.i}];
    }

    /** hasNext: the map is nonempty, which is to say that a pair is still waiting. */
    function HasNext(): (b: bool)
      reads this
      ensures Valid() ==> (b <==> |Flat(pairlist)| > 0)
    {
      FlatEmpty(pairlist);
      |pairlist| > 0
    }

    /**
      GBCriterion3(i, j, eij): false when bit i of red[j] is clear, and otherwise
      false exactly when some k whose leading term divides eij fails its chain test.
    */
    method GBCriterion3(i: int, j: int, eij: Exp) returns (s: bool)
      requires 0 <= i < j < |P| && |red| == |P|
      ensures s == Criterion3(P, red, i, j, eij)
    {
      s := i in red[j];
      if !s {
        return;
      }
      for k := 0 to |P|
        invariant s
        invariant forall k' :: 0 <= k' < k && MultipleOf(eij, P[k']) ==> Chain(red, i, j, k')
      {
        var m := MultipleOf(eij, P[k]);
        if m {
          if k < i {
            s := (k in red[i]) || (k in red[j]);
          }
          if i < k && k < j {
            s := (i in red[k]) || (k in red[j]);
          }
          if j < k {
            s := (i in red[k]) || (j in red[k]);
          }
          if !s {
            return;
          }
        }
      }
      return true;
    }
  }
}
