/** Order-preserving filters over sequences: the shape of every "loop that appends the
    items it keeps" in the monitor. */
module Seqs {
  import opened Wrappers

  /** Applies `f` to each element in order and keeps the values it produces. */
  function FilterMap<A, B>(xs: seq<A>, f: A -> Option<B>): (r: seq<B>)
    ensures |r| <= |xs|
  {
    if |xs| == 0 then []
    else
      var rest := FilterMap(xs[1..], f);
      var head := if f(xs[0]).Some? then [f(xs[0]).value] else [];
      head + rest
  }

  /** A property every produced value has is had by every output. */
  lemma {:induction false} FilterMapAll<A, B>(xs: seq<A>, f: A -> Option<B>, p: B -> bool)
    requires forall j :: 0 <= j < |xs| && f(xs[j]).Some? ==> p(f(xs[j]).value)
    ensures forall k :: 0 <= k < |FilterMap(xs, f)| ==> p(FilterMap(xs, f)[k])
    decreases |xs|
  {
    if |xs| > 0 {
      assert forall j :: 1 <= j < |xs| ==> xs[1..][j - 1] == xs[j];
      FilterMapAll(xs[1..], f, p);
    }
  }

  /** Filtering distributes over concatenation. */
  lemma {:induction false} FilterMapConcat<A, B>(a: seq<A>, b: seq<A>, f: A -> Option<B>)
    ensures FilterMap(a + b, f) == FilterMap(a, f) + FilterMap(b, f)
    decreases |a|
  {
    if |a| == 0 {
      assert a + b == b;
    } else {
      var ab := a + b;
      assert ab[0] == a[0];
      assert ab[1..] == a[1..] + b;
      FilterMapConcat(a[1..], b, f);
      var head := if f(a[0]).Some? then [f(a[0]).value] else [];
      assert FilterMap(ab, f) == head + FilterMap(ab[1..], f);
      assert FilterMap(a, f) == head + FilterMap(a[1..], f);
      assert head + (FilterMap(a[1..], f) + FilterMap(b, f)) == (head + FilterMap(a[1..], f)) + FilterMap(b, f);
    }
  }

  /** A single element gives its value, if `f` produces one. */
  lemma FilterMapOne<A, B>(x: A, f: A -> Option<B>)
    ensures FilterMap([x], f) == if f(x).Some? then [f(x).value] else []
  {
    assert [x][1..] == [];
  }

  /** An element for which `f` produces nothing leaves no trace in the output. */
  lemma FilterMapSkip<A, B>(a: seq<A>, x: A, b: seq<A>, f: A -> Option<B>)
    requires f(x).None?
    ensures FilterMap(a + [x] + b, f) == FilterMap(a + b, f)
  {
    FilterMapConcat(a + [x], b, f);
    FilterMapConcat(a, [x], f);
    FilterMapConcat(a, b, f);
    FilterMapOne(x, f);
  }

  /** Functions that agree on the elements give the same output. */
  lemma {:induction false} FilterMapSame<A, B>(xs: seq<A>, f: A -> Option<B>, g: A -> Option<B>)
    requires forall j :: 0 <= j < |xs| ==> f(xs[j]) == g(xs[j])
    ensures FilterMap(xs, f) == FilterMap(xs, g)
    decreases |xs|
  {
    if |xs| > 0 {
      assert forall j :: 1 <= j < |xs| ==> xs[1..][j - 1] == xs[j];
      FilterMapSame(xs[1..], f, g);
    }
  }

  /** Producing only the values of `g` that satisfy `p` is filtering the output of `g`
      by `p`. */
  lemma {:induction false} FilterMapRefine<A, B>(xs: seq<A>, f: A -> Option<B>, g: A -> Option<B>, p: B -> bool)
    requires forall j :: 0 <= j < |xs| ==>
      f(xs[j]) == (if g(xs[j]).Some? && p(g(xs[j]).value) then g(xs[j]) else None)
    ensures FilterMap(xs, f) == Filter(FilterMap(xs, g), p)
    decreases |xs|
  {
    if |xs| > 0 {
      assert forall j :: 1 <= j < |xs| ==> xs[1..][j - 1] == xs[j];
      FilterMapRefine(xs[1..], f, g, p);
      var head := if g(xs[0]).Some? then [g(xs[0]).value] else [];
      FilterConcat(head, FilterMap(xs[1..], g), p);
      if g(xs[0]).Some? {
        assert [g(xs[0]).value][1..] == [];
      }
    }
  }

  /** The number of elements satisfying `p`. */
  function CountWhere<A>(xs: seq<A>, p: A -> bool): (n: nat)
    ensures n <= |xs|
  {
    if |xs| == 0 then 0 else (if p(xs[0]) then 1 else 0) + CountWhere(xs[1..], p)
  }

  /** The output has one value per element at which `f` produces one. */
  lemma {:induction false} FilterMapCount<A, B>(xs: seq<A>, f: A -> Option<B>, p: A -> bool)
    requires forall j :: 0 <= j < |xs| ==> (f(xs[j]).Some? <==> p(xs[j]))
    ensures |FilterMap(xs, f)| == CountWhere(xs, p)
    decreases |xs|
  {
    if |xs| > 0 {
      assert forall j :: 1 <= j < |xs| ==> xs[1..][j - 1] == xs[j];
      FilterMapCount(xs[1..], f, p);
    }
  }

  /** The positions, offset by `base`, at which `f` produces a value, in increasing order. */
  function Positions<A, B>(xs: seq<A>, f: A -> Option<B>, base: nat): (ps: seq<nat>)
    ensures |ps| == |FilterMap(xs, f)|
  {
    if |xs| == 0 then []
    else (if f(xs[0]).Some? then [base] else []) + Positions(xs[1..], f, base + 1)
  }

  /** Each listed position lies in range and produces the matching output. */
  lemma {:induction false} PositionsProduce<A, B>(xs: seq<A>, f: A -> Option<B>, base: nat)
    ensures forall k :: 0 <= k < |Positions(xs, f, base)| ==>
      var p := Positions(xs, f, base)[k];
      base <= p < base + |xs| && f(xs[p - base]) == Some(FilterMap(xs, f)[k])
    decreases |xs|
  {
    if |xs| > 0 {
      PositionsProduce(xs[1..], f, base + 1);
      var ps := Positions(xs, f, base);
      var ys := FilterMap(xs, f);
      var h := if f(xs[0]).Some? then 1 else 0;
      forall k | h <= k < |ps|
        ensures base <= ps[k] < base + |xs| && f(xs[ps[k] - base]) == Some(ys[k])
      {
        assert ps[k] == Positions(xs[1..], f, base + 1)[k - h];
        assert ys[k] == FilterMap(xs[1..], f)[k - h];
        assert xs[ps[k] - base] == xs[1..][ps[k] - (base + 1)];
      }
    }
  }

  /** The listed positions are strictly increasing. */
  lemma {:induction false} PositionsIncrease<A, B>(xs: seq<A>, f: A -> Option<B>, base: nat)
    ensures forall k :: 0 <= k < |Positions(xs, f, base)| ==> Positions(xs, f, base)[k] >= base
    ensures forall k, l :: 0 <= k < l < |Positions(xs, f, base)| ==>
      Positions(xs, f, base)[k] < Positions(xs, f, base)[l]
    decreases |xs|
  {
    if |xs| > 0 {
      PositionsIncrease(xs[1..], f, base + 1);
    }
  }

  /** A position is listed exactly when `f` produces a value there. */
  lemma {:induction false} PositionsComplete<A, B>(xs: seq<A>, f: A -> Option<B>, base: nat)
    ensures forall j :: 0 <= j < |xs| ==> (f(xs[j]).Some? <==> base + j in Positions(xs, f, base))
    decreases |xs|
  {
    if |xs| > 0 {
      PositionsComplete(xs[1..], f, base + 1);
      PositionsIncrease(xs[1..], f, base + 1);
      forall j | 1 <= j < |xs|
        ensures f(xs[j]).Some? <==> base + j in Positions(xs, f, base)
      {
        assert xs[j] == xs[1..][j - 1];
      }
    }
  }

  /** The result is exactly the produced values in input order: `idx` lists, strictly
      increasing, the input positions the outputs come from, and a position is listed
      precisely when `f` produces a value there. */
  lemma FilterMapSelects<A, B>(xs: seq<A>, f: A -> Option<B>) returns (idx: seq<nat>)
    ensures |idx| == |FilterMap(xs, f)|
    ensures forall k :: 0 <= k < |idx| ==> idx[k] < |xs| && f(xs[idx[k]]) == Some(FilterMap(xs, f)[k])
    ensures forall k, l :: 0 <= k < l < |idx| ==> idx[k] < idx[l]
    ensures forall j :: 0 <= j < |xs| ==> (f(xs[j]).Some? <==> j in idx)
  {
    idx := Positions(xs, f, 0);
    PositionsProduce(xs, f, 0);
    PositionsIncrease(xs, f, 0);
    PositionsComplete(xs, f, 0);
  }

  /** Keeps, in order, the elements that satisfy `p`. */
  function Filter<T>(xs: seq<T>, p: T -> bool): (r: seq<T>)
    ensures |r| <= |xs|
    ensures forall k :: 0 <= k < |r| ==> p(r[k])
  {
    if |xs| == 0 then []
    else if p(xs[0]) then [xs[0]] + Filter(xs[1..], p)
    else Filter(xs[1..], p)
  }

  /** The filter keeps every element satisfying `p`, and only elements of `xs`; it is
      empty exactly when no element satisfies `p`. */
  lemma {:induction false} FilterMembers<T>(xs: seq<T>, p: T -> bool)
    ensures forall x :: x in Filter(xs, p) <==> x in xs && p(x)
    ensures Filter(xs, p) == [] <==> forall j :: 0 <= j < |xs| ==> !p(xs[j])
    decreases |xs|
  {
    if |xs| > 0 {
      FilterMembers(xs[1..], p);
      assert xs == [xs[0]] + xs[1..];
      assert forall j :: 1 <= j < |xs| ==> xs[1..][j - 1] == xs[j];
    }
  }

  /** A predicate every element satisfies keeps the whole sequence. */
  lemma {:induction false} FilterAll<T>(xs: seq<T>, p: T -> bool)
    requires forall j :: 0 <= j < |xs| ==> p(xs[j])
    ensures Filter(xs, p) == xs
    decreases |xs|
  {
    if |xs| > 0 {
      assert forall j :: 1 <= j < |xs| ==> xs[1..][j - 1] == xs[j];
      FilterAll(xs[1..], p);
    }
  }

  /** Filtering distributes over concatenation. */
  lemma {:induction false} FilterConcat<T>(a: seq<T>, b: seq<T>, p: T -> bool)
    ensures Filter(a + b, p) == Filter(a, p) + Filter(b, p)
    decreases |a|
  {
    if |a| == 0 {
      assert a + b == b;
    } else {
      assert (a + b)[0] == a[0];
      assert (a + b)[1..] == a[1..] + b;
      FilterConcat(a[1..], b, p);
    }
  }

  /** `f` applied to every element, in order. */
  function MapSeq<A, B>(xs: seq<A>, f: A -> B): (r: seq<B>)
    ensures |r| == |xs|
    ensures forall k :: 0 <= k < |xs| ==> r[k] == f(xs[k])
  {
    seq(|xs|, k requires 0 <= k < |xs| => f(xs[k]))
  }

  /** Mapping a non-empty sequence maps its head, then its tail. */
  lemma MapSeqCons<A, B>(xs: seq<A>, f: A -> B)
    requires |xs| > 0
    ensures MapSeq(xs, f) == [f(xs[0])] + MapSeq(xs[1..], f)
  {
    assert forall k :: 1 <= k < |xs| ==> xs[k] == xs[1..][k - 1];
  }

  /** The elements of every sequence of `ss`, one sequence after the other. */
  function Flatten<T>(ss: seq<seq<T>>): seq<T>
  {
    if |ss| == 0 then [] else ss[0] + Flatten(ss[1..])
  }

  /** Flattening distributes over concatenation. */
  lemma {:induction false} FlattenConcat<T>(a: seq<seq<T>>, b: seq<seq<T>>)
    ensures Flatten(a + b) == Flatten(a) + Flatten(b)
    decreases |a|
  {
    if |a| == 0 {
      assert a + b == b;
    } else {
      assert (a + b)[0] == a[0];
      assert (a + b)[1..] == a[1..] + b;
      FlattenConcat(a[1..], b);
    }
  }

  /** A single sequence flattens to itself. */
  lemma FlattenOne<T>(x: seq<T>)
    ensures Flatten([x]) == x
  {
    assert [x][1..] == [];
  }

  /** The last position whose element satisfies `p`, if any. */
  function LastWhere<T>(xs: seq<T>, p: T -> bool): (r: Option<nat>)
    ensures r.Some? ==> r.value < |xs| && p(xs[r.value]) && forall j :: r.value < j < |xs| ==> !p(xs[j])
    ensures r.None? ==> forall j :: 0 <= j < |xs| ==> !p(xs[j])
  {
    if |xs| == 0 then None
    else if p(xs[|xs| - 1]) then Some(|xs| - 1)
    else
      var init := xs[..|xs| - 1];
      assert forall j :: 0 <= j < |init| ==> init[j] == xs[j];
      LastWhere(init, p)
  }

  /** Maps with the same keys and the same value at every key are equal. */
  lemma SameEntries<K, V>(m: map<K, V>, n: map<K, V>)
    requires m.Keys == n.Keys
    requires forall k :: k in n ==> m[k] == n[k]
    ensures m == n
  {
  }
}
