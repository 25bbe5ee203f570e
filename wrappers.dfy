/** Small shared helpers: optional values and the integer extremes of Java's `int`. */
module Wrappers {

  datatype Option<T> = None | Some(value: T)

  /** Integer.MAX_VALUE and Integer.MIN_VALUE, used as sentinels by the source. */
  const IntMax: int := 0x7fff_ffff
  const IntMin: int := -0x8000_0000

  /** Minimum and maximum of two integers, as Math.min / Math.max. */
  function Min(a: int, b: int): (r: int)
    ensures r <= a && r <= b && (r == a || r == b)
  {
    if a <= b then a else b
  }

  function Max(a: int, b: int): (r: int)
    ensures r >= a && r >= b && (r == a || r == b)
  {
    if a >= b then a else b
  }

  /** The elements of a sequence that satisfy `p`, in order (a stream `filter`). */
  function Filter<T>(s: seq<T>, p: T -> bool): (r: seq<T>)
    ensures |r| <= |s|
    ensures forall i :: 0 <= i < |r| ==> r[i] in s && p(r[i])
    ensures forall i :: 0 <= i < |s| && p(s[i]) ==> s[i] in r
  {
    if s == [] then [] else (if p(s[0]) then [s[0]] else []) + Filter(s[1..], p)
  }

  /** Sum of a sequence of integers. */
  function Sum(s: seq<int>): int
  {
    if s == [] then 0 else s[0] + Sum(s[1..])
  }

  lemma {:induction false} SumAppend(s: seq<int>, x: int)
    ensures Sum(s + [x]) == Sum(s) + x
  {
    if s != [] {
      assert (s + [x])[1..] == s[1..] + [x];
      SumAppend(s[1..], x);
    }
  }

  /** A subset is no larger than its superset. */
  lemma {:induction false} SubsetCard<T>(a: set<T>, b: set<T>)
    requires a <= b
    ensures |a| <= |b|
    decreases |b|
  {
    if a != {} {
      var x :| x in a;
      SubsetCard(a - {x}, b - {x});
    }
  }

  /** Removing b from a leaves at least |a| - |b| elements. */
  lemma DiffCard<T>(a: set<T>, b: set<T>)
    ensures |a - b| >= |a| - |b|
  {
    assert a == (a - b) + (a * b);
    SubsetCard(a * b, b);
  }

  /** Some element of a non-empty set (the next element of a set iteration). */
  method Pick<T>(s: set<T>) returns (e: T)
    requires |s| > 0
    ensures e in s
  {
    e :| e in s;
  }

  /** Some element of a non-empty set, for proofs. */
  lemma Member<T>(s: set<T>) returns (e: T)
    requires s != {}
    ensures e in s
  {
    e :| e in s;
  }

  /** A finite non-empty set of integers has a largest element. */
  lemma {:induction false} LargestExists(xs: set<int>)
    requires xs != {}
    ensures exists x :: x in xs && forall y | y in xs :: y <= x
    decreases |xs|
  {
    var x := Member(xs);
    if xs - {x} != {} {
      LargestExists(xs - {x});
      var z :| z in xs - {x} && forall y | y in xs - {x} :: y <= z;
      var top := if x > z then x else z;
      forall y | y in xs
        ensures y <= top
      {
        if y != x {
          assert y in xs - {x};
        }
      }
    } else {
      forall y | y in xs
        ensures y <= x
      {
        assert y !in xs - {x};
      }
    }
  }

  /** A finite non-empty set of integers has a smallest element. */
  lemma {:induction false} SmallestExists(xs: set<int>)
    requires xs != {}
    ensures exists x :: x in xs && forall y | y in xs :: x <= y
    decreases |xs|
  {
    var x := Member(xs);
    if xs - {x} != {} {
      SmallestExists(xs - {x});
      var z :| z in xs - {x} && forall y | y in xs - {x} :: z <= y;
      var bottom := if x < z then x else z;
      forall y | y in xs
        ensures bottom <= y
      {
        if y != x {
          assert y in xs - {x};
        }
      }
    } else {
      forall y | y in xs
        ensures x <= y
      {
        assert y !in xs - {x};
      }
    }
  }

  /** The largest element of a non-empty set. */
  ghost function MaxOf(xs: set<int>): (r: int)
    requires xs != {}
    ensures r in xs && forall y | y in xs :: y <= r
  {
    LargestExists(xs);
    var x :| x in xs && forall y | y in xs :: y <= x;
    x
  }

  /** The smallest element of a non-empty set. */
  ghost function MinOf(xs: set<int>): (r: int)
    requires xs != {}
    ensures r in xs && forall y | y in xs :: r <= y
  {
    SmallestExists(xs);
    var x :| x in xs && forall y | y in xs :: x <= y;
    x
  }

  /** The largest element after one more element is added. */
  lemma MaxOfAdd(xs: set<int>, x: int)
    requires xs != {}
    ensures MaxOf(xs + {x}) == Max(MaxOf(xs), x)
  {
    var m := Max(MaxOf(xs), x);
    assert m in xs + {x};
    assert MaxOf(xs + {x}) <= m;
  }

  /** The smallest element after one more element is added. */
  lemma MinOfAdd(xs: set<int>, x: int)
    requires xs != {}
    ensures MinOf(xs + {x}) == Min(MinOf(xs), x)
  {
    var m := Min(MinOf(xs), x);
    assert m in xs + {x};
    assert m <= MinOf(xs + {x});
  }

  /** Java's 32-bit wrap-around of an integer result. */
  function Wrap32(x: int): (r: int)
    ensures IntMin <= r <= IntMax
    ensures (r - x) % 0x1_0000_0000 == 0
  {
    (x + 0x8000_0000) % 0x1_0000_0000 - 0x8000_0000
  }

  /** Integers that agree modulo 2^32 wrap to the same 32-bit value. */
  lemma WrapCongruent(x: int, y: int)
    requires (x - y) % 0x1_0000_0000 == 0
    ensures Wrap32(x) == Wrap32(y)
  {
    var k := 0x1_0000_0000;
    var m := (x - y) / k;
    assert x - y == m * k;
    assert x + 0x8000_0000 == (y + 0x8000_0000) + m * k;
  }

  /** A 32-bit value is its own wrap-around. */
  lemma WrapInRange(x: int)
    requires IntMin <= x <= IntMax
    ensures Wrap32(x) == x
  {
  }
}
