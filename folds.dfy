/**
  Order-independent folds over a finite set: the sum of a function over the
  set, and what it means to be the maximum or minimum of a starting value and
  a function over the set. The statistics of a file are folds of this kind
  over the keys of its occurrence map, whose iteration order is unspecified.
 */
module Folds {

  /** Some element of a non-empty set; which one is left unspecified. */
  ghost function Pick<T>(s: set<T>): (x: T)
    requires s != {}
    ensures x in s
  {
    var x :| x in s; x
  }

  /** The larger of a and b. */
  function Max(a: int, b: int): int { if a >= b then a else b }

  /** The smaller of a and b. */
  function Min(a: int, b: int): int { if a <= b then a else b }

  /** The sum of f over the elements of s. */
  ghost function Sum<T>(s: set<T>, f: T -> int): int
    decreases s
  {
    if s == {} then 0 else var x := Pick(s); f(x) + Sum(s - {x}, f)
  }

  /** m is the largest of init and the values of f on s. */
  ghost predicate IsMaxOver<T>(m: int, init: int, s: set<T>, f: T -> int)
  {
    && m >= init
    && (forall x :: x in s ==> m >= f(x))
    && (m == init || exists x :: x in s && m == f(x))
  }

  /** m is the smallest of init and the values of f on s. */
  ghost predicate IsMinOver<T>(m: int, init: int, s: set<T>, f: T -> int)
  {
    && m <= init
    && (forall x :: x in s ==> m <= f(x))
    && (m == init || exists x :: x in s && m == f(x))
  }

  /** Any element can be taken out first: the sum does not depend on the order. */
  lemma {:induction false} SumRemove<T>(s: set<T>, f: T -> int, x: T)
    requires x in s
    ensures Sum(s, f) == f(x) + Sum(s - {x}, f)
    decreases s
  {
    var y := Pick(s);
    if y != x {
      SumRemove(s - {y}, f, x);
      SumRemove(s - {x}, f, y);
      assert s - {y} - {x} == s - {x} - {y};
    }
  }

  /** Adding a new element adds its value. */
  lemma SumInsert<T>(s: set<T>, f: T -> int, x: T)
    requires x !in s
    ensures Sum(s + {x}, f) == f(x) + Sum(s, f)
  {
    SumRemove(s + {x}, f, x);
    assert s + {x} - {x} == s;
  }

  /** Functions that agree on s have the same sum over s. */
  lemma {:induction false} SumCongruent<T>(s: set<T>, f: T -> int, g: T -> int)
    requires forall x :: x in s ==> f(x) == g(x)
    ensures Sum(s, f) == Sum(s, g)
    decreases s
  {
    if s != {} {
      SumCongruent(s - {Pick(s)}, f, g);
    }
  }

  /** The sum is linear: summing f + g pointwise is summing f and g apart. */
  lemma {:induction false} SumAdd<T>(s: set<T>, h: T -> int, f: T -> int, g: T -> int)
    requires forall x :: x in s ==> h(x) == f(x) + g(x)
    ensures Sum(s, h) == Sum(s, f) + Sum(s, g)
    decreases s
  {
    if s != {} {
      SumAdd(s - {Pick(s)}, h, f, g);
    }
  }

  /** A constant c summed over s is c times the size of s. */
  lemma {:induction false} SumConst<T>(s: set<T>, f: T -> int, c: int)
    requires forall x :: x in s ==> f(x) == c
    ensures Sum(s, f) == c * |s|
    decreases s
  {
    if s != {} {
      var x := Pick(s);
      SumConst(s - {x}, f, c);
      assert |s - {x}| == |s| - 1;
      assert c * (|s| - 1) + c == c * |s|;
    }
  }

  /** A sum of values between lo and hi lies between lo and hi times the count. */
  lemma {:induction false} SumBounds<T>(s: set<T>, f: T -> int, lo: int, hi: int)
    requires forall x :: x in s ==> lo <= f(x) <= hi
    ensures lo * |s| <= Sum(s, f) <= hi * |s|
    decreases s
  {
    if s != {} {
      var x := Pick(s);
      SumBounds(s - {x}, f, lo, hi);
      assert |s - {x}| == |s| - 1;
      assert lo * (|s| - 1) + lo == lo * |s|;
      assert hi * (|s| - 1) + hi == hi * |s|;
    }
  }

  /** A sum of non-negative values is non-negative, and zero exactly when every value is. */
  lemma {:induction false} SumNonNegative<T>(s: set<T>, f: T -> int)
    requires forall x :: x in s ==> f(x) >= 0
    ensures Sum(s, f) >= 0
    ensures Sum(s, f) == 0 <==> forall x :: x in s ==> f(x) == 0
    decreases s
  {
    if s != {} {
      var x := Pick(s);
      SumNonNegative(s - {x}, f);
    }
  }

  /** The sum over a disjoint union is the sum of the two sums. */
  lemma {:induction false} SumUnion<T>(a: set<T>, b: set<T>, f: T -> int)
    requires a !! b
    ensures Sum(a + b, f) == Sum(a, f) + Sum(b, f)
    decreases a
  {
    if a == {} {
      assert a + b == b;
    } else {
      var x := Pick(a);
      SumRemove(a + b, f, x);
      assert a + b - {x} == (a - {x}) + b;
      SumUnion(a - {x}, b, f);
    }
  }

  /** The larger of init and the largest value of f on s. */
  ghost function MaxOver<T>(init: int, s: set<T>, f: T -> int): int
    decreases s
  {
    if s == {} then init
    else var x := Pick(s); var m := MaxOver(init, s - {x}, f); if f(x) > m then f(x) else m
  }

  /** The smaller of init and the smallest value of f on s. */
  ghost function MinOver<T>(init: int, s: set<T>, f: T -> int): int
    decreases s
  {
    if s == {} then init
    else var x := Pick(s); var m := MinOver(init, s - {x}, f); if f(x) < m then f(x) else m
  }

  /** Any element can be folded in last: the maximum does not depend on the order. */
  lemma {:induction false} MaxOverRemove<T>(init: int, s: set<T>, f: T -> int, x: T)
    requires x in s
    ensures MaxOver(init, s, f) == Max(MaxOver(init, s - {x}, f), f(x))
    decreases s
  {
    var y := Pick(s);
    if y != x {
      MaxOverRemove(init, s - {y}, f, x);
      MaxOverRemove(init, s - {x}, f, y);
      assert s - {y} - {x} == s - {x} - {y};
    }
  }

  /** Any element can be folded in last: the minimum does not depend on the order. */
  lemma {:induction false} MinOverRemove<T>(init: int, s: set<T>, f: T -> int, x: T)
    requires x in s
    ensures MinOver(init, s, f) == Min(MinOver(init, s - {x}, f), f(x))
    decreases s
  {
    var y := Pick(s);
    if y != x {
      MinOverRemove(init, s - {y}, f, x);
      MinOverRemove(init, s - {x}, f, y);
      assert s - {y} - {x} == s - {x} - {y};
    }
  }

  /** Folding in a new element keeps the larger of the fold so far and its value. */
  lemma MaxOverInsert<T>(init: int, s: set<T>, f: T -> int, x: T)
    requires x !in s
    ensures MaxOver(init, s + {x}, f) == Max(MaxOver(init, s, f), f(x))
  {
    MaxOverRemove(init, s + {x}, f, x);
    assert s + {x} - {x} == s;
  }

  /** Folding in a new element keeps the smaller of the fold so far and its value. */
  lemma MinOverInsert<T>(init: int, s: set<T>, f: T -> int, x: T)
    requires x !in s
    ensures MinOver(init, s + {x}, f) == Min(MinOver(init, s, f), f(x))
  {
    MinOverRemove(init, s + {x}, f, x);
    assert s + {x} - {x} == s;
  }

  /** Functions that agree on s have the same maximum over s. */
  lemma {:induction false} MaxOverCongruent<T>(init: int, s: set<T>, f: T -> int, g: T -> int)
    requires forall x :: x in s ==> f(x) == g(x)
    ensures MaxOver(init, s, f) == MaxOver(init, s, g)
    decreases s
  {
    if s != {} {
      MaxOverCongruent(init, s - {Pick(s)}, f, g);
    }
  }

  /** MaxOver is the maximum: no value exceeds it, and it is init or some value of f on s. */
  lemma {:induction false} MaxOverIsMax<T>(init: int, s: set<T>, f: T -> int)
    ensures IsMaxOver(MaxOver(init, s, f), init, s, f)
    decreases s
  {
    if s != {} {
      var x := Pick(s);
      MaxOverIsMax(init, s - {x}, f);
    }
  }

  /** MinOver is the minimum: no value is below it, and it is init or some value of f on s. */
  lemma {:induction false} MinOverIsMin<T>(init: int, s: set<T>, f: T -> int)
    ensures IsMinOver(MinOver(init, s, f), init, s, f)
    decreases s
  {
    if s != {} {
      var x := Pick(s);
      MinOverIsMin(init, s - {x}, f);
    }
  }
}
