/** numpy.linspace and numpy.digitize over exact reals, as the Hough accumulator
    (src/linefinder/linesfinder.py) and the pixel binning of the data generator
    (src/datagenerator/datagenerator.py) use them. */
module Binning {

  ghost predicate Sorted(e: seq<real>)
  {
    forall a, b :: 0 <= a <= b < |e| ==> e[a] <= e[b]
  }

  ghost predicate StrictlySorted(e: seq<real>)
  {
    forall a, b :: 0 <= a < b < |e| ==> e[a] < e[b]
  }

  /** The spacing of linspace(lo, hi, n) when it has at least two samples. */
  function Step(lo: real, hi: real, n: nat): real
    requires n >= 2
  {
    (hi - lo) / ((n - 1) as real)
  }

  /** The k-th sample of linspace(lo, hi, n). With one sample numpy returns [lo]. */
  function Sample(lo: real, hi: real, n: nat, k: int): real
  {
    if n <= 1 then lo else lo + (k as real) * Step(lo, hi, n)
  }

  /** Two samples differ by the number of steps between them. */
  lemma SampleDiff(lo: real, hi: real, n: nat, a: int, b: int)
    requires n >= 2
    ensures Sample(lo, hi, n, b) - Sample(lo, hi, n, a) == ((b - a) as real) * Step(lo, hi, n)
  {
    var st := Step(lo, hi, n);
    assert (b as real) * st - (a as real) * st == ((b - a) as real) * st;
  }

  lemma StepSign(lo: real, hi: real, n: nat)
    requires n >= 2
    ensures ((n - 1) as real) * Step(lo, hi, n) == hi - lo
    ensures lo <= hi ==> Step(lo, hi, n) >= 0.0
    ensures lo < hi ==> Step(lo, hi, n) > 0.0
  {
  }

  /** The facts about the samples that Linspace promises. */
  lemma SampleFacts(lo: real, hi: real, n: nat)
    ensures n >= 2 ==> Sample(lo, hi, n, n - 1) == hi
    ensures n >= 2 ==> forall k: nat :: k < n - 1 ==> Sample(lo, hi, n, k + 1) - Sample(lo, hi, n, k) == Step(lo, hi, n)
    ensures lo <= hi ==> forall a: nat, b: nat :: a <= b < n ==> Sample(lo, hi, n, a) <= Sample(lo, hi, n, b)
    ensures lo < hi ==> forall a: nat, b: nat :: a < b < n ==> Sample(lo, hi, n, a) < Sample(lo, hi, n, b)
  {
    if n >= 2 {
      var st := Step(lo, hi, n);
      StepSign(lo, hi, n);
      SampleDiff(lo, hi, n, 0, n - 1);
      forall k: nat | k < n - 1 ensures Sample(lo, hi, n, k + 1) - Sample(lo, hi, n, k) == st {
        SampleDiff(lo, hi, n, k, k + 1);
      }
      if lo <= hi {
        forall a: nat, b: nat | a <= b < n ensures Sample(lo, hi, n, a) <= Sample(lo, hi, n, b) {
          SampleDiff(lo, hi, n, a, b);
          assert ((b - a) as real) * st >= 0.0;
        }
      }
      if lo < hi {
        forall a: nat, b: nat | a < b < n ensures Sample(lo, hi, n, a) < Sample(lo, hi, n, b) {
          SampleDiff(lo, hi, n, a, b);
          assert ((b - a) as real) * st > 0.0;
        }
      }
    }
  }

  /** numpy.linspace(lo, hi, n): n evenly spaced samples, the first lo and the last hi. */
  function Linspace(lo: real, hi: real, n: nat): (e: seq<real>)
    ensures |e| == n
    ensures n >= 1 ==> e[0] == lo
    ensures n >= 2 ==> e[n - 1] == hi
    ensures n >= 2 ==> forall k :: 0 <= k < n - 1 ==> e[k + 1] - e[k] == Step(lo, hi, n)
    ensures lo <= hi ==> Sorted(e)
    ensures lo < hi ==> StrictlySorted(e)
  {
    SampleFacts(lo, hi, n);
    seq(n, k => Sample(lo, hi, n, k))
  }

  /** numpy.digitize(v, e) for non-decreasing edges (right=False): the number of
      edges that are <= v, i.e. the i with e[i-1] <= v < e[i]. */
  function Digitize(v: real, e: seq<real>): (m: nat)
    ensures m <= |e|
  {
    if |e| == 0 then 0
    else Digitize(v, e[..|e| - 1]) + (if e[|e| - 1] <= v then 1 else 0)
  }

  /** Against sorted edges, the first Digitize(v, e) edges are <= v and the rest are > v. */
  lemma {:induction false} DigitizeBracket(v: real, e: seq<real>)
    requires Sorted(e)
    ensures forall k :: 0 <= k < Digitize(v, e) ==> e[k] <= v
    ensures forall k :: Digitize(v, e) <= k < |e| ==> v < e[k]
  {
    if |e| > 0 {
      var p := e[..|e| - 1];
      assert Sorted(p);
      DigitizeBracket(v, p);
      if e[|e| - 1] <= v {
        assert forall k :: 0 <= k < |p| ==> p[k] <= e[|e| - 1];
      }
    }
  }

  /** The bracket determines the index: Digitize is the only split point of the edges
      into "<= v" and "> v". */
  lemma DigitizeUnique(v: real, e: seq<real>, m: nat)
    requires Sorted(e) && m <= |e|
    requires forall k :: 0 <= k < m ==> e[k] <= v
    requires forall k :: m <= k < |e| ==> v < e[k]
    ensures Digitize(v, e) == m
  {
    DigitizeBracket(v, e);
  }

  /** Digitize is non-decreasing in the value, for any edges. */
  lemma {:induction false} DigitizeMonotone(v1: real, v2: real, e: seq<real>)
    requires v1 <= v2
    ensures Digitize(v1, e) <= Digitize(v2, e)
  {
    if |e| > 0 {
      DigitizeMonotone(v1, v2, e[..|e| - 1]);
    }
  }

  /** Against strictly increasing edges, the k-th edge falls in bin k + 1. */
  lemma DigitizeEdge(e: seq<real>, k: nat)
    requires StrictlySorted(e) && k < |e|
    ensures Digitize(e[k], e) == k + 1
  {
    DigitizeUnique(e[k], e, k + 1);
  }

  /** A value below the first edge falls in bin 0, one at or above the last in bin |e|. */
  lemma DigitizeOutside(v: real, e: seq<real>)
    requires Sorted(e) && |e| > 0
    ensures v < e[0] ==> Digitize(v, e) == 0
    ensures e[|e| - 1] <= v ==> Digitize(v, e) == |e|
  {
    DigitizeBracket(v, e);
  }

  /** An independent description of digitize against linspace: inside [lo, hi) the
      bin is one more than the number of whole steps from lo to v. */
  lemma DigitizeLinspace(v: real, lo: real, hi: real, n: nat)
    requires n >= 2 && lo < hi && lo <= v < hi
    ensures Digitize(v, Linspace(lo, hi, n)) == ((v - lo) / Step(lo, hi, n)).Floor + 1
  {
    var e := Linspace(lo, hi, n);
    var st := Step(lo, hi, n);
    StepSign(lo, hi, n);
    var q := (v - lo) / st;
    var f := q.Floor;
    DivBelow(v - lo, (n - 1) as real, st);
    assert 0 <= f < n - 1;
    forall k | 0 <= k < f + 1 ensures e[k] <= v {
      LinspaceBelow(v, lo, hi, n, k);
    }
    forall k | f + 1 <= k < n ensures v < e[k] {
      LinspaceAbove(v, lo, hi, n, k);
    }
    DigitizeUnique(v, e, f + 1);
  }

  /** A non-negative a below b * st gives a quotient a / st in [0, b). */
  lemma DivBelow(a: real, b: real, st: real)
    requires st > 0.0 && 0.0 <= a < b * st
    ensures 0.0 <= a / st < b
  {
    var q := a / st;
    assert q * st == a;
    assert (b - q) * st == b * st - a;
  }

  lemma LinspaceBelow(v: real, lo: real, hi: real, n: nat, k: int)
    requires n >= 2 && lo < hi && lo <= v
    requires 0 <= k <= ((v - lo) / Step(lo, hi, n)).Floor
    ensures k < n ==> Linspace(lo, hi, n)[k] <= v
  {
    var st := Step(lo, hi, n);
    StepSign(lo, hi, n);
    var q := (v - lo) / st;
    assert (k as real) <= q;
    assert q * st == v - lo;
    Scale(k as real, q, st);
    assert (k as real) * st <= v - lo;
    if k < n {
      assert Linspace(lo, hi, n)[k] == Sample(lo, hi, n, k) == lo + (k as real) * st;
    }
  }

  lemma LinspaceAbove(v: real, lo: real, hi: real, n: nat, k: int)
    requires n >= 2 && lo < hi && lo <= v
    requires ((v - lo) / Step(lo, hi, n)).Floor < k < n
    ensures v < Linspace(lo, hi, n)[k]
  {
    var st := Step(lo, hi, n);
    StepSign(lo, hi, n);
    var q := (v - lo) / st;
    assert q < k as real;
    assert q * st == v - lo;
    ScaleStrict(q, k as real, st);
    assert v - lo < (k as real) * st;
    assert Linspace(lo, hi, n)[k] == Sample(lo, hi, n, k) == lo + (k as real) * st;
  }

  lemma Scale(a: real, b: real, st: real)
    requires st > 0.0 && a <= b
    ensures a * st <= b * st
  {
    assert b * st - a * st == (b - a) * st;
  }

  lemma ScaleStrict(a: real, b: real, st: real)
    requires st > 0.0 && a < b
    ensures a * st < b * st
  {
    assert b * st - a * st == (b - a) * st;
  }
}
