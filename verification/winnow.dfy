/** `hvscan.winnow`: drop the pairs whose dependent value is negative.

    The inputs are walked in lock step as Python's `zip` does, so the longer
    input is cut to the length of the shorter. A negative value is the
    sentinel for a missing reading, so winnowing keeps exactly the pairs that
    hold a real measurement.
 */
module Winnow {
  import opened Sequences

  /** `zip(xs, ys)`: the pairs of equal positions, up to the shorter length. */
  function Zip(xs: seq<real>, ys: seq<real>): (ps: seq<(real, real)>)
    ensures |ps| == Shorter(xs, ys)
    ensures forall k :: 0 <= k < |ps| ==> ps[k] == (xs[k], ys[k])
  {
    if xs == [] || ys == [] then [] else [(xs[0], ys[0])] + Zip(xs[1..], ys[1..])
  }

  /** The reference filter: the pairs holding a non-negative value, in order. */
  function KeepValid(ps: seq<(real, real)>): (qs: seq<(real, real)>)
    ensures forall p :: p in qs <==> p in ps && p.1 >= 0.0
    ensures IsSubsequence(qs, ps)
  {
    if ps == [] then []
    else if ps[0].1 >= 0.0 then
      var rest := KeepValid(ps[1..]);
      SubsequenceCons(ps[0], rest, ps[1..]);
      assert ps == [ps[0]] + ps[1..];
      [ps[0]] + rest
    else
      var rest := KeepValid(ps[1..]);
      SubsequenceSkip(ps[0], rest, ps[1..]);
      assert ps == [ps[0]] + ps[1..];
      rest
  }

  /** The number of non-negative values in `ys`. */
  function CountValid(ys: seq<real>): (n: nat)
    ensures n <= |ys|
  {
    if ys == [] then 0 else (if ys[0] >= 0.0 then 1 else 0) + CountValid(ys[1..])
  }

  /** `winnow(Xin, Yin)`: the x's and y's of the pairs kept, as two lists. */
  function Winnow(xs: seq<real>, ys: seq<real>): (r: (seq<real>, seq<real>))
    ensures |r.0| == |r.1|
    ensures forall k :: 0 <= k < |r.1| ==> r.1[k] >= 0.0
  {
    if xs == [] || ys == [] then ([], [])
    else
      var rest := Winnow(xs[1..], ys[1..]);
      if ys[0] >= 0.0 then ([xs[0]] + rest.0, [ys[0]] + rest.1) else rest
  }

  /** One pair is kept per non-negative value among the zipped positions. */
  lemma {:induction false} WinnowCount(xs: seq<real>, ys: seq<real>)
    ensures |Winnow(xs, ys).0| == CountValid(ys[..Shorter(xs, ys)])
  {
    if xs != [] && ys != [] {
      WinnowCount(xs[1..], ys[1..]);
      assert ys[..Shorter(xs, ys)] == [ys[0]] + ys[1..][..Shorter(xs[1..], ys[1..])];
    }
  }

  /** Winnowing is zipping followed by the reference filter. */
  lemma {:induction false} WinnowIsFilteredZip(xs: seq<real>, ys: seq<real>)
    ensures var r := Winnow(xs, ys); Zip(r.0, r.1) == KeepValid(Zip(xs, ys))
  {
    if xs != [] && ys != [] {
      WinnowIsFilteredZip(xs[1..], ys[1..]);
      var r, rest := Winnow(xs, ys), Winnow(xs[1..], ys[1..]);
      assert Zip(xs, ys)[1..] == Zip(xs[1..], ys[1..]);
      if ys[0] >= 0.0 {
        assert r.0[1..] == rest.0 && r.1[1..] == rest.1;
      }
    }
  }

  /** A pair is in the result exactly when it is an input pair whose value
      is non-negative, and the kept pairs are in input order. */
  lemma WinnowPairs(xs: seq<real>, ys: seq<real>)
    ensures var r := Winnow(xs, ys);
            forall p :: p in Zip(r.0, r.1) <==> p in Zip(xs, ys) && p.1 >= 0.0
    ensures var r := Winnow(xs, ys); IsSubsequence(Zip(r.0, r.1), Zip(xs, ys))
  {
    WinnowIsFilteredZip(xs, ys);
  }

  /** Winnowing its own output changes nothing. */
  lemma {:induction false} WinnowIdempotent(xs: seq<real>, ys: seq<real>)
    ensures var r := Winnow(xs, ys); Winnow(r.0, r.1) == r
  {
    if xs != [] && ys != [] {
      WinnowIdempotent(xs[1..], ys[1..]);
      var r, rest := Winnow(xs, ys), Winnow(xs[1..], ys[1..]);
      if ys[0] >= 0.0 {
        assert r.0[1..] == rest.0 && r.1[1..] == rest.1;
      }
    }
  }

  /** Winnowing works position by position: winnowing a concatenation of
      equally long pieces concatenates the winnowed pieces. */
  lemma {:induction false} WinnowAppend(xs1: seq<real>, ys1: seq<real>, xs2: seq<real>, ys2: seq<real>)
    requires |xs1| == |ys1|
    ensures var a, b, c := Winnow(xs1, ys1), Winnow(xs2, ys2), Winnow(xs1 + xs2, ys1 + ys2);
            c.0 == a.0 + b.0 && c.1 == a.1 + b.1
  {
    if xs1 == [] {
      assert xs1 + xs2 == xs2 && ys1 + ys2 == ys2;
    } else {
      WinnowAppend(xs1[1..], ys1[1..], xs2, ys2);
      var xs, ys := xs1 + xs2, ys1 + ys2;
      assert xs[1..] == xs1[1..] + xs2 && ys[1..] == ys1[1..] + ys2;
      assert xs[0] == xs1[0] && ys[0] == ys1[0];
      var a', b := Winnow(xs1[1..], ys1[1..]), Winnow(xs2, ys2);
      var c' := Winnow(xs[1..], ys[1..]);
      assert c'.0 == a'.0 + b.0 && c'.1 == a'.1 + b.1;
      if ys1[0] >= 0.0 {
        assert Winnow(xs, ys).0 == [xs1[0]] + c'.0;
        assert Winnow(xs1, ys1).0 == [xs1[0]] + a'.0;
        assert [xs1[0]] + (a'.0 + b.0) == ([xs1[0]] + a'.0) + b.0;
        assert [ys1[0]] + (a'.1 + b.1) == ([ys1[0]] + a'.1) + b.1;
      }
    }
  }
}
