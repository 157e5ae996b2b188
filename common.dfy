/** Small value types and numeric helpers shared by the reactor and hotspot models. */
module Common {

  datatype Option<+T> = None | Some(value: T)

  /** A strictly increasing sequence: sorted and free of duplicates. */
  predicate StrictlyIncreasing(s: seq<int>)
  {
    forall i, j :: 0 <= i < j < |s| ==> s[i] < s[j]
  }

  /** numpy's `around`: round to the nearest integer, halves to the even neighbour. */
  function RoundHalfEven(x: real): (n: int)
    ensures (n as real) - x <= 0.5 && x - (n as real) <= 0.5
    ensures x - (n as real) == 0.5 || (n as real) - x == 0.5 ==> n % 2 == 0
  {
    var f := x.Floor;
    var frac := x - f as real;
    if frac < 0.5 then f
    else if frac > 0.5 then f + 1
    else if f % 2 == 0 then f
    else f + 1
  }

  /** Rounding an exact integer leaves it unchanged. */
  lemma RoundIntegerExact(k: int)
    ensures RoundHalfEven(k as real) == k
  {
    assert (k as real).Floor == k;
  }

  /** Minimum of a non-empty sequence of reals (numpy `min`). */
  function Min(s: seq<real>): (m: real)
    requires |s| > 0
    ensures m in s
    ensures forall x :: x in s ==> m <= x
  {
    if |s| == 1 then s[0]
    else
      var rest := Min(s[1..]);
      assert forall x :: x in s ==> x == s[0] || x in s[1..];
      if s[0] <= rest then s[0] else rest
  }

  /** Every element of `s` multiplied by `f`. */
  function ScaleSeq(s: seq<real>, f: real): (r: seq<real>)
    ensures |r| == |s|
    ensures forall i :: 0 <= i < |s| ==> r[i] == s[i] * f
  {
    seq(|s|, i requires 0 <= i < |s| => s[i] * f)
  }

  /** Scaling by one leaves a sequence unchanged. */
  lemma ScaleSeqOne(s: seq<real>)
    ensures ScaleSeq(s, 1.0) == s
  {
    assert forall i :: 0 <= i < |s| ==> ScaleSeq(s, 1.0)[i] == s[i];
  }

  /** Scaling by a and then by b is scaling by a * b. */
  lemma ScaleSeqTwice(s: seq<real>, a: real, b: real)
    ensures ScaleSeq(ScaleSeq(s, a), b) == ScaleSeq(s, a * b)
  {
    forall i | 0 <= i < |s| ensures ScaleSeq(ScaleSeq(s, a), b)[i] == ScaleSeq(s, a * b)[i] {
      assert s[i] * a * b == s[i] * (a * b);
    }
  }

  /** Concatenation is associative. */
  lemma AppendAssoc<T>(a: seq<T>, b: seq<T>, c: seq<T>)
    ensures a + b + c == a + (b + c)
  {
  }

  /** The rows laid end to end: a flatten, or `np.concatenate` of vectors. */
  function Concat(rows: seq<seq<real>>): seq<real>
  {
    if rows == [] then [] else rows[0] + Concat(rows[1..])
  }

  /** Concatenating one more row appends it. */
  lemma {:induction false} ConcatAppend(rows: seq<seq<real>>, v: seq<real>)
    ensures Concat(rows + [v]) == Concat(rows) + v
  {
    if rows == [] {
      assert [v][1..] == [];
    } else {
      assert (rows + [v])[1..] == rows[1..] + [v];
      ConcatAppend(rows[1..], v);
    }
  }

  /** Sum of a sequence of reals. */
  function Sum(s: seq<real>): real
  {
    if s == [] then 0.0 else s[0] + Sum(s[1..])
  }

  /** Scaling every term scales the sum. */
  lemma {:induction false} SumScale(s: seq<real>, f: real)
    ensures Sum(ScaleSeq(s, f)) == Sum(s) * f
  {
    if s != [] {
      var t := ScaleSeq(s, f);
      assert t[1..] == ScaleSeq(s[1..], f) by {
        assert forall i :: 0 <= i < |s| - 1 ==> t[1..][i] == s[1..][i] * f;
      }
      SumScale(s[1..], f);
    }
  }

  /** Decimal rendering of a natural number, as Python's str() of an int. */
  function NatToString(n: nat): (s: string)
    ensures |s| > 0
    ensures forall i :: 0 <= i < |s| ==> '0' <= s[i] <= '9'
    decreases n
  {
    var d := [(48 + n % 10) as char];
    if n < 10 then d else NatToString(n / 10) + d
  }
}
