/** Cluster labels, their one-hot encodings and the first-index argmax that turns
    a score matrix back into labels (`np.argmax(..., axis=1)` and
    `(z == np.arange(k)) * 1` in the source). */
module Partitions {
  import opened Matrices

  /** One cluster index per row (or per column) of the data matrix. */
  type Labels = seq<nat>

  predicate ValidLabels(z: Labels, k: nat) {
    forall i :: 0 <= i < |z| ==> z[i] < k
  }

  /** The largest entry of a non-empty vector (an independent reference for Argmax). */
  function Max(s: Vector): (r: real)
    requires |s| > 0
    ensures forall t :: 0 <= t < |s| ==> s[t] <= r
    ensures exists t :: 0 <= t < |s| && s[t] == r
  {
    if |s| == 1 then s[0]
    else
      var m := Max(s[..|s| - 1]);
      assert forall t :: 0 <= t < |s| - 1 ==> s[..|s| - 1][t] == s[t];
      if s[|s| - 1] > m then s[|s| - 1] else m
  }

  /** `np.argmax` of a vector: the FIRST index at which the maximum is attained. */
  function Argmax(s: Vector): (r: nat)
    requires |s| > 0
    ensures r < |s|
    ensures forall t :: 0 <= t < |s| ==> s[t] <= s[r]
    ensures forall t :: 0 <= t < r ==> s[t] < s[r]
  {
    if |s| == 1 then 0
    else
      var p := Argmax(s[..|s| - 1]);
      assert forall t :: 0 <= t < |s| - 1 ==> s[..|s| - 1][t] == s[t];
      if s[|s| - 1] > s[p] then |s| - 1 else p
  }

  /** `r` is the first index at which `v` attains its maximum. */
  predicate FirstMaxAt(v: Vector, r: nat) {
    && r < |v|
    && (forall t :: 0 <= t < |v| ==> v[t] <= v[r])
    && (forall t :: 0 <= t < r ==> v[t] < v[r])
  }

  /** `np.argmax(m, axis=1)`: the first maximising column of every row. */
  function RowArgmax(m: Matrix, k: nat): (z: Labels)
    requires k > 0 && IsMatrix(m, |m|, k)
    ensures |z| == |m| && ValidLabels(z, k)
    ensures forall i :: 0 <= i < |m| ==> FirstMaxAt(m[i], z[i])
  {
    seq(|m|, i requires 0 <= i < |m| => Argmax(m[i]))
  }

  /** The maximum of every row. */
  function RowMaxima(m: Matrix, k: nat): Vector
    requires k > 0 && IsMatrix(m, |m|, k)
  {
    seq(|m|, i requires 0 <= i < |m| => Max(m[i]))
  }

  /** `(z == np.arange(k)) * 1`: row i holds a 1 in column z[i] and 0 elsewhere. */
  function OneHot(z: Labels, k: nat): (r: Matrix)
    ensures IsMatrix(r, |z|, k)
    ensures forall i, a :: 0 <= i < |z| && 0 <= a < k ==> (r[i][a] == 1.0 <==> a == z[i])
    ensures forall i, a :: 0 <= i < |z| && 0 <= a < k ==> (r[i][a] == 0.0 <==> a != z[i])
  {
    seq(|z|, i requires 0 <= i < |z| => seq(k, a requires 0 <= a < k => if a == z[i] then 1.0 else 0.0))
  }

  /** Number of entries of `z` equal to `a`. */
  function CountLabel(z: Labels, a: nat): nat {
    if |z| == 0 then 0
    else CountLabel(z[..|z| - 1], a) + (if z[|z| - 1] == a then 1 else 0)
  }

  // ---------------------------------------------------------------------------

  /** The argmax attains the maximum. */
  lemma ArgmaxIsMax(s: Vector)
    requires |s| > 0
    ensures s[Argmax(s)] == Max(s)
  {
  }

  /** Every row of a one-hot encoding of valid labels sums to exactly 1. */
  lemma OneHotRowSums(z: Labels, k: nat)
    requires ValidLabels(z, k)
    ensures forall i :: 0 <= i < |z| ==> Sum(OneHot(z, k)[i]) == 1.0
  {
    var h := OneHot(z, k);
    forall i | 0 <= i < |z|
      ensures Sum(h[i]) == 1.0
    {
      var o := Ones(k);
      assert h[i] == seq(|o|, a requires 0 <= a < |o| => if a == z[i] then o[a] else 0.0);
      SumSingle(o, z[i]);
    }
  }

  /** The argmax of a one-hot encoding gives back the labels. */
  lemma ArgmaxOfOneHot(z: Labels, k: nat)
    requires k > 0 && ValidLabels(z, k)
    ensures RowArgmax(OneHot(z, k), k) == z
  {
    var h := OneHot(z, k);
    var back := RowArgmax(h, k);
    forall i | 0 <= i < |z|
      ensures back[i] == z[i]
    {
      assert FirstMaxAt(h[i], back[i]);
      assert h[i][back[i]] >= h[i][z[i]] == 1.0;
      assert h[i][back[i]] == 1.0;
    }
  }

  /** A one-hot row picks out the entry of `v` at its label. */
  lemma DotOneHotRow(z: Labels, k: nat, i: nat, v: Vector)
    requires i < |z| && z[i] < k && |v| == k
    ensures Dot(OneHot(z, k)[i], v) == v[z[i]]
  {
    assert Mul(OneHot(z, k)[i], v) == seq(|v|, a requires 0 <= a < |v| => if a == z[i] then v[a] else 0.0);
    SumSingle(v, z[i]);
  }

  /** Column `a` of a one-hot encoding, dotted with `v`, sums `v` over the rows labelled `a`. */
  lemma DotOneHotCol(z: Labels, k: nat, a: nat, v: Vector)
    requires a < k && |v| == |z|
    ensures Dot(Col(OneHot(z, k), a), v) == Sum(seq(|z|, i requires 0 <= i < |z| => if z[i] == a then v[i] else 0.0))
  {
    assert Mul(Col(OneHot(z, k), a), v) == seq(|z|, i requires 0 <= i < |z| => if z[i] == a then v[i] else 0.0);
  }

  /** Column `a` of a one-hot encoding sums to the number of rows labelled `a`. */
  lemma {:induction false} OneHotColSum(z: Labels, k: nat, a: nat)
    requires a < k
    ensures Sum(Col(OneHot(z, k), a)) == CountLabel(z, a) as real
  {
    if |z| > 0 {
      var m := |z| - 1;
      assert Col(OneHot(z, k), a)[..m] == Col(OneHot(z[..m], k), a);
      OneHotColSum(z[..m], k, a);
    }
  }

  /** Column `a` of a one-hot encoding sums to the size of cluster `a`. */
  lemma ClusterSizes(z: Labels, k: nat)
    ensures forall a :: 0 <= a < k ==> ColSums(OneHot(z, k), k)[a] == CountLabel(z, a) as real
  {
    forall a | 0 <= a < k
      ensures ColSums(OneHot(z, k), k)[a] == CountLabel(z, a) as real
    {
      OneHotColSum(z, k, a);
    }
  }

  /** Over all k clusters, the cluster sizes of valid labels add up to the number of labels. */
  lemma CountsSumToLength(z: Labels, k: nat)
    requires ValidLabels(z, k)
    ensures Sum(ColSums(OneHot(z, k), k)) == |z| as real
  {
    var h := OneHot(z, k);
    RowColTotal(h, k);
    OneHotRowSums(z, k);
    assert RowSums(h) == Ones(|z|);
    SumOnes(|z|);
  }

  /** A label that occurs at position i is counted at least once. */
  lemma {:induction false} CountLabelPositive(z: Labels, i: nat)
    requires i < |z|
    ensures CountLabel(z, z[i]) >= 1
  {
    var m := |z| - 1;
    if i < m {
      CountLabelPositive(z[..m], i);
    }
  }
}
