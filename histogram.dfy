/** The histogram `np.unique(data, return_counts=True)` and the selection
    `values[counts > critical]` of `AstroImage.mask_blank`, over any value
    type with equality. */
module Histogram {
  import opened Stats

  /** The elements of `s` other than `v`, in order. */
  function Without<T(==,!new)>(s: seq<T>, v: T): (r: seq<T>)
    ensures |r| == |s| - multiset(s)[v]
    ensures forall u :: u != v ==> multiset(r)[u] == multiset(s)[u]
    ensures forall u :: u in r <==> u in s && u != v
  {
    if s == [] then []
    else
      assert s == [s[0]] + s[1..];
      if s[0] == v then Without(s[1..], v) else [s[0]] + Without(s[1..], v)
  }

  /** The distinct values of `s`, each once, in order of first occurrence. */
  function Distinct<T(==,!new)>(s: seq<T>): (d: seq<T>)
    ensures forall v :: v in d <==> v in s
    ensures forall i, j :: 0 <= i < j < |d| ==> d[i] != d[j]
    decreases |s|
  {
    if s == [] then []
    else
      var rest := Distinct(Without(s[1..], s[0]));
      assert forall k :: 0 <= k < |rest| ==> rest[k] in rest;
      [s[0]] + rest
  }

  /** How often `v` occurs in `s`. */
  function Count<T(==,!new)>(s: seq<T>, v: T): nat {
    multiset(s)[v]
  }

  /** The `counts` of `np.unique`: one per distinct value, in the order of
      `Distinct`, as reals for the statistics; no bin is empty. */
  function Counts<T(==,!new)>(s: seq<T>): (cs: seq<real>)
    ensures |cs| == |Distinct(s)|
    ensures forall i :: 0 <= i < |cs| ==> cs[i] >= 1.0
  {
    assert forall i :: 0 <= i < |Distinct(s)| ==> Distinct(s)[i] in Distinct(s);
    seq(|Distinct(s)|, i requires 0 <= i < |Distinct(s)| => Count(s, Distinct(s)[i]) as real)
  }

  /** The counts partition the sample: every element lies in exactly one
      bin, so the counts add up to its length. */
  lemma {:induction false} CountsPartition<T(!new)>(s: seq<T>)
    ensures Sum(Counts(s)) == |s| as real
    decreases |s|
  {
    if s != [] {
      var w := Without(s[1..], s[0]);
      CountsPartition(w);
      CountsStep(s);
      var cs := Counts(s);
      assert cs[1..] == Counts(w);
      assert s == [s[0]] + s[1..];
    }
  }

  /** Past the first bin, the counts of `s` are those of the rest of `s`
      with its first value removed. */
  lemma CountsStep<T(!new)>(s: seq<T>)
    requires s != []
    ensures Counts(s) == [Count(s, s[0]) as real] + Counts(Without(s[1..], s[0]))
  {
    CountsTail(s);
    assert Distinct(s)[0] == s[0];
  }

  lemma CountsTail<T(!new)>(s: seq<T>)
    requires s != []
    ensures Counts(s)[1..] == Counts(Without(s[1..], s[0]))
  {
    var w := Without(s[1..], s[0]);
    var cs, cw := Counts(s), Counts(w);
    assert Distinct(s) == [s[0]] + Distinct(w);
    forall i | 0 <= i < |cw|
      ensures cs[i + 1] == cw[i]
    {
      CountsTailAt(s, i);
    }
  }

  lemma CountsTailAt<T(!new)>(s: seq<T>, i: int)
    requires s != []
    requires Distinct(s) == [s[0]] + Distinct(Without(s[1..], s[0]))
    requires 0 <= i < |Distinct(Without(s[1..], s[0]))|
    ensures Counts(s)[i + 1] == Counts(Without(s[1..], s[0]))[i]
  {
    var w := Without(s[1..], s[0]);
    var v := Distinct(w)[i];
    assert Distinct(s)[i + 1] == v;
    CountAfterFirst(s, v);
  }

  /** A value other than the first occurs as often in `s` as in the rest
      of `s` with the first value removed. */
  lemma CountAfterFirst<T(!new)>(s: seq<T>, v: T)
    requires s != [] && v in Distinct(Without(s[1..], s[0]))
    ensures Count(s, v) == Count(Without(s[1..], s[0]), v)
  {
    assert s == [s[0]] + s[1..];
  }

  /** The values among `vs` whose count in `s` exceeds the critical count
      of all the counts of `s`, in the order of `vs`. */
  function Select<T(==,!new)>(vs: seq<T>, s: seq<T>, t: real): (ms: seq<T>)
    ensures forall v :: v in ms <==> v in vs && ExceedsCritical(Count(s, v) as real, Counts(s), t)
  {
    if vs == [] then []
    else if ExceedsCritical(Count(s, vs[0]) as real, Counts(s), t) then [vs[0]] + Select(vs[1..], s, t)
    else Select(vs[1..], s, t)
  }

  /** `values[counts > critical]`: exactly the values of `s` whose count
      exceeds `mean(counts) + 5*std(counts) + t`. */
  function Modes<T(==,!new)>(s: seq<T>, t: real): (ms: seq<T>)
    ensures forall v :: v in ms <==> v in s && ExceedsCritical(Count(s, v) as real, Counts(s), t)
  {
    Select(Distinct(s), s, t)
  }

  /** The count of a value of `s` is one of the counts. */
  lemma CountIsCount<T(!new)>(s: seq<T>, v: T) returns (i: int)
    requires v in s
    ensures 0 <= i < |Counts(s)| && Counts(s)[i] == Count(s, v) as real
  {
    i :| 0 <= i < |Distinct(s)| && Distinct(s)[i] == v;
  }

  /** A selected value occurs more often than the average bin holds, by
      more than the threshold. */
  lemma ModesAboveAverage<T(!new)>(s: seq<T>, t: real, v: T)
    requires v in Modes(s, t)
    ensures Count(s, v) as real > |s| as real / |Distinct(s)| as real + t
  {
    CountsPartition(s);
  }

  /** With at most 26 distinct values and a non-negative threshold nothing
      is selected, however dominant one value is. */
  lemma FewValuesNeverMasked<T(!new)>(s: seq<T>, t: real)
    requires |Distinct(s)| <= 26 && t >= 0.0
    ensures Modes(s, t) == []
  {
    forall v | v in Modes(s, t) ensures false {
      var i := CountIsCount(s, v);
      FewValuesNeverExceed(Counts(s), i, t);
    }
    NoMembers(Modes(s, t));
  }

  lemma NoMembers<T>(s: seq<T>)
    requires forall v :: v !in s
    ensures s == []
  {
    if s != [] {
      HeadIn(s);
      assert false;
    }
  }

  lemma HeadIn<T>(s: seq<T>)
    requires s != []
    ensures s[0] in s
  {
  }

  /** A sample of a single repeated value has one bin, and with a
      non-negative threshold that value is never selected. */
  lemma UniformNeverMasked<T(!new)>(s: seq<T>, t: real)
    requires s != [] && t >= 0.0
    requires forall i :: 0 <= i < |s| ==> s[i] == s[0]
    ensures Modes(s, t) == []
  {
    var w := Without(s[1..], s[0]);
    NoMembers(w);
    assert Distinct(s) == [s[0]];
    FewValuesNeverMasked(s, t);
  }
}
