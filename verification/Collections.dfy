/** Facts about sequences, sets and maps that several modules use. */
module Collections {

  lemma Assoc<T>(a: seq<T>, b: seq<T>, c: seq<T>)
    ensures a + (b + c) == (a + b) + c
  {
  }

  lemma PrefixCons<T>(x: T, s: seq<T>, k: nat)
    requires k <= |s|
    ensures ([x] + s)[..k+1] == [x] + s[..k]
  {
  }

  lemma CutAfter<T>(a: seq<T>, b: seq<T>, m: nat)
    requires m <= |b|
    ensures (a + b)[..|a|+m] == a + b[..m]
  {
  }

  lemma OneMore<T>(x: T, s: set<T>)
    requires x !in s
    ensures |{x} + s| == 1 + |s|
  {
  }

  lemma SubsetSize<T>(a: set<T>, b: set<T>)
    requires a <= b
    ensures |a| <= |b|
  {
    assert b == a + (b - a);
  }

  /** A sequence without repetitions is as long as the set of its elements. */
  lemma {:induction false} DistinctSize<T>(s: seq<T>, t: set<T>)
    requires forall i, j :: 0 <= i < j < |s| ==> s[i] != s[j]
    requires forall x :: x in s <==> x in t
    ensures |s| == |t|
  {
    if s == [] {
      assert t == {};
    } else {
      var rest := s[1..];
      forall x ensures x in rest <==> x in t - {s[0]} {
        if x in rest {
          var j :| 0 <= j < |rest| && rest[j] == x;
          assert s[j+1] == x;
        }
        assert s == [s[0]] + rest;
      }
      DistinctSize(rest, t - {s[0]});
    }
  }

  lemma RemovedSize<T>(m: map<string, T>, k: string)
    requires k in m
    ensures |m - {k}| == |m| - 1 && (m - {k}).Keys == m.Keys - {k}
  {
    assert |m| == |m.Keys| && |m - {k}| == |(m - {k}).Keys|;
  }
}
