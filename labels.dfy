/** Cluster-label vectors: a vector `s` assigns to point `k` the label `s[k]`;
    two points are in one cluster iff they carry the same label. */
module Labels {

  /** The labels that occur in `s`. */
  function Values(s: seq<int>): set<int> {
    set x | x in s
  }

  /** The number of distinct clusters of `s`. */
  function ClusterCount(s: seq<int>): nat {
    |Values(s)|
  }

  /** `S` holds exactly the labels `0 .. c-1`. */
  ghost predicate IsLabelRange(S: set<int>, c: int) {
    forall m :: m in S <==> 0 <= m < c
  }

  /** Every point labelled `k` for itself before any merge. */
  function Identity(n: nat): seq<int> {
    seq(n, k => k)
  }

  /** Every label is the index of a point that carries that same label (a "root"). */
  predicate RootLabelled(s: seq<int>) {
    forall k :: 0 <= k < |s| ==> 0 <= s[k] < |s| && s[s[k]] == s[k]
  }

  /** Points that share a label in `s` still share one in `t`. */
  predicate Coarser(s: seq<int>, t: seq<int>)
    requires |s| == |t|
  {
    forall i, j :: 0 <= i < |s| && 0 <= j < |s| && s[i] == s[j] ==> t[i] == t[j]
  }

  /** `s` and `t` induce the same partition of the points. */
  predicate SamePartition(s: seq<int>, t: seq<int>)
    requires |s| == |t|
  {
    forall i, j :: 0 <= i < |s| && 0 <= j < |s| ==> (s[i] == s[j] <==> t[i] == t[j])
  }

  /** Every entry equal to `gone` becomes `keep`; every other entry is kept. */
  function Rename(s: seq<int>, gone: int, keep: int): seq<int> {
    seq(|s|, k requires 0 <= k < |s| => if s[k] == gone then keep else s[k])
  }

  lemma {:induction false} RangeSize(S: set<int>, c: nat)
    requires IsLabelRange(S, c)
    ensures |S| == c
  {
    if c > 0 {
      assert c - 1 in S;
      RangeSize(S - {c - 1}, c - 1);
    } else {
      assert forall m :: m !in S;
    }
  }

  lemma IdentityClusters(n: nat)
    ensures RootLabelled(Identity(n))
    ensures IsLabelRange(Values(Identity(n)), n)
    ensures ClusterCount(Identity(n)) == n
  {
    var s := Identity(n);
    forall m | 0 <= m < n ensures m in Values(s) {
      assert s[m] == m;
    }
    RangeSize(Values(s), n);
  }

  lemma ValuesSnoc(p: seq<int>, x: int)
    ensures Values(p + [x]) == Values(p) + {x}
  {
    forall y | y in Values(p) ensures y in Values(p + [x]) {
      var k :| 0 <= k < |p| && p[k] == y;
      assert (p + [x])[k] == y;
    }
    assert (p + [x])[|p|] == x;
  }

  lemma AllSameOneCluster(s: seq<int>)
    requires |s| > 0 && forall k :: 0 <= k < |s| ==> s[k] == s[0]
    ensures Values(s) == {s[0]}
  {
  }

  /** A label vector with two or more clusters has two differently labelled points. */
  lemma TwoClustersDiffer(s: seq<int>)
    requires ClusterCount(s) >= 2
    ensures exists i, j :: 0 <= i < j < |s| && s[i] != s[j]
  {
    if s != [] && exists k :: 0 <= k < |s| && s[k] != s[0] {
      var k :| 0 <= k < |s| && s[k] != s[0];
      assert 0 < k;
    } else if s != [] {
      AllSameOneCluster(s);
    }
  }

  /** Merging the cluster `gone` into the cluster `keep` (both roots, distinct):
      the result is still root-labelled, it is coarser, and exactly one label disappears. */
  lemma RenameMerges(s: seq<int>, gone: int, keep: int)
    requires RootLabelled(s)
    requires keep in s && gone in s && keep != gone
    ensures |Rename(s, gone, keep)| == |s|
    ensures RootLabelled(Rename(s, gone, keep))
    ensures Coarser(s, Rename(s, gone, keep))
    ensures Values(Rename(s, gone, keep)) == Values(s) - {gone}
    ensures ClusterCount(Rename(s, gone, keep)) == ClusterCount(s) - 1
  {
    var t := Rename(s, gone, keep);
    var ik :| 0 <= ik < |s| && s[ik] == keep;
    assert s[keep] == keep;
    forall x | x in Values(t) ensures x in Values(s) - {gone} {
      var k :| 0 <= k < |t| && t[k] == x;
      if s[k] == gone { assert x == s[ik]; }
    }
    forall x | x in Values(s) - {gone} ensures x in Values(t) {
      var k :| 0 <= k < |s| && s[k] == x;
      assert t[k] == x;
    }
    assert Values(t) == Values(s) - {gone};
  }

  /** The index of the first occurrence of `v` in `s`. */
  function FirstIndex(s: seq<int>, v: int): (k: nat)
    requires v in s
    ensures k < |s| && s[k] == v && v !in s[..k]
  {
    if s[0] == v then 0
    else
      var k := FirstIndex(s[1..], v);
      assert s[..k + 1] == [s[0]] + s[1..][..k];
      1 + k
  }

  lemma FirstIndexUnique(s: seq<int>, v: int, k: nat)
    requires k < |s| && s[k] == v && v !in s[..k]
    ensures FirstIndex(s, v) == k
  {
  }

  /** Dense renumbering in order of first appearance: point `k` gets the number of
      distinct labels met before the first point carrying its label. */
  function Renumber(s: seq<int>): seq<int> {
    seq(|s|, k requires 0 <= k < |s| => ClusterCount(s[..FirstIndex(s, s[k])]))
  }

  lemma RenumberPrefix(s: seq<int>, i: nat)
    requires i <= |s|
    ensures Renumber(s)[..i] == Renumber(s[..i])
  {
    forall k | 0 <= k < i ensures Renumber(s)[k] == Renumber(s[..i])[k] {
      var f := FirstIndex(s, s[k]);
      FirstIndexUnique(s[..i], s[k], f);
      assert s[..i][..f] == s[..f];
    }
  }

  /** A label occurring first at `a` makes the prefix count grow past `a`. */
  lemma PrefixCountGrows(s: seq<int>, a: nat, b: nat)
    requires a < b <= |s| && s[a] !in s[..a]
    ensures ClusterCount(s[..a]) < ClusterCount(s[..b])
  {
    var A, B := Values(s[..a]), Values(s[..b]);
    forall x | x in A ensures x in B {
      var k :| 0 <= k < a && s[..a][k] == x;
      assert s[..b][k] == x;
    }
    assert s[..b][a] == s[a];
    assert s[a] in B - A;
    assert A + (B - A) == B;
    assert |B - A| > 0;
  }

  /** Renumbering `p + [x]` renumbers `p` and gives `x` the number of its first
      occurrence, or the next fresh number if `x` is new. */
  lemma RenumberSnoc(p: seq<int>, x: int)
    ensures Renumber(p + [x]) ==
      Renumber(p) + [if x in p then Renumber(p)[FirstIndex(p, x)] else ClusterCount(p)]
  {
    var s := p + [x];
    RenumberPrefix(s, |p|);
    assert s[..|p|] == p;
    if x in p {
      var f := FirstIndex(p, x);
      FirstIndexUnique(s, x, f);
      assert s[..f] == p[..f];
    } else {
      FirstIndexUnique(s, x, |p|);
    }
  }

  lemma RangeExtend(S: set<int>, c: int, y: int)
    requires c >= 0 && IsLabelRange(S, c)
    ensures y in S ==> IsLabelRange(S + {y}, c)
    ensures y == c ==> IsLabelRange(S + {y}, c + 1)
  {
  }

  /** The renumbered labels of a vector with `c` clusters are exactly `0 .. c-1`. */
  lemma {:induction false} RenumberValues(s: seq<int>)
    ensures IsLabelRange(Values(Renumber(s)), ClusterCount(s))
    decreases |s|
  {
    if s == [] {
      assert Values(Renumber(s)) == {};
      assert Values(s) == {};
    } else {
      var p, x := s[..|s| - 1], s[|s| - 1];
      assert s == p + [x];
      RenumberValues(p);
      RenumberSnoc(p, x);
      var rp := Renumber(p);
      var y := if x in p then rp[FirstIndex(p, x)] else ClusterCount(p);
      assert Renumber(s) == rp + [y];
      ValuesSnoc(rp, y);
      ValuesSnoc(p, x);
      RangeExtend(Values(rp), ClusterCount(p), y);
      if x in p {
        assert Values(s) == Values(p);
        assert y in Values(rp);
        assert IsLabelRange(Values(rp) + {y}, ClusterCount(s));
      } else {
        assert x !in Values(p);
        assert ClusterCount(s) == ClusterCount(p) + 1;
        assert y == ClusterCount(p);
        assert IsLabelRange(Values(rp) + {y}, ClusterCount(s));
      }
    }
  }

  /** Renumbering keeps the partition: equal labels before iff equal labels after. */
  lemma RenumberSamePartition(s: seq<int>)
    ensures |Renumber(s)| == |s|
    ensures SamePartition(s, Renumber(s))
  {
    var r := Renumber(s);
    forall i, j | 0 <= i < |s| && 0 <= j < |s| && s[i] != s[j] ensures r[i] != r[j] {
      var fi, fj := FirstIndex(s, s[i]), FirstIndex(s, s[j]);
      if fi < fj {
        PrefixCountGrows(s, fi, fj);
      } else {
        PrefixCountGrows(s, fj, fi);
      }
    }
  }

  /** The output of renumbering is dense in order of first appearance: every prefix
      of it uses exactly the labels `0 .. c-1`, where `c` is its number of clusters,
      and the cluster count itself is unchanged. */
  lemma RenumberDense(s: seq<int>)
    ensures ClusterCount(Renumber(s)) == ClusterCount(s)
    ensures forall i :: 0 <= i <= |s| ==>
      IsLabelRange(Values(Renumber(s)[..i]), ClusterCount(Renumber(s)[..i]))
    ensures |s| > 0 ==> Renumber(s)[0] == 0
  {
    RenumberValues(s);
    RangeSize(Values(Renumber(s)), ClusterCount(s));
    forall i | 0 <= i <= |s|
      ensures IsLabelRange(Values(Renumber(s)[..i]), ClusterCount(Renumber(s)[..i]))
    {
      RenumberPrefix(s, i);
      RenumberValues(s[..i]);
      RangeSize(Values(Renumber(s[..i])), ClusterCount(s[..i]));
    }
    if |s| > 0 {
      FirstIndexUnique(s, s[0], 0);
      assert s[..0] == [];
      assert Values(s[..0]) == {};
    }
  }
}
