/** The replica set of a selection, as a function of the ring's instance
    indexes: walking clockwise from the owner point, collect the distinct
    instance indexes other than the owner's, in order of first occurrence,
    stopping once the requested number is reached. */
module ReplicaWalk {

  /** The instance indexes met walking clockwise from ring position r, r itself
      excluded: positions (r+1)%n, (r+2)%n, ..., (r+n-1)%n. */
  function ClockwiseFrom(idx: seq<int>, r: nat): (ws: seq<int>)
    requires r < |idx|
    ensures |ws| == |idx| - 1
  {
    seq(|idx| - 1, k requires 0 <= k < |idx| - 1 => idx[(r + 1 + k) % |idx|])
  }

  /** Where step k of the walk from r lands: one full turn never wraps twice. */
  lemma WalkStep(r: nat, k: nat, n: nat)
    requires r < n && k < n - 1
    ensures var p := (r + 1 + k) % n;
      p == (if r + 1 + k < n then r + 1 + k else r + 1 + k - n) && p != r
  {
    var q := r + 1 + k;
    if q < n {
      assert q % n == q;
    } else {
      assert q == n + (q - n) && 0 <= q - n < n;
      assert q % n == q - n;
    }
  }

  /** The walk visits every ring position except the owner's, and nothing else. */
  lemma ClockwiseFromVisitsOthers(idx: seq<int>, r: nat, x: int)
    requires r < |idx|
    ensures x in ClockwiseFrom(idx, r) <==> exists p :: 0 <= p < |idx| && p != r && idx[p] == x
  {
    var n := |idx|;
    var ws := ClockwiseFrom(idx, r);
    if x in ws {
      var k :| 0 <= k < |ws| && ws[k] == x;
      WalkStep(r, k, n);
      var p := (r + 1 + k) % n;
      assert idx[p] == x;
    }
    if p :| 0 <= p < n && p != r && idx[p] == x {
      var k := if p > r then p - r - 1 else p + n - r - 1;
      WalkStep(r, k, n);
      assert ws[k] == x;
    }
  }

  /** Position of the first occurrence of x in s. */
  function IndexOf(s: seq<int>, x: int): (i: nat)
    requires x in s
    ensures i < |s| && s[i] == x
    ensures forall k :: 0 <= k < i ==> s[k] != x
  {
    if s[0] == x then 0 else 1 + IndexOf(s[1..], x)
  }

  ghost predicate Distinct(s: seq<int>)
  {
    forall i, j :: 0 <= i < j < |s| ==> s[i] != s[j]
  }

  /** What the loop of selectByHashValue accumulates over ws when nothing stops it:
      each element that is not the owner and not yet collected is appended. */
  function FirstOccurrences(ws: seq<int>, owner: int): (d: seq<int>)
    ensures |d| <= |ws|
    ensures owner !in d
  {
    if ws == [] then []
    else
      var d := FirstOccurrences(ws[..|ws| - 1], owner);
      var x := ws[|ws| - 1];
      if x == owner || x in d then d else d + [x]
  }

  /** The replica indexes for an owner at ring position r and a requested count. */
  function Replicas(idx: seq<int>, r: nat, count: nat): (rs: seq<int>)
    requires r < |idx|
    ensures |rs| <= count && |rs| < |idx|
    ensures idx[r] !in rs
  {
    var d := FirstOccurrences(ClockwiseFrom(idx, r), idx[r]);
    if count <= |d| then d[..count] else d
  }

  /** The distinct instance indexes on the ring other than the owner's. */
  ghost function OtherInstances(idx: seq<int>, r: nat): set<int>
    requires r < |idx|
  {
    set p | 0 <= p < |idx| && idx[p] != idx[r] :: idx[p]
  }

  lemma {:induction false} FirstOccurrencesMembers(ws: seq<int>, owner: int)
    ensures forall x :: x in FirstOccurrences(ws, owner) <==> x in ws && x != owner
  {
    if ws != [] {
      var init := ws[..|ws| - 1];
      FirstOccurrencesMembers(init, owner);
      assert ws == init + [ws[|ws| - 1]];
    }
  }

  lemma {:induction false} FirstOccurrencesDistinct(ws: seq<int>, owner: int)
    ensures Distinct(FirstOccurrences(ws, owner))
  {
    if ws != [] {
      FirstOccurrencesDistinct(ws[..|ws| - 1], owner);
    }
  }

  /** Every element of d occurs in ws, and earlier elements of d first occur earlier in ws. */
  ghost predicate InWalkOrder(d: seq<int>, ws: seq<int>)
  {
    && (forall i :: 0 <= i < |d| ==> d[i] in ws)
    && (forall i, j :: 0 <= i < j < |d| && d[i] in ws && d[j] in ws ==> IndexOf(ws, d[i]) < IndexOf(ws, d[j]))
  }

  /** Collected indexes appear in the order of their first occurrence in the walk. */
  lemma {:induction false} FirstOccurrencesOrdered(ws: seq<int>, owner: int)
    ensures InWalkOrder(FirstOccurrences(ws, owner), ws)
  {
    if ws != [] {
      var init := ws[..|ws| - 1];
      var y := ws[|ws| - 1];
      assert ws == init + [y];
      FirstOccurrencesOrdered(init, owner);
      FirstOccurrencesMembers(init, owner);
      var d0 := FirstOccurrences(init, owner);
      var d := FirstOccurrences(ws, owner);
      assert d0 <= d;
      forall i, j | 0 <= i < j < |d| ensures d[i] in ws && d[j] in ws && IndexOf(ws, d[i]) < IndexOf(ws, d[j]) {
        assert d[i] == d0[i] && d0[i] in init;
        IndexOfExtend(init, y, d[i]);
        if j < |d0| {
          assert d[j] == d0[j] && d0[j] in init;
          IndexOfExtend(init, y, d[j]);
          assert InWalkOrder(d0, init);
          assert IndexOf(init, d0[i]) < IndexOf(init, d0[j]);
        } else {
          assert d[j] == y && y !in init;
          IndexOfAppended(init, y);
        }
      }
    }
  }

  lemma IndexOfExtend(s: seq<int>, y: int, x: int)
    requires x in s
    ensures x in s + [y] && IndexOf(s + [y], x) == IndexOf(s, x)
  {
    var i := IndexOf(s, x);
    var j := IndexOf(s + [y], x);
    assert (s + [y])[i] == x;
    assert j <= i;
    assert s[j] == x;
  }

  lemma IndexOfAppended(s: seq<int>, y: int)
    requires y !in s
    ensures IndexOf(s + [y], y) == |s|
  {
    var t := s + [y];
    assert t[|s|] == y;
    assert forall k :: 0 <= k < |s| ==> t[k] == s[k];
  }

  /** Stopping the walk early yields a prefix of what the full walk collects. */
  lemma {:induction false} FirstOccurrencesPrefix(ws: seq<int>, owner: int, m: nat)
    requires m <= |ws|
    ensures FirstOccurrences(ws[..m], owner) <= FirstOccurrences(ws, owner)
    decreases |ws| - m
  {
    if m < |ws| {
      var init := ws[..|ws| - 1];
      assert ws[..m] == init[..m];
      FirstOccurrencesPrefix(init, owner, m);
    } else {
      assert ws[..m] == ws;
    }
  }

  lemma {:induction false} DistinctCardinality(s: seq<int>)
    requires Distinct(s)
    ensures |set x | x in s| == |s|
  {
    if s != [] {
      var init := s[..|s| - 1];
      var y := s[|s| - 1];
      assert s == init + [y];
      DistinctCardinality(init);
      assert (set x | x in s) == (set x | x in init) + {y};
      assert y !in (set x | x in init);
    }
  }

  /** The replicas are pairwise distinct instance indexes, none of them the owner's,
      at most `count` of them, each the instance index of some other ring point. */
  lemma ReplicasWellFormed(idx: seq<int>, r: nat, count: nat)
    requires r < |idx|
    ensures var rs := Replicas(idx, r, count);
      && Distinct(rs)
      && |rs| <= count
      && (forall i :: 0 <= i < |rs| ==> rs[i] != idx[r])
      && (forall i :: 0 <= i < |rs| ==> exists p :: 0 <= p < |idx| && p != r && idx[p] == rs[i])
  {
    var ws := ClockwiseFrom(idx, r);
    var d := FirstOccurrences(ws, idx[r]);
    var rs := Replicas(idx, r, count);
    FirstOccurrencesDistinct(ws, idx[r]);
    FirstOccurrencesMembers(ws, idx[r]);
    assert rs <= d;
    forall i | 0 <= i < |rs| ensures rs[i] != idx[r] && exists p :: 0 <= p < |idx| && p != r && idx[p] == rs[i] {
      assert rs[i] == d[i] && d[i] in d;
      ClockwiseFromVisitsOthers(idx, r, rs[i]);
    }
  }

  /** Replicas are in clockwise order of first occurrence after the owner: a
      replica listed earlier is met earlier on the walk. */
  lemma ReplicasClockwiseOrder(idx: seq<int>, r: nat, count: nat)
    requires r < |idx|
    ensures InWalkOrder(Replicas(idx, r, count), ClockwiseFrom(idx, r))
  {
    var ws := ClockwiseFrom(idx, r);
    var d := FirstOccurrences(ws, idx[r]);
    var rs := Replicas(idx, r, count);
    FirstOccurrencesOrdered(ws, idx[r]);
    forall i, j | 0 <= i < j < |rs| ensures rs[i] in ws && rs[j] in ws && IndexOf(ws, rs[i]) < IndexOf(ws, rs[j]) {
      assert rs[i] == d[i] && rs[j] == d[j];
      assert InWalkOrder(d, ws);
    }
  }

  /** No replica is skipped: the walk never passes over a new non-owner instance
      while collecting, so the number of replicas is the requested count or, if
      the ring holds fewer, every other instance. */
  lemma ReplicasCount(idx: seq<int>, r: nat, count: nat)
    requires r < |idx|
    ensures var others := OtherInstances(idx, r);
      |Replicas(idx, r, count)| == if count <= |others| then count else |others|
  {
    var ws := ClockwiseFrom(idx, r);
    var d := FirstOccurrences(ws, idx[r]);
    FirstOccurrencesMembers(ws, idx[r]);
    FirstOccurrencesDistinct(ws, idx[r]);
    DistinctCardinality(d);
    var others := OtherInstances(idx, r);
    forall x ensures x in (set y | y in d) <==> x in others {
      ClockwiseFromVisitsOthers(idx, r, x);
      if x in others {
        var p :| 0 <= p < |idx| && idx[p] != idx[r] && idx[p] == x;
        assert p != r;
      }
    }
    assert (set y | y in d) == others;
  }

  /** Every non-owner element of ws met before an element of rs is an earlier element of rs. */
  ghost predicate NoneSkipped(rs: seq<int>, ws: seq<int>, owner: int)
  {
    forall j, k :: 0 <= j < |rs| && 0 <= k < |ws| && ws[k] != owner && rs[j] in ws && k < IndexOf(ws, rs[j]) ==>
      ws[k] in rs[..j]
  }

  /** No instance is skipped: a non-owner instance met on the walk before a
      replica is itself an earlier replica, so the replicas are the first
      `count` distinct non-owner instances clockwise. */
  lemma ReplicasNoneSkipped(idx: seq<int>, r: nat, count: nat)
    requires r < |idx|
    ensures NoneSkipped(Replicas(idx, r, count), ClockwiseFrom(idx, r), idx[r])
  {
    var ws := ClockwiseFrom(idx, r);
    var d := FirstOccurrences(ws, idx[r]);
    var rs := Replicas(idx, r, count);
    FirstOccurrencesMembers(ws, idx[r]);
    FirstOccurrencesOrdered(ws, idx[r]);
    forall j, k | 0 <= j < |rs| && 0 <= k < |ws| && ws[k] != idx[r] && rs[j] in ws && k < IndexOf(ws, rs[j])
      ensures ws[k] in rs[..j]
    {
      var x := ws[k];
      assert rs[j] == d[j];
      assert IndexOf(ws, x) <= k;
      assert x in d;
      var m :| 0 <= m < |d| && d[m] == x;
      assert InWalkOrder(d, ws);
      assert m < j;
      assert rs[m] == x;
      assert rs[..j][m] == x;
    }
  }

  /** When fewer than `count` replicas are found, every other instance on the ring is among them. */
  lemma ReplicasComplete(idx: seq<int>, r: nat, count: nat, p: nat)
    requires r < |idx| && p < |idx| && idx[p] != idx[r]
    requires |Replicas(idx, r, count)| < count
    ensures idx[p] in Replicas(idx, r, count)
  {
    var ws := ClockwiseFrom(idx, r);
    FirstOccurrencesMembers(ws, idx[r]);
    ClockwiseFromVisitsOthers(idx, r, idx[p]);
  }

  /** An example: two instances A (0) and B (1) on points with hashes
      10, 30, 50, 80: the first replica of B's point at position 1 is A, and
      asking for more replicas than there are other instances yields just A. */
  lemma ReplicasExample()
    ensures Replicas([0, 1, 0, 1], 1, 1) == [0]
    ensures Replicas([0, 1, 0, 1], 1, 3) == [0]
  {
    var ws := ClockwiseFrom([0, 1, 0, 1], 1);
    assert ws[0] == 0 && ws[1] == 1 && ws[2] == 0;
    assert ws == [0, 1, 0];
    assert ws[..2] == [0, 1] && ws[..2][..1] == [0] && ws[..2][..1][..0] == [];
    assert FirstOccurrences([0], 1) == [0];
    assert FirstOccurrences([0, 1], 1) == [0];
    assert FirstOccurrences(ws, 1) == [0];
  }
}
