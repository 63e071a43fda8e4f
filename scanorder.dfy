/**
 * The order in which a scan made of three nested counting loops around a
 * centre visits cells. The tree handler has two such scans: the 3x3x3
 * neighbour scan (loops over x, then z, then y) and the leaf-clearing sweep
 * (loops over x, then y, then z). A list "in scan order" is strictly
 * increasing in the lexicographic order of the loop counters.
 */
module ScanOrder {
  import opened Seqs
  import opened Voxel

  /** Which axis each of the three nested loops counts, outermost first. */
  datatype Nesting = XZY | XYZ

  type Counters = (int, int, int)

  /** The loop counters, outermost first, at which a scan centred on `o` visits `q`. */
  function CountersOf(n: Nesting, o: Pos, q: Pos): Counters
  {
    match n
    case XZY => (q.x - o.x, q.z - o.z, q.y - o.y)
    case XYZ => (q.x - o.x, q.y - o.y, q.z - o.z)
  }

  /** Lexicographic order on loop counters: the order in which nested loops reach them. */
  predicate LexLess(s: Counters, t: Counters)
  {
    s.0 < t.0 || (s.0 == t.0 && (s.1 < t.1 || (s.1 == t.1 && s.2 < t.2)))
  }

  /** The scan visits `q` before its loop counters reach `t`. */
  predicate VisitedBefore(n: Nesting, o: Pos, q: Pos, t: Counters)
  {
    LexLess(CountersOf(n, o, q), t)
  }

  /** `s` lists cells in the order the scan visits them, none twice. */
  predicate InScanOrder(n: Nesting, o: Pos, s: seq<Pos>)
  {
    forall i, j :: 0 <= i < j < |s| ==> VisitedBefore(n, o, s[i], CountersOf(n, o, s[j]))
  }

  /** Extending a list in scan order by a cell visited after all of its cells keeps it in scan order. */
  lemma AppendInScanOrder(n: Nesting, o: Pos, s: seq<Pos>, q: Pos)
    requires InScanOrder(n, o, s)
    requires forall r :: r in s ==> VisitedBefore(n, o, r, CountersOf(n, o, q))
    ensures InScanOrder(n, o, s + [q])
  {
    forall i, j | 0 <= i < j < |s + [q]|
      ensures VisitedBefore(n, o, (s + [q])[i], CountersOf(n, o, (s + [q])[j]))
    {
      assert (s + [q])[i] == s[i];
      if j == |s| {
        assert s[i] in s;
      }
    }
  }

  /** A list in scan order has no duplicates. */
  lemma InScanOrderDistinct(n: Nesting, o: Pos, s: seq<Pos>)
    requires InScanOrder(n, o, s)
    ensures forall i, j :: 0 <= i < j < |s| ==> s[i] != s[j]
  {
  }

  /** The first cell of a list in scan order is visited before every other cell of the list. */
  lemma FirstVisitedFirst(n: Nesting, o: Pos, s: seq<Pos>, q: Pos)
    requires InScanOrder(n, o, s)
    requires q in s
    ensures q == s[0] || VisitedBefore(n, o, s[0], CountersOf(n, o, q))
  {
    var i :| 0 <= i < |s| && s[i] == q;
    if i > 0 {
      assert VisitedBefore(n, o, s[0], CountersOf(n, o, s[i]));
    }
  }

  /**
   * The scan order fixes a list: two lists in scan order with the same
   * elements are equal.
   */
  lemma {:induction false} InScanOrderUnique(n: Nesting, o: Pos, s: seq<Pos>, t: seq<Pos>)
    requires InScanOrder(n, o, s) && InScanOrder(n, o, t)
    requires forall q :: q in s <==> q in t
    ensures s == t
    decreases |s|
  {
    assert s != [] ==> s[0] in t;
    assert t != [] ==> t[0] in s;
    if s != [] && t != [] {
      FirstVisitedFirst(n, o, s, t[0]);
      FirstVisitedFirst(n, o, t, s[0]);
      assert s[0] == t[0];
      forall q
        ensures q in s[1..] <==> q in t[1..]
      {
        if q in s[1..] {
          var i :| 1 <= i < |s| && s[i] == q;
          assert q != s[0] && q in t;
        }
        if q in t[1..] {
          var j :| 1 <= j < |t| && t[j] == q;
          assert q != t[0] && q in s;
        }
      }
      InScanOrderUnique(n, o, s[1..], t[1..]);
      assert s == [s[0]] + s[1..] && t == [t[0]] + t[1..];
    }
  }

  /** Dropping cells from a list in scan order leaves a list in scan order. */
  lemma {:induction false} InScanOrderWithout(n: Nesting, o: Pos, s: seq<Pos>, ex: set<Pos>)
    requires InScanOrder(n, o, s)
    ensures InScanOrder(n, o, Without(s, ex))
    decreases |s|
  {
    if s != [] {
      var rest := Without(s[1..], ex);
      assert InScanOrder(n, o, s[1..]) by {
        forall i, j | 0 <= i < j < |s[1..]|
          ensures VisitedBefore(n, o, s[1..][i], CountersOf(n, o, s[1..][j]))
        {
          assert s[1..][i] == s[i + 1] && s[1..][j] == s[j + 1];
        }
      }
      InScanOrderWithout(n, o, s[1..], ex);
      if s[0] !in ex {
        forall i, j | 0 <= i < j < |[s[0]] + rest|
          ensures VisitedBefore(n, o, ([s[0]] + rest)[i], CountersOf(n, o, ([s[0]] + rest)[j]))
        {
          var r := ([s[0]] + rest)[j];
          assert r == rest[j - 1];
          if i == 0 {
            assert r in s[1..];
            var k :| 0 <= k < |s[1..]| && s[1..][k] == r;
            assert s[k + 1] == r;
          } else {
            assert ([s[0]] + rest)[i] == rest[i - 1];
          }
        }
      }
    }
  }
}
