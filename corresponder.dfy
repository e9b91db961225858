/**
 * The triplet-based correspondence enumerator of the pharmacophore search.
 *
 * A query is a list of triplet positions; for each position the database
 * search supplies, per molecule conformation, the list of molecule point
 * triples that match that query triplet.  The enumerator chooses one match
 * per position, counting positions down, and keeps only choices under which
 * query points map one-to-one onto molecule points.  At each complete choice
 * an (abstract) geometric acceptance test decides whether to emit a result.
 */
module Corresponder {

  /** Molecule point indices are bit positions of a 128-bit mask. */
  const MaskBits: nat := 128

  datatype Coord = Coord(x: real, y: real, z: real)

  /** One point of a query triplet: the query point's index, its position and its weight (1/r^2). */
  datatype TripletPoint = TripletPoint(index: nat, point: Coord, radiusWeight: real)

  /** A query triplet in one point order: three triplet points. */
  type Triplet = seq<TripletPoint>

  /**
   * One molecule triple matching a query triplet: which point order of the
   * triplet it matches, the three molecule point indices and their (decoded)
   * coordinates.
   */
  datatype MatchInfo = MatchInfo(whichTripOrder: nat, indices: seq<nat>, coords: seq<Coord>)

  /** All triple matches of one conformation, one list per query triplet position. */
  datatype TripletMatch = TripletMatch(location: nat, matches: seq<seq<MatchInfo>>)

  /**
   * An emitted result: the conformation it belongs to, the correspondence
   * (query point -> molecule point, -1 for none) and the coordinate and
   * weight lists the RMSD of the result is computed from.
   */
  datatype CorResult = CorResult(location: nat, cor: seq<int>,
                                 pointCoords: seq<real>, molCoords: seq<real>, weights: seq<real>)

  // ---------------------------------------------------------------------------
  // Well-formed inputs

  /** Three query points, pairwise distinct, all below numPoints. */
  predicate WellFormedTriplet(t: Triplet, numPoints: nat)
  {
    && |t| == 3
    && (forall k :: 0 <= k < 3 ==> t[k].index < numPoints)
    && forall j, k :: 0 <= j < k < 3 ==> t[j].index != t[k].index
  }

  /** Three pairwise distinct molecule points that fit in the mask, with three coordinates. */
  predicate InfoShape(info: MatchInfo)
  {
    && |info.indices| == 3 && |info.coords| == 3
    && (forall k :: 0 <= k < 3 ==> info.indices[k] < MaskBits)
    && forall j, k :: 0 <= j < k < 3 ==> info.indices[j] != info.indices[k]
  }

  predicate WellFormedMatch(m: TripletMatch, triplets: seq<seq<Triplet>>)
  {
    && |m.matches| >= |triplets|
    && forall pos, i :: 0 <= pos < |triplets| && 0 <= i < |m.matches[pos]| ==>
         InfoShape(m.matches[pos][i]) && m.matches[pos][i].whichTripOrder < |triplets[pos]|
  }

  // ---------------------------------------------------------------------------
  // Correspondences

  /** Every entry is -1 (unmatched) or a molecule point index. */
  predicate IsCor(c: seq<int>)
  {
    forall q :: 0 <= q < |c| ==> -1 <= c[q] < MaskBits
  }

  /** Distinct matched query points map to distinct molecule points. */
  predicate Injective(c: seq<int>)
  {
    forall q1, q2 :: 0 <= q1 < |c| && 0 <= q2 < |c| && q1 != q2 && c[q1] >= 0 ==> c[q1] != c[q2]
  }

  /** The molecule points currently used by the correspondence. */
  function Matched(c: seq<int>): (used: set<nat>)
  {
    set q | 0 <= q < |c| && c[q] >= 0 :: c[q] as nat
  }

  /** c keeps every assignment of base. */
  predicate Extends(c: seq<int>, base: seq<int>)
  {
    |c| == |base| && forall q :: 0 <= q < |base| && base[q] >= 0 ==> c[q] == base[q]
  }

  function Unmatched(n: nat): (r: seq<int>)
    ensures |r| == n && forall q :: 0 <= q < n ==> r[q] == -1
  {
    seq(n, _ => -1)
  }

  /** c maps the k-th point of trip to the k-th molecule point of info. */
  predicate AgreesAt(c: seq<int>, trip: Triplet, info: MatchInfo, k: nat)
  {
    k < |trip| && k < |info.indices| && trip[k].index < |c| && c[trip[k].index] == info.indices[k]
  }

  predicate Agrees(c: seq<int>, trip: Triplet, info: MatchInfo)
  {
    forall k :: 0 <= k < 3 ==> AgreesAt(c, trip, info, k)
  }

  /** Some match of this triplet position is realised by c. */
  predicate MatchedBy(c: seq<int>, trips: seq<Triplet>, infos: seq<MatchInfo>)
  {
    exists i :: 0 <= i < |infos| && infos[i].whichTripOrder < |trips| && Agrees(c, trips[infos[i].whichTripOrder], infos[i])
  }

  /** Every triplet position 0..pos is realised by c. */
  predicate Realizes(c: seq<int>, triplets: seq<seq<Triplet>>, m: TripletMatch, pos: int)
  {
    forall p :: 0 <= p <= pos && p < |triplets| && p < |m.matches| ==> MatchedBy(c, triplets[p], m.matches[p])
  }

  // ---------------------------------------------------------------------------
  // The candidate check (one triplet match against the current correspondence)

  /**
   * The k-th point of a candidate is acceptable: its query point is unmatched
   * and its molecule point unused, or it is already matched to that very
   * molecule point.
   */
  predicate PointCompatible(c: seq<int>, used: set<nat>, trip: Triplet, info: MatchInfo, k: nat)
    requires k < |trip| && k < |info.indices| && trip[k].index < |c|
  {
    var cur := c[trip[k].index];
    (cur < 0 ==> info.indices[k] !in used) && (cur >= 0 ==> cur == info.indices[k])
  }

  predicate Compatible(c: seq<int>, used: set<nat>, trip: Triplet, info: MatchInfo)
    requires WellFormedTriplet(trip, |c|) && |info.indices| == 3
  {
    forall k :: 0 <= k < 3 ==> PointCompatible(c, used, trip, info, k)
  }

  /**
   * nq/nm record, for the k-th point of the candidate, the query and
   * molecule point that are new (-1 where the query point was already
   * matched).
   */
  predicate NewPoint(c: seq<int>, used: set<nat>, trip: Triplet, info: MatchInfo, nq: int, nm: int, k: nat)
    requires k < |trip| && k < |info.indices| && trip[k].index < |c|
  {
    var q := trip[k].index;
    var m := info.indices[k];
    if c[q] < 0 then m !in used && nq == q && nm == m
    else c[q] == m && nq == -1 && nm == -1
  }

  predicate Candidate(c: seq<int>, used: set<nat>, trip: Triplet, info: MatchInfo, newq: seq<int>, newm: seq<int>)
    requires WellFormedTriplet(trip, |c|) && |info.indices| == 3
  {
    && |newq| == 3 && |newm| == 3
    && (forall k :: 0 <= k < 3 ==> newq[k] < |c|)
    && (forall k :: 0 <= k < 3 ==> NewPoint(c, used, trip, info, newq[k], newm[k], k))
  }

  /**
   * The check rejects nothing that could be completed: if some injective
   * extension of c realises the candidate, the candidate is compatible.
   */
  lemma CheckIsComplete(c: seq<int>, c': seq<int>, trip: Triplet, info: MatchInfo)
    requires IsCor(c) && WellFormedTriplet(trip, |c|) && |info.indices| == 3
    requires Extends(c', c) && Injective(c') && Agrees(c', trip, info)
    ensures Compatible(c, Matched(c), trip, info)
  {
    forall k | 0 <= k < 3
      ensures PointCompatible(c, Matched(c), trip, info, k)
    {
      assert AgreesAt(c', trip, info, k);
      var q := trip[k].index;
      var m := info.indices[k];
    }
  }

  // ---------------------------------------------------------------------------
  // The assignment and its undo, as functions of the first p candidate points

  /** The correspondence after the new points among the first p are set. */
  function AssignAll(c: seq<int>, newq: seq<int>, newm: seq<int>, p: nat): (r: seq<int>)
    requires p <= |newq| && p <= |newm|
    requires forall k :: 0 <= k < p ==> newq[k] < |c|
    ensures |r| == |c|
  {
    if p == 0 then c
    else
      var prev := AssignAll(c, newq, newm, p - 1);
      if newq[p - 1] >= 0 then prev[newq[p - 1] := newm[p - 1]] else prev
  }

  /** The correspondence after the new points among the first p are reset to -1. */
  function ClearAll(c: seq<int>, newq: seq<int>, p: nat): (r: seq<int>)
    requires p <= |newq|
    requires forall k :: 0 <= k < p ==> newq[k] < |c|
    ensures |r| == |c|
  {
    if p == 0 then c
    else
      var prev := ClearAll(c, newq, p - 1);
      if newq[p - 1] >= 0 then prev[newq[p - 1] := -1] else prev
  }

  /** How many of the first p candidate points are new. */
  function NewCount(newq: seq<int>, p: nat): (n: nat)
    requires p <= |newq|
    ensures n <= p
  {
    if p == 0 then 0 else NewCount(newq, p - 1) + (if newq[p - 1] >= 0 then 1 else 0)
  }

  /** The molecule points that the first p candidate points newly use. */
  function NewSet(newm: seq<int>, p: nat): (used: set<nat>)
    requires p <= |newm|
  {
    if p == 0 then {} else NewSet(newm, p - 1) + (if newm[p - 1] >= 0 then {newm[p - 1] as nat} else {})
  }

  function CoordList(c: Coord): (r: seq<real>)
  {
    [c.x, c.y, c.z]
  }

  /** Molecule coordinates pushed for the new points among the first p. */
  function MolPush(info: MatchInfo, newq: seq<int>, p: nat): (r: seq<real>)
    requires p <= |newq| && p <= |info.coords|
    ensures |r| == 3 * NewCount(newq, p)
  {
    if p == 0 then []
    else MolPush(info, newq, p - 1) + (if newq[p - 1] >= 0 then CoordList(info.coords[p - 1]) else [])
  }

  /** Query point coordinates pushed for the new points among the first p. */
  function PointPush(trip: Triplet, newq: seq<int>, p: nat): (r: seq<real>)
    requires p <= |newq| && p <= |trip|
    ensures |r| == 3 * NewCount(newq, p)
  {
    if p == 0 then []
    else PointPush(trip, newq, p - 1) + (if newq[p - 1] >= 0 then CoordList(trip[p - 1].point) else [])
  }

  /** Weights pushed for the new points among the first p. */
  function WeightPush(trip: Triplet, newq: seq<int>, p: nat): (r: seq<real>)
    requires p <= |newq| && p <= |trip|
    ensures |r| == NewCount(newq, p)
  {
    if p == 0 then []
    else WeightPush(trip, newq, p - 1) + (if newq[p - 1] >= 0 then [trip[p - 1].radiusWeight] else [])
  }

  /** The query points of trip that c leaves unmatched, -1 at the others. */
  function NewQ(c: seq<int>, trip: Triplet): (r: seq<int>)
    requires WellFormedTriplet(trip, |c|)
    ensures |r| == 3 && forall k :: 0 <= k < 3 ==> r[k] < |c|
  {
    seq(3, k requires 0 <= k < 3 => if c[trip[k].index] < 0 then trip[k].index as int else -1)
  }

  /** The molecule points info proposes for the query points c leaves unmatched, -1 at the others. */
  function NewM(c: seq<int>, trip: Triplet, info: MatchInfo): (r: seq<int>)
    requires WellFormedTriplet(trip, |c|) && |info.indices| == 3
    ensures |r| == 3
  {
    seq(3, k requires 0 <= k < 3 => if c[trip[k].index] < 0 then info.indices[k] as int else -1)
  }

  /** A state of the search: the correspondence and the three stacks. */
  datatype Node = Node(cor: seq<int>, pointCoords: seq<real>, molCoords: seq<real>, weights: seq<real>)

  /** The state after descending into a match: its new points set and their data pushed. */
  function Child(s: Node, trip: Triplet, info: MatchInfo): (r: Node)
    requires WellFormedTriplet(trip, |s.cor|) && InfoShape(info)
    ensures |r.cor| == |s.cor|
    ensures |r.pointCoords| == |s.pointCoords| + 3 * NewCount(NewQ(s.cor, trip), 3)
    ensures |r.molCoords| == |s.molCoords| + 3 * NewCount(NewQ(s.cor, trip), 3)
    ensures |r.weights| == |s.weights| + NewCount(NewQ(s.cor, trip), 3)
  {
    var newq, n := NewQ(s.cor, trip), |trip|;
    Node(AssignAll(s.cor, newq, NewM(s.cor, trip, info), n),
         s.pointCoords + PointPush(trip, newq, n),
         s.molCoords + MolPush(info, newq, n),
         s.weights + WeightPush(trip, newq, n))
  }

  /** Setting one unmatched query point to an unused molecule point keeps the map injective. */
  lemma AssignStep(c: seq<int>, q: nat, m: nat)
    requires IsCor(c) && Injective(c) && q < |c| && c[q] == -1 && m < MaskBits && m !in Matched(c)
    ensures IsCor(c[q := m]) && Injective(c[q := m])
    ensures Matched(c[q := m]) == Matched(c) + {m}
    ensures |Matched(c[q := m])| == |Matched(c)| + 1
  {
    var c' := c[q := m];
    forall x | x in Matched(c')
      ensures x in Matched(c) + {m}
    {
      var q' :| 0 <= q' < |c'| && c'[q'] >= 0 && c'[q'] as nat == x;
      if q' != q {
        assert c[q'] as nat == x;
      }
    }
    forall x | x in Matched(c) + {m}
      ensures x in Matched(c')
    {
      if x == m {
        assert c'[q] as nat == x;
      } else {
        var q' :| 0 <= q' < |c| && c[q'] >= 0 && c[q'] as nat == x;
        assert c'[q'] as nat == x;
      }
    }
    assert Matched(c') == Matched(c) + {m};
    forall q1, q2 | 0 <= q1 < |c'| && 0 <= q2 < |c'| && q1 != q2 && c'[q1] >= 0
      ensures c'[q1] != c'[q2]
    {
      if q2 == q {
        assert c[q1] as nat in Matched(c);
      }
    }
  }

  /** What a checked candidate records for its k-th point. */
  lemma CandidatePoint(c: seq<int>, used: set<nat>, trip: Triplet, info: MatchInfo,
                       newq: seq<int>, newm: seq<int>, k: nat)
    requires WellFormedTriplet(trip, |c|) && InfoShape(info)
    requires Candidate(c, used, trip, info, newq, newm) && k < 3
    ensures newq[k] >= 0 ==> newq[k] == trip[k].index && newm[k] == info.indices[k]
                             && c[trip[k].index] < 0 && info.indices[k] !in used
    ensures newq[k] < 0 ==> newq[k] == -1 && newm[k] == -1 && c[trip[k].index] == info.indices[k]
  {
    assert NewPoint(c, used, trip, info, newq[k], newm[k], k);
  }

  /** A match passes the check exactly when NewQ and NewM record it as a candidate. */
  lemma CompatibleCandidate(c: seq<int>, used: set<nat>, trip: Triplet, info: MatchInfo)
    requires WellFormedTriplet(trip, |c|) && |info.indices| == 3
    ensures Compatible(c, used, trip, info) <==> Candidate(c, used, trip, info, NewQ(c, trip), NewM(c, trip, info))
  {
    var newq, newm := NewQ(c, trip), NewM(c, trip, info);
    if Compatible(c, used, trip, info) {
      forall k | 0 <= k < 3
        ensures NewPoint(c, used, trip, info, newq[k], newm[k], k)
      {
        assert PointCompatible(c, used, trip, info, k);
      }
    } else {
      var k :| 0 <= k < 3 && !PointCompatible(c, used, trip, info, k);
      assert !NewPoint(c, used, trip, info, newq[k], newm[k], k);
    }
  }

  /** What a checked candidate records is determined: it is NewQ and NewM. */
  lemma CandidateUnique(c: seq<int>, used: set<nat>, trip: Triplet, info: MatchInfo, newq: seq<int>, newm: seq<int>)
    requires WellFormedTriplet(trip, |c|) && |info.indices| == 3
    requires Candidate(c, used, trip, info, newq, newm)
    ensures newq == NewQ(c, trip) && newm == NewM(c, trip, info)
  {
    forall k | 0 <= k < 3
      ensures newq[k] == NewQ(c, trip)[k] && newm[k] == NewM(c, trip, info)[k]
    {
      assert NewPoint(c, used, trip, info, newq[k], newm[k], k);
    }
  }

  /**
   * A new point of a checked candidate is still unmatched after the points
   * before it are set, and its molecule point is not among theirs.
   */
  lemma NewPointFree(c: seq<int>, used: set<nat>, trip: Triplet, info: MatchInfo,
                     newq: seq<int>, newm: seq<int>, k: nat)
    requires IsCor(c) && WellFormedTriplet(trip, |c|) && InfoShape(info)
    requires Candidate(c, used, trip, info, newq, newm) && k < 3 && newq[k] >= 0
    ensures AssignAll(c, newq, newm, k)[trip[k].index] == -1
    ensures info.indices[k] !in used && info.indices[k] !in NewSet(newm, k)
  {
    CandidatePoint(c, used, trip, info, newq, newm, k);
    forall j | 0 <= j < k
      ensures newq[j] != trip[k].index && newm[j] != info.indices[k]
    {
      CandidatePoint(c, used, trip, info, newq, newm, j);
    }
    AssignElsewhere(c, newq, newm, k, trip[k].index);
    NewSetMembers(newm, k, info.indices[k]);
  }

  /**
   * After the new points among the first p are set, the correspondence is
   * still one-to-one and uses the old molecule points plus the new ones.
   */
  ghost predicate PrefixAssigned(c: seq<int>, newq: seq<int>, newm: seq<int>, p: nat)
    requires p <= |newq| && p <= |newm| && forall k :: 0 <= k < p ==> newq[k] < |c|
  {
    var a := AssignAll(c, newq, newm, p);
    IsCor(a) && Injective(a) && Matched(a) == Matched(c) + NewSet(newm, p)
    && |Matched(a)| == |Matched(c)| + NewCount(newq, p)
  }

  /** One step of AssignPrefix: setting the k-th point, if it is new. */
  lemma AssignPrefixStep(c: seq<int>, trip: Triplet, info: MatchInfo,
                         newq: seq<int>, newm: seq<int>, k: nat)
    requires IsCor(c) && WellFormedTriplet(trip, |c|) && InfoShape(info)
    requires Candidate(c, Matched(c), trip, info, newq, newm) && k < 3
    requires PrefixAssigned(c, newq, newm, k)
    ensures PrefixAssigned(c, newq, newm, k + 1)
  {
    CandidatePoint(c, Matched(c), trip, info, newq, newm, k);
    if newq[k] >= 0 {
      NewPointFree(c, Matched(c), trip, info, newq, newm, k);
      AssignNewPoint(c, AssignAll(c, newq, newm, k), newq, newm, k, Matched(c));
    } else {
      assert AssignAll(c, newq, newm, k + 1) == AssignAll(c, newq, newm, k);
      assert NewSet(newm, k + 1) == NewSet(newm, k);
    }
  }

  /** Setting a new, free point extends the used set by its molecule point. */
  lemma AssignNewPoint(c: seq<int>, prev: seq<int>, newq: seq<int>, newm: seq<int>, k: nat, used: set<nat>)
    requires k < |newq| && k < |newm| && forall j :: 0 <= j <= k ==> newq[j] < |c|
    requires prev == AssignAll(c, newq, newm, k)
    requires 0 <= newq[k] && 0 <= newm[k] < MaskBits
    requires IsCor(prev) && Injective(prev) && prev[newq[k]] == -1
    requires Matched(prev) == used + NewSet(newm, k) && newm[k] as nat !in Matched(prev)
    requires |Matched(prev)| == |used| + NewCount(newq, k)
    ensures IsCor(AssignAll(c, newq, newm, k + 1)) && Injective(AssignAll(c, newq, newm, k + 1))
    ensures Matched(AssignAll(c, newq, newm, k + 1)) == used + NewSet(newm, k + 1)
    ensures |Matched(AssignAll(c, newq, newm, k + 1))| == |used| + NewCount(newq, k + 1)
  {
    var q: nat := newq[k];
    var m: nat := newm[k];
    var next := AssignAll(c, newq, newm, k + 1);
    assert next == prev[q := m];
    AssignStep(prev, q, m);
    assert NewSet(newm, k + 1) == NewSet(newm, k) + {m};
    UnionAssoc(used, NewSet(newm, k), {m});
  }

  /**
   * Setting the new points of a candidate that passed the check keeps the
   * correspondence injective and uses exactly the old molecule points plus
   * the new ones, one more per new point.
   */
  lemma {:induction false} AssignPrefix(c: seq<int>, trip: Triplet, info: MatchInfo,
                                        newq: seq<int>, newm: seq<int>, p: nat)
    requires IsCor(c) && Injective(c)
    requires WellFormedTriplet(trip, |c|) && InfoShape(info)
    requires Candidate(c, Matched(c), trip, info, newq, newm)
    requires p <= 3
    ensures PrefixAssigned(c, newq, newm, p)
  {
    if p > 0 {
      AssignPrefix(c, trip, info, newq, newm, p - 1);
      AssignPrefixStep(c, trip, info, newq, newm, p - 1);
    }
  }

  lemma UnionAssoc(a: set<nat>, b: set<nat>, c: set<nat>)
    ensures (a + b) + c == a + (b + c)
  {
  }

  /** Everything the search needs about the assignment of a checked candidate. */
  lemma AssignCandidate(c: seq<int>, trip: Triplet, info: MatchInfo, newq: seq<int>, newm: seq<int>)
    requires IsCor(c) && Injective(c) && WellFormedTriplet(trip, |c|) && InfoShape(info)
    requires Candidate(c, Matched(c), trip, info, newq, newm)
    ensures forall k :: 0 <= k < 3 ==> (newq[k] >= 0 <==> newm[k] >= 0)
    ensures IsCor(AssignAll(c, newq, newm, 3)) && Injective(AssignAll(c, newq, newm, 3))
    ensures Matched(AssignAll(c, newq, newm, 3)) == Matched(c) + NewSet(newm, 3)
    ensures |Matched(AssignAll(c, newq, newm, 3))| == |Matched(c)| + NewCount(newq, 3)
    ensures Extends(AssignAll(c, newq, newm, 3), c)
    ensures Agrees(AssignAll(c, newq, newm, 3), trip, info)
  {
    AssignPrefix(c, trip, info, newq, newm, 3);
    AssignAgrees(c, trip, info, newq, newm);
    forall k | 0 <= k < 3
      ensures newq[k] >= 0 <==> newm[k] >= 0
    {
      CandidatePoint(c, Matched(c), trip, info, newq, newm, k);
    }
  }

  /** Where none of the first p points writes, AssignAll yields the last value written, if any. */
  lemma {:induction false} AssignHit(c: seq<int>, newq: seq<int>, newm: seq<int>, p: nat, k: nat)
    requires p <= |newq| && p <= |newm| && k < p
    requires forall j :: 0 <= j < p ==> newq[j] < |c|
    requires newq[k] >= 0
    requires forall j :: k < j < p ==> newq[j] != newq[k]
    ensures AssignAll(c, newq, newm, p)[newq[k]] == newm[k]
  {
    if p > k + 1 {
      AssignHit(c, newq, newm, p - 1, k);
    }
  }

  /**
   * After the assignment of a checked candidate, the correspondence keeps
   * every old assignment and maps the triplet onto the match.
   */
  lemma AssignAgrees(c: seq<int>, trip: Triplet, info: MatchInfo, newq: seq<int>, newm: seq<int>)
    requires IsCor(c) && WellFormedTriplet(trip, |c|) && InfoShape(info)
    requires Candidate(c, Matched(c), trip, info, newq, newm)
    ensures Extends(AssignAll(c, newq, newm, 3), c)
    ensures Agrees(AssignAll(c, newq, newm, 3), trip, info)
  {
    var a := AssignAll(c, newq, newm, 3);
    forall q | 0 <= q < |c| && c[q] >= 0
      ensures a[q] == c[q]
    {
      forall j | 0 <= j < 3
        ensures newq[j] != q
      {
        assert NewPoint(c, Matched(c), trip, info, newq[j], newm[j], j);
      }
      AssignElsewhere(c, newq, newm, 3, q);
    }
    forall k | 0 <= k < 3
      ensures AgreesAt(a, trip, info, k)
    {
      assert NewPoint(c, Matched(c), trip, info, newq[k], newm[k], k);
      if newq[k] >= 0 {
        forall j | k < j < 3
          ensures newq[j] != newq[k]
        {
          assert NewPoint(c, Matched(c), trip, info, newq[j], newm[j], j);
        }
        AssignHit(c, newq, newm, 3, k);
      }
    }
  }

  lemma {:induction false} NewCountMono(newq: seq<int>, p: nat, p': nat)
    requires p <= p' <= |newq|
    ensures NewCount(newq, p) <= NewCount(newq, p')
    decreases p' - p
  {
    if p < p' {
      NewCountMono(newq, p, p' - 1);
    }
  }

  lemma {:induction false} NewSetMembers(newm: seq<int>, p: nat, m: nat)
    requires p <= |newm|
    requires forall j :: 0 <= j < p ==> newm[j] != m
    ensures m !in NewSet(newm, p)
  {
    if p > 0 {
      NewSetMembers(newm, p - 1, m);
    }
  }

  /** Where the first p points do not touch q, AssignAll leaves q as it was. */
  lemma {:induction false} AssignElsewhere(c: seq<int>, newq: seq<int>, newm: seq<int>, p: nat, q: nat)
    requires p <= |newq| && p <= |newm| && q < |c|
    requires forall k :: 0 <= k < p ==> newq[k] < |c|
    requires forall k :: 0 <= k < p ==> newq[k] != q
    ensures AssignAll(c, newq, newm, p)[q] == c[q]
  {
    if p > 0 {
      AssignElsewhere(c, newq, newm, p - 1, q);
    }
  }

  /** ClearAll resets exactly the points listed among the first p. */
  lemma {:induction false} ClearAt(c: seq<int>, newq: seq<int>, p: nat, q: nat)
    requires p <= |newq| && q < |c|
    requires forall k :: 0 <= k < p ==> newq[k] < |c|
    ensures ClearAll(c, newq, p)[q] == if q as int in newq[..p] then -1 else c[q]
  {
    if p > 0 {
      ClearAt(c, newq, p - 1, q);
      assert newq[..p] == newq[..p - 1] + [newq[p - 1]];
    }
  }

  /** Undoing the assignment of a checked candidate restores the correspondence exactly. */
  lemma UndoRestores(c: seq<int>, trip: Triplet, info: MatchInfo, newq: seq<int>, newm: seq<int>)
    requires IsCor(c) && WellFormedTriplet(trip, |c|) && InfoShape(info)
    requires Candidate(c, Matched(c), trip, info, newq, newm)
    ensures ClearAll(AssignAll(c, newq, newm, 3), newq, 3) == c
  {
    var a := AssignAll(c, newq, newm, 3);
    var r := ClearAll(a, newq, 3);
    forall q | 0 <= q < |c|
      ensures r[q] == c[q]
    {
      ClearAt(a, newq, 3, q);
      if q as int in newq[..3] {
        var k :| 0 <= k < 3 && newq[k] == q;
        assert NewPoint(c, Matched(c), trip, info, newq[k], newm[k], k);
      } else {
        AssignElsewhere(c, newq, newm, 3, q);
      }
    }
  }

  // ---------------------------------------------------------------------------
  // Per-match result groups

  /** The first n entries of s, or all of s when it is shorter. */
  function Take<T>(s: seq<T>, n: nat): (r: seq<T>)
    ensures r <= s && |r| <= n
    ensures |s| <= n ==> r == s
    ensures |s| >= n ==> |r| == n
  {
    if |s| <= n then s else s[..n]
  }

  /** Taking n entries across a prefix shorter than n keeps the prefix whole. */
  lemma TakeAfter<T>(done: seq<T>, below: seq<T>, rest: seq<T>, n: nat)
    requires |done| < n <= |done| + |below|
    ensures Take(done + (below + rest), n) == done + Take(below, n - |done|)
  {
    var all := done + (below + rest);
    var r := done + Take(below, n - |done|);
    assert |r| == n;
    forall j | 0 <= j < n
      ensures all[j] == r[j]
    {
      if j >= |done| {
        assert all[j] == below[j - |done|];
      }
    }
  }


  /**
   * From results r0 and count c0, the search pushed the first room entries
   * of all (results r1, count c1), and go, whether it goes on, says that
   * all was shorter than the room left.
   */
  ghost predicate Pushed(all: seq<CorResult>, room: nat, r0: seq<CorResult>, r1: seq<CorResult>, c0: nat, c1: nat, go: bool)
  {
    && r1 == r0 + Take(all, room)
    && c1 == c0 + |Take(all, room)|
    && (go <==> |all| < room)
  }

  /** Pushing the entries below one match after those done so far. */
  lemma PushedStep(done: seq<CorResult>, below: seq<CorResult>, rest: seq<CorResult>, room: nat,
                   r0: seq<CorResult>, r1: seq<CorResult>, c0: nat, c1: nat, go: bool)
    requires |done| < room
    requires Pushed(below, room - |done|, r0 + done, r1, c0 + |done|, c1, go)
    ensures !go ==> Pushed(done + (below + rest), room, r0, r1, c0, c1, false)
    ensures go ==> r1 == r0 + (done + below) && c1 == c0 + |done + below| && |done + below| < room
    ensures done + (below + rest) == (done + below) + rest
  {
    if !go {
      TakeAfter(done, below, rest, room);
    }
  }


  function Flatten(groups: seq<seq<CorResult>>): (all: seq<CorResult>)
  {
    if groups == [] then [] else Flatten(groups[..|groups| - 1]) + groups[|groups| - 1]
  }

  /** How many groups are non-empty. */
  function NonEmpty(groups: seq<seq<CorResult>>): (n: nat)
  {
    if groups == [] then 0 else NonEmpty(groups[..|groups| - 1]) + (if groups[|groups| - 1] != [] then 1 else 0)
  }

  /** At most cap results per match gives at most |groups| * cap results. */
  lemma {:induction false} FlattenBound(groups: seq<seq<CorResult>>, cap: nat)
    requires forall k :: 0 <= k < |groups| ==> |groups[k]| <= cap
    ensures |Flatten(groups)| <= |groups| * cap
  {
    if groups != [] {
      var n := |groups|;
      FlattenBound(groups[..n - 1], cap);
      assert (n - 1) * cap + cap == n * cap;
    }
  }

  /** Matched matches are no more than processed matches and no more than the results. */
  lemma {:induction false} NonEmptyBound(groups: seq<seq<CorResult>>)
    ensures NonEmpty(groups) <= |groups|
    ensures NonEmpty(groups) <= |Flatten(groups)|
    ensures NonEmpty(groups) == 0 <==> Flatten(groups) == []
  {
    if groups != [] {
      NonEmptyBound(groups[..|groups| - 1]);
    }
  }

  /** Adding the results of one more match as a new group. */
  lemma AppendGroup(start: seq<CorResult>, groups: seq<seq<CorResult>>, group: seq<CorResult>)
    ensures start + Flatten(groups) + group == start + Flatten(groups + [group])
    ensures NonEmpty(groups + [group]) == NonEmpty(groups) + (if group != [] then 1 else 0)
  {
    assert (groups + [group])[..|groups|] == groups;
  }

  // ---------------------------------------------------------------------------
  // The enumerator

  class Corresponder {
    /** Number of query points (size of a correspondence). */
    const numPoints: nat
    /** The query triplets, each in its possible point orders. */
    const triplets: seq<seq<Triplet>>
    /** Maximum number of results per conformation. */
    const orientationsPerConf: nat
    /** The geometric acceptance of a complete choice (RMSD and radius checks). */
    const accepts: (seq<real>, seq<real>, seq<real>) -> bool

    /** The match being processed. */
    var tm: TripletMatch
    /** The correspondence being built. */
    var cor: seq<int>
    var pointCoords: seq<real>
    var molCoords: seq<real>
    var weights: seq<real>
    var thisConfCnt: nat
    var processedCnt: nat
    var matchedCnt: nat
    /** Everything pushed to the result queue. */
    var results: seq<CorResult>

    predicate QueryWellFormed()
    {
      forall pos, j :: 0 <= pos < |triplets| && 0 <= j < |triplets[pos]| ==> WellFormedTriplet(triplets[pos][j], numPoints)
    }

    /** The number of results after which one conformation is abandoned. */
    function Cap(): (n: nat)
      ensures n >= 1 && n >= orientationsPerConf
    {
      if orientationsPerConf == 0 then 1 else orientationsPerConf
    }

    /**
     * The bookkeeping invariant: the correspondence is one-to-one, the mask
     * is exactly its set of used molecule points, and the three stacks hold
     * one entry (three coordinates) per matched point.
     */
    ghost predicate SearchState(alreadyMatched: set<nat>)
      reads this
    {
      && |cor| == numPoints && IsCor(cor) && Injective(cor)
      && alreadyMatched == Matched(cor)
      && |pointCoords| == |molCoords| == 3 * |weights|
      && |weights| == |alreadyMatched|
    }

    /** r is a result for match m that extends base and realises positions 0..pos. */
    ghost predicate Produced(r: CorResult, m: TripletMatch, base: seq<int>, pos: int)
    {
      && r.location == m.location
      && |r.cor| == numPoints && IsCor(r.cor) && Injective(r.cor) && Extends(r.cor, base)
      && Realizes(r.cor, triplets, m, pos)
      && |r.pointCoords| == |r.molCoords| == 3 * |r.weights|
      && accepts(r.pointCoords, r.molCoords, r.weights)
    }

    /** r is a complete, accepted, one-to-one correspondence for match m. */
    ghost predicate Complete(r: CorResult, m: TripletMatch)
    {
      Produced(r, m, Unmatched(numPoints), |triplets| - 1)
    }

    constructor (numPoints: nat, triplets: seq<seq<Triplet>>, orientationsPerConf: nat,
                 accepts: (seq<real>, seq<real>, seq<real>) -> bool)
      ensures this.numPoints == numPoints && this.triplets == triplets
      ensures this.orientationsPerConf == orientationsPerConf && this.accepts == accepts
      ensures cor == Unmatched(numPoints)
      ensures pointCoords == [] && molCoords == [] && weights == []
      ensures thisConfCnt == 0 && processedCnt == 0 && matchedCnt == 0 && results == []
    {
      this.numPoints := numPoints;
      this.triplets := triplets;
      this.orientationsPerConf := orientationsPerConf;
      this.accepts := accepts;
      tm := TripletMatch(0, []);
      cor := Unmatched(numPoints);
      pointCoords, molCoords, weights := [], [], [];
      thisConfCnt, processedCnt, matchedCnt := 0, 0, 0;
      results := [];
    }

    /**
     * Checks one candidate triple match against the current correspondence
     * and records which of its points are new.
     */
    method CheckCandidate(trip: Triplet, info: MatchInfo, alreadyMatched: set<nat>)
      returns (valid: bool, newq: seq<int>, newm: seq<int>)
      requires WellFormedTriplet(trip, |cor|) && |info.indices| == 3
      ensures valid <==> Compatible(cor, alreadyMatched, trip, info)
      ensures valid ==> Candidate(cor, alreadyMatched, trip, info, newq, newm)
    {
      newq, newm := [-1, -1, -1], [-1, -1, -1];
      valid := true;
      var p := 0;
      while p < 3
        invariant 0 <= p <= 3 && |newq| == 3 && |newm| == 3
        invariant forall k :: 0 <= k < p ==> PointCompatible(cor, alreadyMatched, trip, info, k)
        invariant forall k :: 0 <= k < p ==> NewPoint(cor, alreadyMatched, trip, info, newq[k], newm[k], k)
        invariant forall k :: 0 <= k < 3 ==> newq[k] < |cor|
        invariant forall k :: p <= k < 3 ==> newq[k] == -1 && newm[k] == -1
      {
        var qpoint := trip[p].index;
        var mpoint := info.indices[p];
        var curmatch := cor[qpoint];
        if curmatch < 0 {
          if mpoint in alreadyMatched {
            assert !PointCompatible(cor, alreadyMatched, trip, info, p);
            valid := false;
            break;
          }
          newq, newm := newq[p := qpoint], newm[p := mpoint];
        } else if curmatch != mpoint {
          assert !PointCompatible(cor, alreadyMatched, trip, info, p);
          valid := false;
          break;
        }
        p := p + 1;
      }
    }

    /** Sets the new points of a checked candidate and pushes their coordinates and weights. */
    method Assign(trip: Triplet, info: MatchInfo, newq: seq<int>, newm: seq<int>) returns (newMatches: set<nat>)
      requires WellFormedTriplet(trip, |cor|) && InfoShape(info)
      requires |newq| == 3 && |newm| == 3 && forall k :: 0 <= k < 3 ==> newq[k] < |cor|
      requires forall k :: 0 <= k < 3 ==> (newq[k] >= 0 <==> newm[k] >= 0)
      modifies this`cor, this`molCoords, this`pointCoords, this`weights
      ensures cor == AssignAll(old(cor), newq, newm, 3)
      ensures molCoords == old(molCoords) + MolPush(info, newq, 3)
      ensures pointCoords == old(pointCoords) + PointPush(trip, newq, 3)
      ensures weights == old(weights) + WeightPush(trip, newq, 3)
      ensures newMatches == NewSet(newm, 3)
    {
      newMatches := {};
      for p := 0 to 3
        invariant cor == AssignAll(old(cor), newq, newm, p)
        invariant molCoords == old(molCoords) + MolPush(info, newq, p)
        invariant pointCoords == old(pointCoords) + PointPush(trip, newq, p)
        invariant weights == old(weights) + WeightPush(trip, newq, p)
        invariant newMatches == NewSet(newm, p)
      {
        if newq[p] >= 0 {
          cor := cor[newq[p] := newm[p]];
          molCoords := molCoords + CoordList(info.coords[p]);
          pointCoords := pointCoords + CoordList(trip[p].point);
          weights := weights + [trip[p].radiusWeight];
          newMatches := newMatches + {newm[p] as nat};
        }
      }
    }

    /** Resets the new points of a candidate and pops their coordinates and weights. */
    method Undo(newq: seq<int>)
      requires |newq| == 3 && forall k :: 0 <= k < 3 ==> newq[k] < |cor|
      requires |molCoords| >= 3 * NewCount(newq, 3) && |pointCoords| >= 3 * NewCount(newq, 3)
      requires |weights| >= NewCount(newq, 3)
      modifies this`cor, this`molCoords, this`pointCoords, this`weights
      ensures cor == ClearAll(old(cor), newq, 3)
      ensures molCoords == old(molCoords)[..old(|molCoords|) - 3 * NewCount(newq, 3)]
      ensures pointCoords == old(pointCoords)[..old(|pointCoords|) - 3 * NewCount(newq, 3)]
      ensures weights == old(weights)[..old(|weights|) - NewCount(newq, 3)]
    {
      for p := 0 to 3
        invariant cor == ClearAll(old(cor), newq, p)
        invariant molCoords == old(molCoords)[..old(|molCoords|) - 3 * NewCount(newq, p)]
        invariant pointCoords == old(pointCoords)[..old(|pointCoords|) - 3 * NewCount(newq, p)]
        invariant weights == old(weights)[..old(|weights|) - NewCount(newq, p)]
      {
        NewCountMono(newq, p + 1, 3);
        if newq[p] >= 0 {
          cor := cor[newq[p] := -1];
          molCoords := molCoords[..|molCoords| - 3];
          pointCoords := pointCoords[..|pointCoords| - 3];
          weights := weights[..|weights| - 1];
        }
      }
    }

    /** The current search state. */
    function State(): (s: Node)
      reads this
      ensures s.cor == cor && s.pointCoords == pointCoords && s.molCoords == molCoords && s.weights == weights
    {
      Node(cor, pointCoords, molCoords, weights)
    }

    /** The state a match starts from: nothing matched, empty stacks. */
    function Root(): (s: Node)
      ensures |s.cor| == numPoints && s.pointCoords == [] && s.molCoords == [] && s.weights == []
      ensures forall q :: 0 <= q < numPoints ==> s.cor[q] == -1
    {
      Node(Unmatched(numPoints), [], [], [])
    }

    /** A one-to-one correspondence of the query's size, with three coordinates per weight on both stacks. */
    predicate NodeOk(s: Node)
    {
      && |s.cor| == numPoints && IsCor(s.cor) && Injective(s.cor)
      && |s.pointCoords| == |s.molCoords| == 3 * |s.weights|
    }

    /**
     * The accepted complete correspondences the search reaches from state s
     * at position pos, in the order of the depth-first search: for each match
     * of position pos in turn, those below it if it passes the check.
     */
    function Leaves(m: TripletMatch, pos: int, s: Node): (leaves: seq<CorResult>)
      requires QueryWellFormed() && WellFormedMatch(m, triplets)
      requires -1 <= pos < |triplets| && |s.cor| == numPoints
      decreases pos + 1, 1, 0, 0
    {
      if pos < 0 then
        if accepts(s.pointCoords, s.molCoords, s.weights)
        then [CorResult(m.location, s.cor, s.pointCoords, s.molCoords, s.weights)]
        else []
      else LeavesFrom(m, pos, 0, s)
    }

    /** The leaves below the matches of position pos from the i-th on. */
    function LeavesFrom(m: TripletMatch, pos: nat, i: nat, s: Node): (leaves: seq<CorResult>)
      requires QueryWellFormed() && WellFormedMatch(m, triplets)
      requires pos < |triplets| && i <= |m.matches[pos]| && |s.cor| == numPoints
      decreases pos + 1, 0, |m.matches[pos]| - i, 0
    {
      if i == |m.matches[pos]| then [] else Below(m, pos, i, s) + LeavesFrom(m, pos, i + 1, s)
    }

    /** The leaves below the i-th match of position pos. */
    function Below(m: TripletMatch, pos: nat, i: nat, s: Node): (leaves: seq<CorResult>)
      requires QueryWellFormed() && WellFormedMatch(m, triplets)
      requires pos < |triplets| && i < |m.matches[pos]| && |s.cor| == numPoints
      decreases pos + 1, 0, 0, 1
    {
      var info := m.matches[pos][i];
      BelowMatch(m, pos, triplets[pos][info.whichTripOrder], info, s)
    }

    /** The leaves below a match info of position pos in point order trip: none if it fails the check. */
    function BelowMatch(m: TripletMatch, pos: nat, trip: Triplet, info: MatchInfo, s: Node): (leaves: seq<CorResult>)
      requires QueryWellFormed() && WellFormedMatch(m, triplets)
      requires pos < |triplets| && WellFormedTriplet(trip, numPoints) && InfoShape(info) && |s.cor| == numPoints
      decreases pos + 1, 0, 0, 0
    {
      if Compatible(s.cor, Matched(s.cor), trip, info) then Leaves(m, pos - 1, Child(s, trip, info)) else []
    }

    /** A result of the search below a match is a result of this level. */
    lemma LiftResult(r: CorResult, m: TripletMatch, base: seq<int>, extended: seq<int>, pos: nat, i: nat)
      requires pos < |triplets| && pos < |m.matches| && i < |m.matches[pos]|
      requires m.matches[pos][i].whichTripOrder < |triplets[pos]|
      requires Extends(extended, base)
      requires Agrees(extended, triplets[pos][m.matches[pos][i].whichTripOrder], m.matches[pos][i])
      requires Produced(r, m, extended, pos - 1)
      ensures Produced(r, m, base, pos)
    {
      var info := m.matches[pos][i];
      var trip := triplets[pos][info.whichTripOrder];
      forall k | 0 <= k < 3
        ensures AgreesAt(r.cor, trip, info, k)
      {
        assert AgreesAt(extended, trip, info, k);
      }
      assert MatchedBy(r.cor, triplets[pos], m.matches[pos]);
    }

    /**
     * Every leaf is a one-to-one correspondence that extends the state it was
     * reached from and realises every position up to pos, and its stacks
     * passed the acceptance test.
     */
    lemma {:induction false} LeavesSound(m: TripletMatch, pos: int, s: Node)
      requires QueryWellFormed() && WellFormedMatch(m, triplets)
      requires -1 <= pos < |triplets| && NodeOk(s)
      ensures forall j :: 0 <= j < |Leaves(m, pos, s)| ==> Produced(Leaves(m, pos, s)[j], m, s.cor, pos)
      decreases pos + 1, 1, 0, 0
    {
      if pos >= 0 {
        LeavesFromSound(m, pos, 0, s);
      }
    }

    lemma {:induction false} LeavesFromSound(m: TripletMatch, pos: nat, i: nat, s: Node)
      requires QueryWellFormed() && WellFormedMatch(m, triplets)
      requires pos < |triplets| && i <= |m.matches[pos]| && NodeOk(s)
      ensures forall j :: 0 <= j < |LeavesFrom(m, pos, i, s)| ==> Produced(LeavesFrom(m, pos, i, s)[j], m, s.cor, pos)
      decreases pos + 1, 0, |m.matches[pos]| - i, 0
    {
      if i < |m.matches[pos]| {
        BelowSound(m, pos, i, s);
        LeavesFromSound(m, pos, i + 1, s);
        var a, b := Below(m, pos, i, s), LeavesFrom(m, pos, i + 1, s);
        assert LeavesFrom(m, pos, i, s) == a + b;
        forall j | 0 <= j < |a + b|
          ensures Produced((a + b)[j], m, s.cor, pos)
        {
          if j < |a| {
            assert (a + b)[j] == a[j];
          } else {
            assert (a + b)[j] == b[j - |a|];
          }
        }
      }
    }

    lemma {:induction false} BelowSound(m: TripletMatch, pos: nat, i: nat, s: Node)
      requires QueryWellFormed() && WellFormedMatch(m, triplets)
      requires pos < |triplets| && i < |m.matches[pos]| && NodeOk(s)
      ensures forall j :: 0 <= j < |Below(m, pos, i, s)| ==> Produced(Below(m, pos, i, s)[j], m, s.cor, pos)
      decreases pos + 1, 0, 0, 1
    {
      var info := m.matches[pos][i];
      var trip := triplets[pos][info.whichTripOrder];
      if Compatible(s.cor, Matched(s.cor), trip, info) {
        var newq, newm := NewQ(s.cor, trip), NewM(s.cor, trip, info);
        CompatibleCandidate(s.cor, Matched(s.cor), trip, info);
        AssignCandidate(s.cor, trip, info, newq, newm);
        var child := Child(s, trip, info);
        assert NodeOk(child);
        LeavesSound(m, pos - 1, child);
        var rs := Below(m, pos, i, s);
        assert rs == BelowMatch(m, pos, trip, info, s) == Leaves(m, pos - 1, child);
        forall j | 0 <= j < |rs|
          ensures Produced(rs[j], m, s.cor, pos)
        {
          LiftResult(rs[j], m, s.cor, child.cor, pos, i);
        }
      }
    }

    /**
     * What descending into a checked candidate does to a state: the recorded
     * points are NewQ and NewM, the child state is well formed and uses the
     * new molecule points as well, and clearing the new points and popping
     * their data gives the state back.
     */
    lemma DescendFacts(trip: Triplet, info: MatchInfo, s: Node, newq: seq<int>, newm: seq<int>)
      requires WellFormedTriplet(trip, numPoints) && InfoShape(info) && NodeOk(s)
      requires Candidate(s.cor, Matched(s.cor), trip, info, newq, newm)
      ensures newq == NewQ(s.cor, trip) && newm == NewM(s.cor, trip, info)
      ensures forall k :: 0 <= k < 3 ==> (newq[k] >= 0 <==> newm[k] >= 0)
      ensures NodeOk(Child(s, trip, info))
      ensures Matched(Child(s, trip, info).cor) == Matched(s.cor) + NewSet(newm, 3)
      ensures |Matched(Child(s, trip, info).cor)| == |Matched(s.cor)| + NewCount(newq, 3)
      ensures ClearAll(Child(s, trip, info).cor, newq, 3) == s.cor
      ensures Child(s, trip, info).pointCoords[..|s.pointCoords|] == s.pointCoords
      ensures Child(s, trip, info).molCoords[..|s.molCoords|] == s.molCoords
      ensures Child(s, trip, info).weights[..|s.weights|] == s.weights
    {
      CandidateUnique(s.cor, Matched(s.cor), trip, info, newq, newm);
      AssignCandidate(s.cor, trip, info, newq, newm);
      UndoRestores(s.cor, trip, info, newq, newm);
    }

    /**
     * One step of the search over the matches of position pos: after the
     * leaves done so far, the i-th match pushed (a prefix of) its own leaves.
     * If it stopped the search, the whole level stopped with a prefix of its
     * leaves; otherwise the leaves done grow by those of the i-th match.
     */
    lemma ScanStep(m: TripletMatch, pos: nat, i: nat, s: Node, done: seq<CorResult>, room: nat,
                   r0: seq<CorResult>, r1: seq<CorResult>, c0: nat, c1: nat, go: bool)
      requires QueryWellFormed() && WellFormedMatch(m, triplets)
      requires pos < |triplets| && i < |m.matches[pos]| && |s.cor| == numPoints
      requires |done| < room
      requires Pushed(Below(m, pos, i, s), room - |done|, r0 + done, r1, c0 + |done|, c1, go)
      ensures !go ==> Pushed(done + LeavesFrom(m, pos, i, s), room, r0, r1, c0, c1, false)
      ensures go ==> r1 == r0 + (done + Below(m, pos, i, s)) && c1 == c0 + |done + Below(m, pos, i, s)|
      ensures go ==> |done + Below(m, pos, i, s)| < room
      ensures done + LeavesFrom(m, pos, i, s) == (done + Below(m, pos, i, s)) + LeavesFrom(m, pos, i + 1, s)
    {
      var below, rest := Below(m, pos, i, s), LeavesFrom(m, pos, i + 1, s);
      assert LeavesFrom(m, pos, i, s) == below + rest;
      PushedStep(done, below, rest, room, r0, r1, c0, c1, go);
    }

    /**
     * The base case: a complete choice is pushed if it passes the acceptance
     * test, and the search stops when the count, tested only after a push,
     * reaches orientationsPerConf (so at Cap() pushes).
     */
    method Emit() returns (keepGoing: bool)
      requires QueryWellFormed() && WellFormedMatch(tm, triplets)
      requires |cor| == numPoints && thisConfCnt < Cap()
      modifies this`thisConfCnt, this`results
      ensures Pushed(Leaves(tm, -1, State()), Cap() - old(thisConfCnt), old(results), results, old(thisConfCnt), thisConfCnt, keepGoing)
    {
      if accepts(pointCoords, molCoords, weights) {
        results := results + [CorResult(tm.location, cor, pointCoords, molCoords, weights)];
        thisConfCnt := thisConfCnt + 1;
        if thisConfCnt >= orientationsPerConf {
          return false;
        }
      }
      return true;
    }

    /**
     * Enumerates the legal correspondences of triplet positions pos down to 0
     * that extend the current one: it pushes the leaves of the current state
     * in order, as many as the cap leaves room for, and returns false exactly
     * when the cap is reached, in which case every caller returns false at
     * once, without undoing.
     */
    method Generate(pos: int, alreadyMatched: set<nat>) returns (keepGoing: bool)
      requires QueryWellFormed() && WellFormedMatch(tm, triplets)
      requires -1 <= pos < |triplets|
      requires SearchState(alreadyMatched)
      requires thisConfCnt < Cap()
      modifies this`cor, this`pointCoords, this`molCoords, this`weights, this`thisConfCnt, this`results
      decreases pos + 1, 2
      ensures Pushed(Leaves(tm, pos, old(State())), Cap() - old(thisConfCnt), old(results), results, old(thisConfCnt), thisConfCnt, keepGoing)
      ensures keepGoing ==> State() == old(State())
    {
      if pos < 0 {
        keepGoing := Emit();
        return;
      }
      ghost var s := State();
      ghost var m := tm;
      ghost var all := Leaves(m, pos, s);
      ghost var room := Cap() - thisConfCnt;
      ghost var done: seq<CorResult> := [];
      var i := 0;
      while i < |tm.matches[pos]|
        invariant 0 <= i <= |tm.matches[pos]| && State() == s
        invariant tm == m && all == done + LeavesFrom(m, pos, i, s)
        invariant results == old(results) + done
        invariant thisConfCnt == old(thisConfCnt) + |done| && |done| < room
      {
        var ok := TryMatch(pos, i, alreadyMatched);
        ScanStep(m, pos, i, s, done, room, old(results), results, old(thisConfCnt), thisConfCnt, ok);
        if !ok {
          return false;
        }
        done := done + Below(m, pos, i, s);
        i := i + 1;
      }
      return true;
    }

    /**
     * One iteration of the search over the matches of position pos: checks
     * the i-th match and descends into it if it passes.  It pushes the
     * leaves below that match, as many as the cap leaves room for.
     */
    method TryMatch(pos: nat, i: nat, alreadyMatched: set<nat>) returns (ok: bool)
      requires QueryWellFormed() && WellFormedMatch(tm, triplets)
      requires pos < |triplets| && i < |tm.matches[pos]|
      requires SearchState(alreadyMatched)
      requires thisConfCnt < Cap()
      modifies this`cor, this`pointCoords, this`molCoords, this`weights, this`thisConfCnt, this`results
      decreases pos + 1, 1
      ensures Pushed(Below(tm, pos, i, old(State())), Cap() - old(thisConfCnt), old(results), results, old(thisConfCnt), thisConfCnt, ok)
      ensures ok ==> State() == old(State())
    {
      var info := tm.matches[pos][i];
      var trip := triplets[pos][info.whichTripOrder];
      ghost var s := State();
      var valid, newq, newm := CheckCandidate(trip, info, alreadyMatched);
      assert Below(tm, pos, i, s) == BelowMatch(tm, pos, trip, info, s);
      if valid {
        ok := Descend(pos, trip, info, newq, newm, alreadyMatched);
      } else {
        ok := true;
      }
    }

    /**
     * Descends into a match info of position pos in point order trip, which
     * passed the check: sets its new points, enumerates the positions below,
     * and undoes the assignment unless the search was stopped.  It pushes
     * the leaves of the child state, as many as the cap leaves room for.
     */
    method Descend(pos: nat, trip: Triplet, info: MatchInfo, newq: seq<int>, newm: seq<int>, alreadyMatched: set<nat>)
      returns (ok: bool)
      requires QueryWellFormed() && WellFormedMatch(tm, triplets)
      requires pos < |triplets| && WellFormedTriplet(trip, numPoints) && InfoShape(info)
      requires SearchState(alreadyMatched)
      requires Candidate(cor, alreadyMatched, trip, info, newq, newm)
      requires thisConfCnt < Cap()
      modifies this`cor, this`pointCoords, this`molCoords, this`weights, this`thisConfCnt, this`results
      decreases pos + 1, 0
      ensures Pushed(Leaves(tm, pos - 1, Child(old(State()), trip, info)), Cap() - old(thisConfCnt), old(results), results, old(thisConfCnt), thisConfCnt, ok)
      ensures ok ==> State() == old(State())
    {
      ghost var s := State();
      DescendFacts(trip, info, s, newq, newm);
      var newMatches := Assign(trip, info, newq, newm);
      assert State() == Child(s, trip, info);
      ok := Generate(pos - 1, alreadyMatched + newMatches);
      if !ok {
        return;
      }
      Undo(newq);
    }

    /** The results of the k-th match, added as group k, are complete results for it. */
    lemma GroupsComplete(queue: seq<TripletMatch>, groups: seq<seq<CorResult>>, group: seq<CorResult>)
      requires |groups| < |queue|
      requires forall k', j :: 0 <= k' < |groups| && 0 <= j < |groups[k']| ==> Complete(groups[k'][j], queue[k'])
      requires forall j :: 0 <= j < |group| ==> Complete(group[j], queue[|groups|])
      ensures forall k', j :: 0 <= k' < |groups| + 1 && 0 <= j < |(groups + [group])[k']| ==>
                Complete((groups + [group])[k'][j], queue[k'])
    {
      var gs := groups + [group];
      forall k', j | 0 <= k' < |gs| && 0 <= j < |gs[k']|
        ensures Complete(gs[k'][j], queue[k'])
      {
        if k' < |groups| {
          assert gs[k'] == groups[k'];
        }
      }
    }

    ghost predicate AllComplete(rs: seq<CorResult>, m: TripletMatch)
    {
      forall j :: 0 <= j < |rs| ==> Complete(rs[j], m)
    }

    /** The first cap leaves of a match, the results it should give. */
    lemma FirstLeavesComplete(m: TripletMatch)
      requires QueryWellFormed() && WellFormedMatch(m, triplets)
      ensures AllComplete(Take(Leaves(m, |triplets| - 1, Root()), Cap()), m)
    {
      var root := Root();
      assert Unmatched(numPoints) == root.cor;
      assert NodeOk(root);
      LeavesSound(m, |triplets| - 1, root);
      var all := Leaves(m, |triplets| - 1, root);
      var group := Take(all, Cap());
      forall j | 0 <= j < |group|
        ensures Complete(group[j], m)
      {
        assert group[j] == all[j];
      }
    }

    /**
     * Processes one popped match: reinitialises the correspondence, resets
     * the per-conformation count, enumerates, clears the stacks after an
     * early stop, and counts the match as processed and, if it produced a
     * result, as matched.  group, what it pushed, is the first Cap() leaves
     * of the match.
     */
    method ProcessMatch(m: TripletMatch) returns (ghost group: seq<CorResult>)
      requires QueryWellFormed() && WellFormedMatch(m, triplets)
      requires pointCoords == [] && molCoords == [] && weights == []
      modifies this`tm, this`cor, this`pointCoords, this`molCoords, this`weights
      modifies this`thisConfCnt, this`processedCnt, this`matchedCnt, this`results
      ensures tm == m && thisConfCnt == |group| <= Cap()
      ensures group == Take(Leaves(m, |triplets| - 1, Root()), Cap())
      ensures results == old(results) + group
      ensures forall j :: 0 <= j < |group| ==> Complete(group[j], m)
      ensures processedCnt == old(processedCnt) + 1
      ensures matchedCnt == old(matchedCnt) + (if group != [] then 1 else 0)
      ensures pointCoords == [] && molCoords == [] && weights == []
    {
      tm := m;
      cor := Unmatched(numPoints);
      thisConfCnt := 0;
      processedCnt := processedCnt + 1;
      assert Matched(cor) == {};
      assert State() == Root();
      var keepGoing := Generate(|triplets| - 1, {});
      if !keepGoing {
        pointCoords := [];
        molCoords := [];
        weights := [];
      }
      if thisConfCnt > 0 {
        matchedCnt := matchedCnt + 1;
      }
      group := results[|old(results)|..];
      assert results == old(results) + group;
      FirstLeavesComplete(m);
    }

    /**
     * Processes the queued matches in order: resets the per-conformation
     * count, enumerates, clears the stacks after an early stop, and counts
     * processed and matched conformations.  groups[k], the results pushed
     * for queue[k], are the first Cap() leaves of queue[k].
     */
    method Run(queue: seq<TripletMatch>) returns (ghost groups: seq<seq<CorResult>>)
      requires QueryWellFormed()
      requires forall k :: 0 <= k < |queue| ==> WellFormedMatch(queue[k], triplets)
      requires pointCoords == [] && molCoords == [] && weights == []
      requires matchedCnt <= processedCnt
      modifies this`tm, this`cor, this`pointCoords, this`molCoords, this`weights
      modifies this`thisConfCnt, this`processedCnt, this`matchedCnt, this`results
      ensures |groups| == |queue|
      ensures forall k :: 0 <= k < |queue| ==> groups[k] == Take(Leaves(queue[k], |triplets| - 1, Root()), Cap())
      ensures results == old(results) + Flatten(groups)
      ensures forall k :: 0 <= k < |queue| ==> |groups[k]| <= Cap()
      ensures forall k, j :: 0 <= k < |queue| && 0 <= j < |groups[k]| ==> Complete(groups[k][j], queue[k])
      ensures processedCnt == old(processedCnt) + |queue|
      ensures matchedCnt == old(matchedCnt) + NonEmpty(groups)
      ensures matchedCnt <= processedCnt
      ensures |results| <= old(|results|) + |queue| * Cap()
      ensures pointCoords == [] && molCoords == [] && weights == []
    {
      groups := [];
      var k := 0;
      while k < |queue|
        invariant 0 <= k <= |queue| && |groups| == k
        invariant forall k' :: 0 <= k' < k ==> groups[k'] == Take(Leaves(queue[k'], |triplets| - 1, Root()), Cap())
        invariant results == old(results) + Flatten(groups)
        invariant forall k' :: 0 <= k' < k ==> |groups[k']| <= Cap()
        invariant forall k', j :: 0 <= k' < k && 0 <= j < |groups[k']| ==> Complete(groups[k'][j], queue[k'])
        invariant processedCnt == old(processedCnt) + k
        invariant matchedCnt == old(matchedCnt) + NonEmpty(groups)
        invariant pointCoords == [] && molCoords == [] && weights == []
      {
        ghost var group := ProcessMatch(queue[k]);
        AppendGroup(old(results), groups, group);
        GroupsComplete(queue, groups, group);
        groups := groups + [group];
        k := k + 1;
      }
      NonEmptyBound(groups);
      FlattenBound(groups, Cap());
    }
  }
}
