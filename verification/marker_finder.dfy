/**
  `MarkerFinder`: which of the markers ArUco detects in a frame is reported,
  and the finder's memory of the last reported id, which keeps the choice
  stable from frame to frame when several markers are visible.

  ArUco's detection is an input: the parallel lists of ids and corner
  outlines it returns. The least-squares affine fit is a parameter too.
*/
module Markers {
  import opened Geometry
  import Poses

  /** The finder's only state: `m_lastMarkerId`, -1 when nothing is remembered. */
  datatype Finder = Finder(lastMarkerId: int)

  /** A new finder remembers no marker. */
  function NewFinder(): (f: Finder)
    ensures f.lastMarkerId == -1
  {
    Finder(-1)
  }

  /** `reset()` forgets the remembered marker, whatever the state. */
  function Reset(f: Finder): (g: Finder)
    ensures g.lastMarkerId == -1
    ensures g == NewFinder()
  {
    Finder(-1)
  }

  /** What `cv::aruco::detectMarkers` reports: ids and, at the same index, the corners of that marker. */
  datatype Detection = Detection(ids: seq<int>, corners: seq<seq<Point2>>)

  predicate WellFormed(d: Detection) {
    |d.ids| == |d.corners|
  }

  /** `std::find`: the index of the first occurrence of `x`, or `|ids|` (the end) when there is none. */
  function Find(ids: seq<int>, x: int): (k: nat)
    ensures k <= |ids|
    ensures k < |ids| ==> ids[k] == x
    ensures forall j :: 0 <= j < k ==> ids[j] != x
    ensures k == |ids| <==> x !in ids
  {
    if |ids| == 0 then 0
    else if ids[0] == x then 0
    else 1 + Find(ids[1..], x)
  }

  /** A requested id is honoured when it is non-negative and detected. */
  predicate RequestedPresent(ids: seq<int>, markerId: int) {
    markerId >= 0 && markerId in ids
  }

  /**
    The index `findMarker` reports among a non-empty detection: the first
    occurrence of the requested id, else of the remembered id, else 0.
  */
  function ChooseIndex(ids: seq<int>, markerId: int, last: int): (k: nat)
    requires |ids| > 0
    ensures k < |ids|
    ensures RequestedPresent(ids, markerId) ==>
              ids[k] == markerId && forall j :: 0 <= j < k ==> ids[j] != markerId
    ensures !RequestedPresent(ids, markerId) && RequestedPresent(ids, last) ==>
              ids[k] == last && forall j :: 0 <= j < k ==> ids[j] != last
    ensures !RequestedPresent(ids, markerId) && !RequestedPresent(ids, last) ==> k == 0
  {
    var current := if markerId >= 0 && Find(ids, markerId) < |ids| then Find(ids, markerId) else -1;
    var current := if current < 0 && last >= 0 && Find(ids, last) < |ids| then Find(ids, last) else current;
    if current < 0 then 0 else current
  }

  /** The chosen index is the first occurrence of the id found there. */
  lemma ChosenIsFirstOccurrence(ids: seq<int>, markerId: int, last: int)
    requires |ids| > 0
    ensures var k := ChooseIndex(ids, markerId, last);
            Find(ids, ids[k]) == k
  {
    var k := ChooseIndex(ids, markerId, last);
    var f := Find(ids, ids[k]);
    if f < k {
      assert ids[f] == ids[k];
    }
  }

  datatype Found = Found(finder: Finder, corners: seq<Point2>)

  /**
    `findMarker(image, markerId)`: no detection leaves the finder alone and
    returns nothing; otherwise the chosen marker's corners are returned and
    its id is remembered.
  */
  function FindMarker(f: Finder, d: Detection, markerId: int): (r: Found)
    requires WellFormed(d)
    ensures |d.ids| == 0 ==> r.finder == f && r.corners == []
    ensures |d.ids| > 0 ==>
              var k := ChooseIndex(d.ids, markerId, f.lastMarkerId);
              r.finder.lastMarkerId == d.ids[k] && r.corners == d.corners[k]
  {
    if |d.ids| == 0 then Found(f, [])
    else
      var k := ChooseIndex(d.ids, markerId, f.lastMarkerId);
      Found(Finder(d.ids[k]), d.corners[k])
  }

  /** With no request, a remembered marker that is still visible is reported again. */
  lemma StaysOnRememberedMarker(f: Finder, d: Detection)
    requires WellFormed(d) && f.lastMarkerId >= 0 && f.lastMarkerId in d.ids
    ensures FindMarker(f, d, -1).finder == f
    ensures FindMarker(f, d, -1).corners == d.corners[Find(d.ids, f.lastMarkerId)]
  {
    var k := ChooseIndex(d.ids, -1, f.lastMarkerId);
    assert d.ids[k] == f.lastMarkerId;
    ChosenIsFirstOccurrence(d.ids, -1, f.lastMarkerId);
  }

  /** Looking twice at the same detection with the same request gives the same answer and state. */
  lemma FindMarkerIdempotent(f: Finder, d: Detection, markerId: int)
    requires WellFormed(d)
    ensures var r := FindMarker(f, d, markerId);
            FindMarker(r.finder, d, markerId) == r
  {
    if |d.ids| > 0 {
      var k := ChooseIndex(d.ids, markerId, f.lastMarkerId);
      var last := d.ids[k];
      ChosenIsFirstOccurrence(d.ids, markerId, f.lastMarkerId);
      var k2 := ChooseIndex(d.ids, markerId, last);
      if !RequestedPresent(d.ids, markerId) && !RequestedPresent(d.ids, f.lastMarkerId) {
        assert k == 0;
        if RequestedPresent(d.ids, last) {
          assert Find(d.ids, last) == 0;
        }
      }
      assert k2 == k;
    }
  }

  datatype AffineFit = AffineFit(finder: Finder, transform: Poses.Mat3, found: bool)

  /**
    `findAffineTransformOfMarker`: the identity and `false` when no marker
    is found, otherwise the fitted transform of the found corners.
  */
  function FindAffineTransformOfMarker(f: Finder, d: Detection, markerId: int,
                                       fit: seq<Point2> -> Poses.Mat3): (r: AffineFit)
    requires WellFormed(d)
    ensures r.finder == FindMarker(f, d, markerId).finder
    ensures r.found <==> FindMarker(f, d, markerId).corners != []
    ensures !r.found ==> r.transform == Poses.Identity()
    ensures r.found ==> r.transform == fit(FindMarker(f, d, markerId).corners)
    ensures |d.ids| == 0 ==> !r.found && r.finder == f
  {
    var m := FindMarker(f, d, markerId);
    if m.corners == [] then AffineFit(m.finder, Poses.Identity(), false)
    else AffineFit(m.finder, fit(m.corners), true)
  }
}
