/**
  The rectangle-selection rule of SpookCam's image pre-processor.

  A rectangle detector proposes quadrilaterals, each given by four corners.
  The selector keeps the first candidate as the default winner and scans the
  list once, letting a candidate take over only when the sum of its top edge
  and left edge ("half perimeter") is strictly larger than the best seen so
  far (which starts at 0) and it is wide enough: its left edge is shorter
  than half its top edge.

  Edge lengths are measured with `hypot`, the Euclidean length of a
  displacement. It stands for the platform's single-precision `hypotf` and is
  a parameter of the model, so every statement here holds for any length
  function; floating-point rounding is not modelled.
*/
module ImagePreProcessor {

  datatype Option<T> = None | Some(value: T)

  /** A point in image space. */
  datatype Point = Point(x: real, y: real)

  /** One detected quadrilateral, corners in the detector's order. */
  datatype RectangleFeature = RectangleFeature(
    topLeft: Point,
    topRight: Point,
    bottomLeft: Point,
    bottomRight: Point)

  /** The length of a displacement (dx, dy). */
  type Hypot = (real, real) -> real

  // ---------------------------------------------------------------------------
  // Scoring of one candidate
  // ---------------------------------------------------------------------------

  /** Length of the top edge, from topLeft to topRight. */
  function Width(r: RectangleFeature, hypot: Hypot): real {
    hypot(r.topRight.x - r.topLeft.x, r.topRight.y - r.topLeft.y)
  }

  /** Length of the left edge, from topLeft to bottomLeft. */
  function Height(r: RectangleFeature, hypot: Hypot): real {
    hypot(r.bottomLeft.x - r.topLeft.x, r.bottomLeft.y - r.topLeft.y)
  }

  /** The size score: top edge plus left edge. */
  function HalfPerimeter(r: RectangleFeature, hypot: Hypot): real {
    Width(r, hypot) + Height(r, hypot)
  }

  /** The aspect gate: strictly less high than half as wide. */
  predicate PassesAspectGate(r: RectangleFeature, hypot: Hypot) {
    Height(r, hypot) < Width(r, hypot) / 2.0
  }

  /** A candidate that could ever replace the default winner. */
  predicate Eligible(r: RectangleFeature, hypot: Hypot) {
    PassesAspectGate(r, hypot) && HalfPerimeter(r, hypot) > 0.0
  }

  // ---------------------------------------------------------------------------
  // Functional specification of the selection
  // ---------------------------------------------------------------------------

  /** The largest half perimeter among gate-passing candidates, or 0 when no
      gate-passing candidate has a positive one. */
  function BestHalfPerimeter(rs: seq<RectangleFeature>, hypot: Hypot): (m: real)
    ensures m >= 0.0
    ensures forall j :: 0 <= j < |rs| && PassesAspectGate(rs[j], hypot) ==> HalfPerimeter(rs[j], hypot) <= m
  {
    if rs == [] then 0.0
    else
      var rest := BestHalfPerimeter(rs[1..], hypot);
      assert forall j :: 1 <= j < |rs| ==> rs[j] == rs[1..][j - 1];
      if PassesAspectGate(rs[0], hypot) && HalfPerimeter(rs[0], hypot) > rest
      then HalfPerimeter(rs[0], hypot)
      else rest
  }

  /** The position of the first gate-passing candidate whose half perimeter is
      exactly m, or |rs| when there is none. */
  function FirstReaching(rs: seq<RectangleFeature>, hypot: Hypot, m: real): (k: nat)
    ensures k <= |rs|
    ensures k < |rs| ==> PassesAspectGate(rs[k], hypot) && HalfPerimeter(rs[k], hypot) == m
    ensures forall j :: 0 <= j < k ==> !(PassesAspectGate(rs[j], hypot) && HalfPerimeter(rs[j], hypot) == m)
  {
    if rs == [] then 0
    else if PassesAspectGate(rs[0], hypot) && HalfPerimeter(rs[0], hypot) == m then 0
    else
      var k := 1 + FirstReaching(rs[1..], hypot, m);
      assert forall j :: 1 <= j < |rs| ==> rs[j] == rs[1..][j - 1];
      k
  }

  /** A positive best half perimeter is reached by some gate-passing candidate. */
  lemma {:induction false} BestHalfPerimeterReached(rs: seq<RectangleFeature>, hypot: Hypot)
    requires BestHalfPerimeter(rs, hypot) > 0.0
    ensures FirstReaching(rs, hypot, BestHalfPerimeter(rs, hypot)) < |rs|
  {
    var m := BestHalfPerimeter(rs, hypot);
    if !(PassesAspectGate(rs[0], hypot) && HalfPerimeter(rs[0], hypot) == m) {
      assert BestHalfPerimeter(rs[1..], hypot) == m;
      BestHalfPerimeterReached(rs[1..], hypot);
    }
  }

  /** The position of the selected candidate: None for an empty list, else the
      first gate-passing candidate of largest positive half perimeter, else the
      first candidate. */
  function BiggestIndex(rs: seq<RectangleFeature>, hypot: Hypot): (r: Option<nat>)
    ensures r.None? <==> rs == []
    ensures r.Some? ==> r.value < |rs|
  {
    if rs == [] then None
    else
      var m := BestHalfPerimeter(rs, hypot);
      if m > 0.0 then
        BestHalfPerimeterReached(rs, hypot);
        Some(FirstReaching(rs, hypot, m))
      else Some(0)
  }

  /** The selected candidate itself. */
  function Biggest(rs: seq<RectangleFeature>, hypot: Hypot): (r: Option<RectangleFeature>)
    ensures r.None? <==> rs == []
    ensures r.Some? ==> r.value in rs
  {
    match BiggestIndex(rs, hypot)
    case None => None
    case Some(k) => Some(rs[k])
  }

  /** Declarative reading of the rule: k is the chosen position. If some
      candidate passes the gate with a positive score, k holds the largest
      gate-passing score and every earlier gate-passing candidate scores
      strictly less; otherwise k is the first position. */
  ghost predicate IsBiggest(rs: seq<RectangleFeature>, hypot: Hypot, k: nat) {
    && k < |rs|
    && if exists j :: 0 <= j < |rs| && Eligible(rs[j], hypot) then
         && Eligible(rs[k], hypot)
         && (forall j :: 0 <= j < |rs| && PassesAspectGate(rs[j], hypot) ==>
               HalfPerimeter(rs[j], hypot) <= HalfPerimeter(rs[k], hypot))
         && (forall j :: 0 <= j < k && PassesAspectGate(rs[j], hypot) ==>
               HalfPerimeter(rs[j], hypot) < HalfPerimeter(rs[k], hypot))
       else k == 0
  }

  // ---------------------------------------------------------------------------
  // The scan itself
  // ---------------------------------------------------------------------------

  /** The selection as the source performs it: one pass with a running best
      half perimeter and a running winner. The image argument is not used. */
  method BiggestRectangle<Image>(rectangles: seq<RectangleFeature>, inputImage: Image, hypot: Hypot)
    returns (biggest: Option<RectangleFeature>)
    ensures biggest.None? <==> rectangles == []
    ensures biggest == Biggest(rectangles, hypot)
  {
    if |rectangles| == 0 {
      return None;
    }
    var halfPerimeterValue: real := 0.0;
    var winner := rectangles[0];
    ghost var at: nat := 0;
    for i := 0 to |rectangles|
      invariant halfPerimeterValue == BestHalfPerimeter(rectangles[..i], hypot)
      invariant at == (if halfPerimeterValue > 0.0 then FirstReaching(rectangles[..i], hypot, halfPerimeterValue) else 0)
      invariant at < |rectangles| && winner == rectangles[at]
    {
      var rect := rectangles[i];
      var width := hypot(rect.topRight.x - rect.topLeft.x, rect.topRight.y - rect.topLeft.y);
      var height := hypot(rect.bottomLeft.x - rect.topLeft.x, rect.bottomLeft.y - rect.topLeft.y);
      var currentHalfPerimeterValue := width + height;
      assert rectangles[..i + 1] == rectangles[..i] + [rect];
      BestHalfPerimeterSnoc(rectangles[..i], rect, hypot);
      if halfPerimeterValue < currentHalfPerimeterValue && height < width / 2.0 {
        FirstReachingSnoc(rectangles[..i], rect, hypot, currentHalfPerimeterValue);
        halfPerimeterValue := currentHalfPerimeterValue;
        winner := rect;
        at := i;
      } else if halfPerimeterValue > 0.0 {
        BestHalfPerimeterReached(rectangles[..i], hypot);
        FirstReachingSnoc(rectangles[..i], rect, hypot, halfPerimeterValue);
      }
    }
    assert rectangles[..|rectangles|] == rectangles;
    return Some(winner);
  }

  /** Scanning one more candidate: the best grows exactly when the new
      candidate passes the gate and beats the old best strictly. */
  lemma {:induction false} BestHalfPerimeterSnoc(s: seq<RectangleFeature>, x: RectangleFeature, hypot: Hypot)
    ensures BestHalfPerimeter(s + [x], hypot)
         == if PassesAspectGate(x, hypot) && HalfPerimeter(x, hypot) > BestHalfPerimeter(s, hypot)
            then HalfPerimeter(x, hypot) else BestHalfPerimeter(s, hypot)
  {
    if s != [] {
      assert (s + [x])[1..] == s[1..] + [x];
      BestHalfPerimeterSnoc(s[1..], x, hypot);
    }
  }

  /** Scanning one more candidate does not move an earlier first match; with
      no earlier match, the new candidate is the first match if it matches. */
  lemma {:induction false} FirstReachingSnoc(s: seq<RectangleFeature>, x: RectangleFeature, hypot: Hypot, m: real)
    ensures FirstReaching(s + [x], hypot, m)
         == if FirstReaching(s, hypot, m) < |s| then FirstReaching(s, hypot, m)
            else if PassesAspectGate(x, hypot) && HalfPerimeter(x, hypot) == m then |s|
            else |s| + 1
  {
    if s != [] {
      assert (s + [x])[1..] == s[1..] + [x];
      FirstReachingSnoc(s[1..], x, hypot, m);
    }
  }

  // ---------------------------------------------------------------------------
  // Properties of the selection
  // ---------------------------------------------------------------------------

  /** The functional specification meets the declarative rule. */
  lemma SelectionIsBiggest(rs: seq<RectangleFeature>, hypot: Hypot)
    requires rs != []
    ensures IsBiggest(rs, hypot, BiggestIndex(rs, hypot).value)
  {
    var m := BestHalfPerimeter(rs, hypot);
    var k := BiggestIndex(rs, hypot).value;
    if m > 0.0 {
      assert Eligible(rs[k], hypot);
    } else {
      assert !exists j :: 0 <= j < |rs| && Eligible(rs[j], hypot);
    }
  }

  /** The declarative rule determines the chosen position uniquely, so it is
      a complete description of the selection. */
  lemma BiggestIsUnique(rs: seq<RectangleFeature>, hypot: Hypot, k1: nat, k2: nat)
    requires IsBiggest(rs, hypot, k1) && IsBiggest(rs, hypot, k2)
    ensures k1 == k2
  {
  }

  /** Any position satisfying the declarative rule is the one selected. */
  lemma BiggestIndexCharacterized(rs: seq<RectangleFeature>, hypot: Hypot, k: nat)
    ensures IsBiggest(rs, hypot, k) <==> BiggestIndex(rs, hypot) == Some(k)
  {
    if rs != [] {
      SelectionIsBiggest(rs, hypot);
      if IsBiggest(rs, hypot, k) {
        BiggestIsUnique(rs, hypot, k, BiggestIndex(rs, hypot).value);
      }
    }
  }

  /** A single candidate is selected whatever its shape. */
  lemma SingleCandidate(q: RectangleFeature, hypot: Hypot)
    ensures BiggestIndex([q], hypot) == Some(0)
  {
    SelectionIsBiggest([q], hypot);
  }

  /** The winner is the default first candidate or an eligible one. */
  lemma DefaultOrEligible(rs: seq<RectangleFeature>, hypot: Hypot, k: nat)
    requires BiggestIndex(rs, hypot) == Some(k)
    ensures k == 0 || Eligible(rs[k], hypot)
  {
    SelectionIsBiggest(rs, hypot);
  }

  /** A candidate exactly half as high as wide fails the strict gate and can
      only be chosen as the default. */
  lemma HalfHighOnlyByDefault(rs: seq<RectangleFeature>, hypot: Hypot, k: nat)
    requires 0 < k < |rs|
    requires Height(rs[k], hypot) == Width(rs[k], hypot) / 2.0
    ensures BiggestIndex(rs, hypot) != Some(k)
  {
    if BiggestIndex(rs, hypot) == Some(k) {
      DefaultOrEligible(rs, hypot, k);
    }
  }

  /** With no eligible candidate the first one is chosen; with some, the
      winner is eligible and no gate-passing candidate scores higher. */
  lemma WinnerHasLargestScore(rs: seq<RectangleFeature>, hypot: Hypot)
    requires rs != []
    ensures (forall j :: 0 <= j < |rs| ==> !Eligible(rs[j], hypot)) ==> BiggestIndex(rs, hypot) == Some(0)
    ensures (exists j :: 0 <= j < |rs| && Eligible(rs[j], hypot)) ==>
              var k := BiggestIndex(rs, hypot).value;
              && Eligible(rs[k], hypot)
              && forall j :: 0 <= j < |rs| && PassesAspectGate(rs[j], hypot) ==>
                   HalfPerimeter(rs[j], hypot) <= HalfPerimeter(rs[k], hypot)
  {
    SelectionIsBiggest(rs, hypot);
  }

  /** Ties go to the earlier candidate: a later gate-passing candidate with the
      same score as an earlier gate-passing one is never chosen. */
  lemma TieKeepsEarlier(rs: seq<RectangleFeature>, hypot: Hypot, i: nat, k: nat)
    requires i < k < |rs|
    requires PassesAspectGate(rs[i], hypot) && PassesAspectGate(rs[k], hypot)
    requires HalfPerimeter(rs[i], hypot) == HalfPerimeter(rs[k], hypot)
    ensures BiggestIndex(rs, hypot) != Some(k)
  {
    SelectionIsBiggest(rs, hypot);
  }

  /** Of a gate-passing and a gate-failing candidate, the gate-passing one is
      chosen in either order (if its score is positive). */
  lemma GateDecidesBetweenTwo(a: RectangleFeature, b: RectangleFeature, hypot: Hypot)
    requires Eligible(a, hypot) && !PassesAspectGate(b, hypot)
    ensures BiggestIndex([a, b], hypot) == Some(0)
    ensures BiggestIndex([b, a], hypot) == Some(1)
  {
    SelectionIsBiggest([a, b], hypot);
    SelectionIsBiggest([b, a], hypot);
  }

  /** Of two gate-passing candidates, the one with the larger positive score
      is chosen in either order. */
  lemma LargerScoreWinsBetweenTwo(a: RectangleFeature, b: RectangleFeature, hypot: Hypot)
    requires PassesAspectGate(a, hypot) && PassesAspectGate(b, hypot)
    requires HalfPerimeter(a, hypot) < HalfPerimeter(b, hypot) && HalfPerimeter(b, hypot) > 0.0
    ensures BiggestIndex([a, b], hypot) == Some(1)
    ensures BiggestIndex([b, a], hypot) == Some(0)
  {
    SelectionIsBiggest([a, b], hypot);
    SelectionIsBiggest([b, a], hypot);
  }

  /** Two candidate lists that agree on every topLeft, topRight and
      bottomLeft corner. */
  predicate SameScoredCorners(rs: seq<RectangleFeature>, ts: seq<RectangleFeature>) {
    && |rs| == |ts|
    && forall j :: 0 <= j < |rs| ==>
         && rs[j].topLeft == ts[j].topLeft
         && rs[j].topRight == ts[j].topRight
         && rs[j].bottomLeft == ts[j].bottomLeft
  }

  /** The bottomRight corners never influence which position is chosen. */
  lemma {:induction false} BottomRightIgnored(rs: seq<RectangleFeature>, ts: seq<RectangleFeature>, hypot: Hypot)
    requires SameScoredCorners(rs, ts)
    ensures BiggestIndex(rs, hypot) == BiggestIndex(ts, hypot)
  {
    if rs != [] {
      SameCornersSameBest(rs, ts, hypot);
      SameCornersSameFirst(rs, ts, hypot, BestHalfPerimeter(rs, hypot));
    }
  }

  lemma {:induction false} SameCornersSameBest(rs: seq<RectangleFeature>, ts: seq<RectangleFeature>, hypot: Hypot)
    requires SameScoredCorners(rs, ts)
    ensures BestHalfPerimeter(rs, hypot) == BestHalfPerimeter(ts, hypot)
  {
    if rs != [] {
      assert SameScoredCorners(rs[1..], ts[1..]) by {
        assert forall j :: 0 <= j < |rs| - 1 ==> rs[1..][j] == rs[j + 1] && ts[1..][j] == ts[j + 1];
      }
      SameCornersSameBest(rs[1..], ts[1..], hypot);
    }
  }

  lemma {:induction false} SameCornersSameFirst(rs: seq<RectangleFeature>, ts: seq<RectangleFeature>, hypot: Hypot, m: real)
    requires SameScoredCorners(rs, ts)
    ensures FirstReaching(rs, hypot, m) == FirstReaching(ts, hypot, m)
  {
    if rs != [] {
      assert SameScoredCorners(rs[1..], ts[1..]) by {
        assert forall j :: 0 <= j < |rs| - 1 ==> rs[1..][j] == rs[j + 1] && ts[1..][j] == ts[j + 1];
      }
      SameCornersSameFirst(rs[1..], ts[1..], hypot, m);
    }
  }
}
