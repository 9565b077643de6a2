/** The `Dynamics` pipelines (src/modules/computervision/Dynamics.ts): hand
    gestures to hand actions, wrist selection, and the wrist-to-cursor
    mapping. Each rxjs pipeline is a function from the finite sequence of
    frames received so far to the sequence of values emitted. */
module Dynamics {
  import opened Wrappers
  import opened Landmarks
  import opened Streams
  import opened Averaging

  // Wrist indexes are swapped because the video is mirrored.
  const RightWristIndex: nat := 16
  const LeftWristIndex: nat := 15

  const CursorScale: real := 2250.0
  const CursorOX: real := 960.0
  const CursorOY: real := 540.0

  /** A gesture must score strictly above this to win. */
  const ScoreThreshold: real := 8.0

  /** The pose estimator's landmark list; only the wrists are used. */
  type Pose = p: seq<Landmark> | |p| > RightWristIndex witness seq(RightWristIndex + 1, _ => Origin)

  datatype HandGesture = HandGesture(name: string, confidence: real)

  // ----- handGestures -----

  /** The gestures of one hand-tracking frame: only the first detected hand
      is classified; no hand, or a classifier result without gestures, gives
      the empty list. `estimate` stands for the gesture classifier. */
  function HandGesturesOf<H>(hands: seq<H>, estimate: H -> Option<seq<HandGesture>>): (r: seq<HandGesture>)
    ensures hands == [] ==> r == []
    ensures hands != [] && estimate(hands[0]).None? ==> r == []
    ensures hands != [] && estimate(hands[0]).Some? ==> r == estimate(hands[0]).value
  {
    if |hands| > 0 then
      match estimate(hands[0])
      case Some(gestures) => gestures
      case None => []
    else []
  }

  /** Hands after the first never affect the gestures. */
  lemma FirstHandOnly<H>(hands: seq<H>, others: seq<H>, estimate: H -> Option<seq<HandGesture>>)
    requires |hands| > 0 && |others| > 0 && hands[0] == others[0]
    ensures HandGesturesOf(hands, estimate) == HandGesturesOf(others, estimate)
  {
  }

  /** `handGestures`: per frame the gesture list, repeated lists dropped. */
  function HandGestures<H>(frames: seq<seq<H>>, estimate: H -> Option<seq<HandGesture>>): (r: seq<seq<HandGesture>>)
    ensures |r| <= |frames| && NoAdjacentDuplicates(r)
  {
    DistinctUntilChanged(Map(frames, hands => HandGesturesOf(hands, estimate)))
  }

  // ----- singleHandGesture -----

  /** The `forEach` over the gestures from a current winner and threshold:
      a gesture scoring strictly above the threshold becomes the winner and
      raises the threshold to its score. */
  function Scan(gestures: seq<HandGesture>, winner: string, threshold: real): (r: (string, real))
    ensures r.1 >= threshold
    ensures r.1 == threshold ==> r.0 == winner
  {
    if gestures == [] then (winner, threshold)
    else if gestures[0].confidence > threshold then Scan(gestures[1..], gestures[0].name, gestures[0].confidence)
    else Scan(gestures[1..], winner, threshold)
  }

  /** The gesture reported for one frame: the winner of the scan from `""`
      and 8, or `"none"` when the list is empty or nothing won. */
  function Winner(gestures: seq<HandGesture>): (r: string)
    ensures r != ""
  {
    if |gestures| > 0 then
      var w := Scan(gestures, "", ScoreThreshold).0;
      if w != "" then w else "none"
    else "none"
  }

  /** The loop of `singleHandGesture` for one frame. */
  method SingleHandWinner(gestures: seq<HandGesture>) returns (gesture: string)
    ensures gesture == Winner(gestures)
  {
    if |gestures| > 0 {
      var winner := "";
      var scoreThreshold := ScoreThreshold;
      for i := 0 to |gestures|
        invariant Scan(gestures[i..], winner, scoreThreshold) == Scan(gestures, "", ScoreThreshold)
      {
        assert gestures[i..][1..] == gestures[i + 1..];
        var g := gestures[i];
        if g.confidence > scoreThreshold {
          winner := g.name;
          scoreThreshold := g.confidence;
        }
      }
      if winner != "" {
        gesture := winner;
      } else {
        gesture := "none";
      }
    } else {
      gesture := "none";
    }
  }

  /** Entry k is the earliest of the highest-scoring entries, and it scores
      strictly above `threshold`. */
  predicate IsFirstMaximum(gestures: seq<HandGesture>, k: int, threshold: real)
  {
    0 <= k < |gestures| && gestures[k].confidence > threshold &&
    (forall m :: 0 <= m < k ==> gestures[m].confidence < gestures[k].confidence) &&
    (forall m :: k < m < |gestures| ==> gestures[m].confidence <= gestures[k].confidence)
  }

  /** Nothing above the threshold: the scan leaves winner and threshold. */
  lemma {:induction false} ScanBelow(gestures: seq<HandGesture>, winner: string, threshold: real)
    requires forall m :: 0 <= m < |gestures| ==> gestures[m].confidence <= threshold
    ensures Scan(gestures, winner, threshold) == (winner, threshold)
  {
    if gestures != [] {
      ScanBelow(gestures[1..], winner, threshold);
    }
  }

  /** The scan ends on the first maximum. */
  lemma {:induction false} ScanAtFirstMaximum(gestures: seq<HandGesture>, winner: string, threshold: real, k: int)
    requires IsFirstMaximum(gestures, k, threshold)
    ensures Scan(gestures, winner, threshold) == (gestures[k].name, gestures[k].confidence)
  {
    var rest := gestures[1..];
    if k == 0 {
      ScanBelow(rest, gestures[0].name, gestures[0].confidence);
    } else if gestures[0].confidence > threshold {
      ScanAtFirstMaximum(rest, gestures[0].name, gestures[0].confidence, k - 1);
    } else {
      ScanAtFirstMaximum(rest, winner, threshold, k - 1);
    }
  }

  /** Some entry above the threshold: a first maximum exists. */
  lemma {:induction false} FirstMaximumExists(gestures: seq<HandGesture>, threshold: real, m: int)
    requires 0 <= m < |gestures| && gestures[m].confidence > threshold
    ensures exists k :: IsFirstMaximum(gestures, k, threshold)
  {
    var rest := gestures[1..];
    var best := exists i :: 0 < i < |gestures| && gestures[i].confidence > gestures[0].confidence;
    if best {
      var i :| 0 < i < |gestures| && gestures[i].confidence > gestures[0].confidence;
      FirstMaximumExists(rest, gestures[0].confidence, i - 1);
      var k :| IsFirstMaximum(rest, k, gestures[0].confidence);
      assert IsFirstMaximum(gestures, k + 1, threshold);
    } else {
      // nothing beats the first entry, which therefore beats the threshold
      assert IsFirstMaximum(gestures, 0, threshold);
    }
  }

  /** `"none"` when nothing scores strictly above 8 (in particular for the
      empty list). */
  lemma WinnerWithoutCandidate(gestures: seq<HandGesture>)
    requires forall m :: 0 <= m < |gestures| ==> gestures[m].confidence <= ScoreThreshold
    ensures Winner(gestures) == "none"
  {
    ScanBelow(gestures, "", ScoreThreshold);
  }

  /** Otherwise the earliest of the highest-scoring gestures wins (reported
      as `"none"` if its name is empty). */
  lemma WinnerIsFirstMaximum(gestures: seq<HandGesture>, k: int)
    requires IsFirstMaximum(gestures, k, ScoreThreshold)
    ensures Winner(gestures) == if gestures[k].name != "" then gestures[k].name else "none"
  {
    ScanAtFirstMaximum(gestures, "", ScoreThreshold, k);
  }

  /** The reported gesture, when not `"none"`, is the name of a gesture of
      the list that scores strictly above 8 and at least as high as all. */
  lemma WinnerScoresHighest(gestures: seq<HandGesture>)
    requires Winner(gestures) != "none"
    ensures exists k :: 0 <= k < |gestures| && gestures[k].name == Winner(gestures) &&
                        gestures[k].confidence > ScoreThreshold &&
                        forall m :: 0 <= m < |gestures| ==> gestures[m].confidence <= gestures[k].confidence
  {
    if forall m :: 0 <= m < |gestures| ==> gestures[m].confidence <= ScoreThreshold {
      WinnerWithoutCandidate(gestures);
    } else {
      var m :| 0 <= m < |gestures| && gestures[m].confidence > ScoreThreshold;
      FirstMaximumExists(gestures, ScoreThreshold, m);
      var k :| IsFirstMaximum(gestures, k, ScoreThreshold);
      WinnerIsFirstMaximum(gestures, k);
      assert forall m :: 0 <= m < |gestures| ==> gestures[m].confidence <= gestures[k].confidence;
    }
  }

  lemma WinnerExamples()
    ensures Winner([HandGesture("open hand", 9.0), HandGesture("closed hand", 9.5)]) == "closed hand"
    ensures Winner([HandGesture("open hand", 9.0), HandGesture("closed hand", 9.0)]) == "open hand"
    ensures Winner([HandGesture("open hand", 8.0)]) == "none"
  {
    assert IsFirstMaximum([HandGesture("open hand", 9.0), HandGesture("closed hand", 9.5)], 1, ScoreThreshold);
    WinnerIsFirstMaximum([HandGesture("open hand", 9.0), HandGesture("closed hand", 9.5)], 1);
    assert IsFirstMaximum([HandGesture("open hand", 9.0), HandGesture("closed hand", 9.0)], 0, ScoreThreshold);
    WinnerIsFirstMaximum([HandGesture("open hand", 9.0), HandGesture("closed hand", 9.0)], 0);
    WinnerWithoutCandidate([HandGesture("open hand", 8.0)]);
  }

  /** `singleHandGesture`: per gesture list its winner, repeats dropped. */
  function SingleHandGesture<H>(frames: seq<seq<H>>, estimate: H -> Option<seq<HandGesture>>): (r: seq<string>)
    ensures |r| <= |frames| && NoAdjacentDuplicates(r)
  {
    DistinctUntilChanged(Map(HandGestures(frames, estimate), Winner))
  }

  // ----- handActions -----

  datatype HandAction = HandOpened | HandClosed | NoAction

  /** The `switch` from gesture name to action. */
  function ActionOf(gesture: string): HandAction
  {
    if gesture == "open hand" then HandOpened
    else if gesture == "closed hand" then HandClosed
    else NoAction
  }

  /** The gesture name each action comes from. */
  function GestureOf(action: HandAction): string
  {
    match action
    case HandOpened => "open hand"
    case HandClosed => "closed hand"
    case NoAction => "none"
  }

  /** Only the two named gestures produce an action, and each action comes
      from exactly one name. */
  lemma ActionRoundTrip(gesture: string, action: HandAction)
    ensures ActionOf(GestureOf(action)) == action
    ensures ActionOf(gesture) != NoAction ==> GestureOf(ActionOf(gesture)) == gesture
  {
  }

  predicate IsAction(a: HandAction)
  {
    a != NoAction
  }

  /** `handActions`: winners mapped to actions, `"none"` dropped, repeats
      dropped. */
  function HandActions<H>(frames: seq<seq<H>>, estimate: H -> Option<seq<HandGesture>>): (r: seq<HandAction>)
    ensures |r| <= |frames|
  {
    DistinctUntilChanged(Filter(Map(SingleHandGesture(frames, estimate), ActionOf), IsAction))
  }

  /** The action stream never carries `none` and never repeats an action. */
  lemma HandActionsClean<H>(frames: seq<seq<H>>, estimate: H -> Option<seq<HandGesture>>)
    ensures NoAction !in HandActions(frames, estimate)
    ensures NoAdjacentDuplicates(HandActions(frames, estimate))
  {
    var filtered := Filter(Map(SingleHandGesture(frames, estimate), ActionOf), IsAction);
    if NoAction in HandActions(frames, estimate) {
      DistinctUntilChangedMembers(filtered, NoAction);
    }
  }

  /** The action one hand-tracking frame stands for. */
  function FrameAction<H>(hands: seq<H>, estimate: H -> Option<seq<HandGesture>>): HandAction
  {
    ActionOf(Winner(HandGesturesOf(hands, estimate)))
  }

  /** The intermediate deduplications change nothing: the action stream is
      the per-frame action, `none` dropped, repeats dropped. */
  lemma HandActionsPerFrame<H>(frames: seq<seq<H>>, estimate: H -> Option<seq<HandGesture>>)
    ensures HandActions(frames, estimate) ==
            DistinctUntilChanged(Filter(Map(frames, hands => FrameAction(hands, estimate)), IsAction))
  {
    var g := hands => HandGesturesOf(hands, estimate);
    var gestures := Map(frames, g);
    var winners := Map(gestures, Winner);
    DistinctUntilChangedThroughMap(gestures, Winner);
    var mapped := Map(DistinctUntilChanged(winners), ActionOf);
    DistinctUntilChangedThroughMap(winners, ActionOf);
    DistinctUntilChangedThroughFilter(mapped, IsAction);
    DistinctUntilChangedThroughFilter(Map(winners, ActionOf), IsAction);
    assert Map(winners, ActionOf) == Map(frames, hands => FrameAction(hands, estimate));
  }

  // ----- eitherWrist -----

  datatype Side = Right | Left

  /** The map of `eitherWrist`: a wrist with its side, or no wrist when the
      frame has no pose. */
  datatype AnnotatedLandmark = Wrist(side: Side, landmark: Landmark) | NoWrist

  function Other(side: Side): Side
  {
    if side == Right then Left else Right
  }

  function WristOf(pose: Pose, side: Side): Landmark
  {
    if side == Right then pose[RightWristIndex] else pose[LeftWristIndex]
  }

  /** `visibility && visibility >= threshold`: an undefined or zero
      visibility fails whatever the threshold. */
  predicate Passes(l: Landmark, threshold: real)
  {
    l.visibility.Some? && l.visibility.value != 0.0 && l.visibility.value >= threshold
  }

  /** The preferred wrist if it passes, else the other one if it passes,
      else the preferred one anyway. */
  function SelectWrist(pose: Option<Pose>, preference: Side, threshold: real): (r: AnnotatedLandmark)
    ensures pose.None? <==> r == NoWrist
    ensures r.Wrist? ==> r.landmark == WristOf(pose.value, r.side)
    ensures r.Wrist? && Passes(WristOf(pose.value, preference), threshold) ==> r.side == preference
    ensures r.Wrist? && r.side != preference ==> Passes(r.landmark, threshold)
    ensures r.Wrist? && !Passes(r.landmark, threshold) ==>
              r.side == preference && !Passes(WristOf(pose.value, Other(preference)), threshold)
  {
    match pose
    case None => NoWrist
    case Some(p) =>
      var preferred := WristOf(p, preference);
      var other := WristOf(p, Other(preference));
      if Passes(preferred, threshold) then Wrist(preference, preferred)
      else if Passes(other, threshold) then Wrist(Other(preference), other)
      else Wrist(preference, preferred)
  }

  /** The threshold `eitherWrist` and `ambidextrousCursor` use when none is
      given. */
  const DefaultWristThreshold: real := 0.5

  /** At the default threshold a wrist seen at visibility exactly 0.5 is
      selected, although the cursor test, which is strict, hides it. */
  lemma DefaultThresholdAdmitsHalf(pose: Pose, preference: Side)
    requires WristOf(pose, preference).visibility == Some(0.5)
    ensures SelectWrist(Some(pose), preference, DefaultWristThreshold) == Wrist(preference, WristOf(pose, preference))
    ensures !CursorOf(WristOf(pose, preference)).visible
  {
  }

  /** Undefined and zero visibility fail even at threshold 0. */
  lemma ZeroVisibilityFails(l: Landmark, threshold: real)
    requires l.visibility.None? || l.visibility == Some(0.0)
    ensures !Passes(l, threshold)
  {
  }

  /** When exactly one wrist passes, both preferences pick it. */
  lemma SelectionAgrees(pose: Pose, side: Side, threshold: real)
    requires Passes(WristOf(pose, side), threshold) && !Passes(WristOf(pose, Other(side)), threshold)
    ensures SelectWrist(Some(pose), Right, threshold) == Wrist(side, WristOf(pose, side))
    ensures SelectWrist(Some(pose), Left, threshold) == Wrist(side, WristOf(pose, side))
  {
  }

  // ----- cursor -----

  datatype CursorPoint = CursorPoint(x: real, y: real, visible: bool)

  /** The screen point of a landmark, mirrored horizontally; visible only
      for a visibility strictly above 0.5. */
  function CursorOf(l: Landmark): (c: CursorPoint)
    ensures c.visible <==> l.visibility.Some? && l.visibility.value > 0.5
  {
    CursorPoint((l.x - 0.5) * -CursorScale + CursorOX, (l.y - 0.5) * CursorScale + CursorOY,
                l.visibility.Some? && l.visibility.value > 0.5)
  }

  /** The landmark coordinates a screen point comes from. */
  function ScreenToLandmark(x: real, y: real): (real, real)
  {
    (0.5 - (x - CursorOX) / CursorScale, 0.5 + (y - CursorOY) / CursorScale)
  }

  lemma CursorCentre(z: real, visibility: Option<real>)
    ensures CursorOf(Landmark(0.5, 0.5, z, visibility)).x == CursorOX
    ensures CursorOf(Landmark(0.5, 0.5, z, visibility)).y == CursorOY
  {
  }

  /** Horizontal mirror: further right in the frame is further left on the
      screen; vertical order is kept. */
  lemma CursorMonotone(a: Landmark, b: Landmark)
    ensures a.x < b.x ==> CursorOf(a).x > CursorOf(b).x
    ensures a.y < b.y ==> CursorOf(a).y < CursorOf(b).y
  {
  }

  /** The mapping is invertible: screen point and landmark coordinates
      determine each other. */
  lemma CursorRoundTrip(l: Landmark, x: real, y: real)
    ensures ScreenToLandmark(CursorOf(l).x, CursorOf(l).y) == (l.x, l.y)
    ensures var (lx, ly) := ScreenToLandmark(x, y);
            CursorOf(Landmark(lx, ly, l.z, l.visibility)).x == x &&
            CursorOf(Landmark(lx, ly, l.z, l.visibility)).y == y
  {
  }

  // ----- rightWrist -----

  /** The poses `rightWrist` reads: frames up to the first one without
      `poseLandmarks`. Indexing the missing list throws, which ends the
      stream with an error, so nothing from that frame on is emitted. */
  function UntilError(frames: seq<Option<Pose>>): (r: seq<Pose>)
    ensures |r| <= |frames|
    ensures forall k :: 0 <= k < |r| ==> frames[k] == Some(r[k])
    ensures |r| < |frames| ==> frames[|r|].None?
  {
    if frames == [] || frames[0].None? then []
    else [frames[0].value] + UntilError(frames[1..])
  }

  /** A frame without a pose cuts the poses read off at that frame. */
  lemma {:induction false} UntilErrorAt(frames: seq<Option<Pose>>, k: int)
    requires 0 <= k < |frames| && frames[k].None?
    ensures UntilError(frames) == UntilError(frames[..k])
  {
    if k > 0 && frames[0].Some? {
      assert frames[..k][1..] == frames[1..][..k - 1];
      UntilErrorAt(frames[1..], k - 1);
    }
  }

  /** `rightWrist`: the average of each window of three consecutive right
      wrists, up to the first frame without a pose. */
  function RightWrist(frames: seq<Option<Pose>>): (r: seq<Landmark>)
    ensures |r| == if |UntilError(frames)| >= 3 then |UntilError(frames)| - 2 else 0
  {
    Map(Windows(Map(UntilError(frames), (p: Pose) => p[RightWristIndex]), 3), Average)
  }

  /** `cursor`: the screen point of each averaged right wrist. */
  function Cursor(frames: seq<Option<Pose>>): (r: seq<CursorPoint>)
    ensures |r| == |RightWrist(frames)|
  {
    Map(RightWrist(frames), CursorOf)
  }

  /** Output k averages the right wrists of frames k, k + 1 and k + 2, all
      of which have a pose; the first output comes with the third frame. */
  lemma RightWristWindows(frames: seq<Option<Pose>>, k: int)
    requires 0 <= k < |RightWrist(frames)|
    ensures k + 2 < |frames| && frames[k].Some? && frames[k + 1].Some? && frames[k + 2].Some?
    ensures RightWrist(frames)[k] ==
            Average([frames[k].value[RightWristIndex], frames[k + 1].value[RightWristIndex],
                     frames[k + 2].value[RightWristIndex]])
  {
    var poses := UntilError(frames);
    PoseWindows(poses, k);
    assert frames[k] == Some(poses[k]) && frames[k + 1] == Some(poses[k + 1]) && frames[k + 2] == Some(poses[k + 2]);
  }

  /** The windowed average over poses that are all present. */
  lemma PoseWindows(poses: seq<Pose>, k: int)
    requires 0 <= k && k + 2 < |poses|
    ensures Map(Windows(Map(poses, (p: Pose) => p[RightWristIndex]), 3), Average)[k] ==
            Average([poses[k][RightWristIndex], poses[k + 1][RightWristIndex], poses[k + 2][RightWristIndex]])
  {
    var wrists := Map(poses, (p: Pose) => p[RightWristIndex]);
    var windows := Windows(wrists, 3);
    assert windows[k] == [wrists[k], wrists[k + 1], wrists[k + 2]];
  }

  /** Once a frame has no pose, nothing from that frame on is emitted:
      the wrist and cursor streams are those of the frames before it. */
  lemma ErrorEndsStream(frames: seq<Option<Pose>>, k: int)
    requires 0 <= k < |frames| && frames[k].None?
    ensures RightWrist(frames) == RightWrist(frames[..k])
    ensures Cursor(frames) == Cursor(frames[..k])
  {
    UntilErrorAt(frames, k);
  }

  /** Three frames with a pose, from frame k on, make output k. */
  lemma PosesReachWindow(frames: seq<Option<Pose>>, k: int)
    requires 0 <= k && k + 2 < |frames|
    requires forall i :: 0 <= i <= k + 2 ==> frames[i].Some?
    ensures k < |RightWrist(frames)|
  {
  }

  /** Cursor k is the screen point of that average. */
  lemma CursorWindows(frames: seq<Option<Pose>>, k: int)
    requires 0 <= k && k + 2 < |frames|
    requires forall i :: 0 <= i <= k + 2 ==> frames[i].Some?
    ensures k < |Cursor(frames)|
    ensures Cursor(frames)[k] ==
            CursorOf(Average([frames[k].value[RightWristIndex], frames[k + 1].value[RightWristIndex],
                              frames[k + 2].value[RightWristIndex]]))
  {
    PosesReachWindow(frames, k);
    RightWristWindows(frames, k);
  }

  /** A wrist held still at a qualifying visibility is reported unchanged. */
  lemma SteadyWrist(frames: seq<Option<Pose>>, l: Landmark, k: int)
    requires Qualifies(l) && 0 <= k && k + 2 < |frames|
    requires forall i :: 0 <= i <= k + 2 ==> frames[i].Some? && frames[i].value[RightWristIndex] == l
    ensures k < |RightWrist(frames)| && RightWrist(frames)[k] == l
  {
    PosesReachWindow(frames, k);
    RightWristWindows(frames, k);
    AverageOfIdentical([l, l, l], l);
  }

  /** A wrist held still at visibility exactly 0.5 takes part in the
      average but hides the cursor, whose test is strict. */
  lemma HalfVisibleWristHidden(frames: seq<Option<Pose>>, x: real, y: real, z: real, k: int)
    requires 0 <= k && k + 2 < |frames|
    requires forall i :: 0 <= i <= k + 2 ==>
               frames[i].Some? && frames[i].value[RightWristIndex] == Landmark(x, y, z, Some(0.5))
    ensures k < |Cursor(frames)| && !Cursor(frames)[k].visible
  {
    SteadyWrist(frames, Landmark(x, y, z, Some(0.5)), k);
    CursorWindows(frames, k);
  }
}
