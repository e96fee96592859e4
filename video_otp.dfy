/** The video side of the pipeline: the frame loop that turns a recorded
    video into one finger count per frame, samples three frames for face
    crops, and gates the whole sequence on the face comparisons. The hand
    tracker, the face detector and the image comparison are not modelled:
    per frame, the tracked hands with their handedness labels and the
    detected face boxes are inputs, and so is the verdict of every
    comparison. */
module VideoOtp {
  import opened ImgProcessing
  import opened OtpValidation

  // ---------------------------------------------------------------------
  // Finger counting

  /** A hand landmark in normalised image coordinates (y grows downwards). */
  datatype Point = Point(x: real, y: real)

  /** A tracked hand: its landmarks, numbered as the hand tracker numbers
      them (4 is the thumb tip, 2 the thumb's lower joint, 8, 12, 16 and 20
      the other finger tips, each preceded by the joint below it). */
  datatype Hand = Hand(landmarks: seq<Point>)

  /** The tracker always reports 21 landmarks per hand. */
  predicate WellFormed(hand: Hand) {
    |hand.landmarks| == 21
  }

  predicate HandsWellFormed(hands: seq<Hand>) {
    forall i :: 0 <= i < |hands| ==> WellFormed(hands[i])
  }

  /** The tips of the four fingers other than the thumb. */
  const FingerTips: seq<nat> := [8, 12, 16, 20]

  /** The finger ending at `tip` is raised: its tip is above the joint
      below it. */
  predicate Raised(hand: Hand, tip: nat)
    requires WellFormed(hand) && 1 <= tip <= 20
  {
    hand.landmarks[tip].y < hand.landmarks[tip - 1].y
  }

  /** The number of raised fingers among `tips`. */
  function CountRaised(hand: Hand, tips: seq<nat>): (n: nat)
    requires WellFormed(hand)
    requires forall i :: 0 <= i < |tips| ==> 1 <= tips[i] <= 20
    ensures n <= |tips|
  {
    if tips == [] then 0
    else (if Raised(hand, tips[0]) then 1 else 0) + CountRaised(hand, tips[1..])
  }

  /** No finger is counted exactly when none is raised, and all are
      counted exactly when all are raised. */
  lemma {:induction false} CountRaisedExtremes(hand: Hand, tips: seq<nat>)
    requires WellFormed(hand)
    requires forall i :: 0 <= i < |tips| ==> 1 <= tips[i] <= 20
    ensures CountRaised(hand, tips) == 0 <==> forall i :: 0 <= i < |tips| ==> !Raised(hand, tips[i])
    ensures CountRaised(hand, tips) == |tips| <==> forall i :: 0 <= i < |tips| ==> Raised(hand, tips[i])
  {
    if tips != [] {
      CountRaisedExtremes(hand, tips[1..]);
      assert forall i :: 1 <= i < |tips| ==> tips[i] == tips[1..][i - 1];
    }
  }

  /** The thumb rule: the thumb tip lies to the left of its lower joint on
      a hand labelled "Right", and to the right of it on any other label. */
  predicate ThumbUp(hand: Hand, handedness: string)
    requires WellFormed(hand)
  {
    if handedness == "Right" then hand.landmarks[4].x < hand.landmarks[2].x
    else hand.landmarks[4].x > hand.landmarks[2].x
  }

  /** The fingers one hand shows: the thumb bit plus the raised fingers. */
  function HandCount(hand: Hand, handedness: string): (n: nat)
    requires WellFormed(hand)
    ensures n <= 5
  {
    CountRaised(hand, FingerTips) + (if ThumbUp(hand, handedness) then 1 else 0)
  }

  /** A hand counts 0 exactly when neither the thumb nor any finger is up,
      and 5 exactly when all are. */
  lemma HandCountExtremes(hand: Hand, handedness: string)
    requires WellFormed(hand)
    ensures HandCount(hand, handedness) == 0 <==>
      !ThumbUp(hand, handedness) && forall i :: 0 <= i < 4 ==> !Raised(hand, FingerTips[i])
    ensures HandCount(hand, handedness) == 5 <==>
      ThumbUp(hand, handedness) && forall i :: 0 <= i < 4 ==> Raised(hand, FingerTips[i])
  {
    CountRaisedExtremes(hand, FingerTips);
  }

  /** The same hand seen in a mirror. */
  function Mirror(hand: Hand): (m: Hand)
    ensures |m.landmarks| == |hand.landmarks|
  {
    Hand(seq(|hand.landmarks|, i requires 0 <= i < |hand.landmarks| =>
      Point(1.0 - hand.landmarks[i].x, hand.landmarks[i].y)))
  }

  /** The thumb rule is mirror-symmetric: a hand labelled "Right" shows its
      thumb exactly when its mirror image, labelled "Left", does, and the
      other fingers do not depend on the mirror. */
  lemma MirroredHandCountsTheSame(hand: Hand)
    requires WellFormed(hand)
    ensures WellFormed(Mirror(hand))
    ensures HandCount(hand, "Right") == HandCount(Mirror(hand), "Left")
  {
    var m := Mirror(hand);
    assert "Left" != "Right" by {
      assert "Left"[0] != "Right"[0];
    }
    assert ThumbUp(hand, "Right") == ThumbUp(m, "Left");
    forall i | 0 <= i < 4
      ensures Raised(hand, FingerTips[i]) == Raised(m, FingerTips[i])
    {
    }
    MirrorKeepsRaised(hand, m, FingerTips);
  }

  lemma {:induction false} MirrorKeepsRaised(hand: Hand, m: Hand, tips: seq<nat>)
    requires WellFormed(hand) && WellFormed(m)
    requires forall i :: 0 <= i < |tips| ==> 1 <= tips[i] <= 20
    requires forall i :: 0 <= i < |tips| ==> Raised(hand, tips[i]) == Raised(m, tips[i])
    ensures CountRaised(hand, tips) == CountRaised(m, tips)
  {
    if tips != [] {
      MirrorKeepsRaised(hand, m, tips[1..]);
    }
  }

  /** The fingers shown by the first `k` hand/label pairs. */
  function PairsTotal(hands: seq<Hand>, labels: seq<string>, k: nat): (t: nat)
    requires k <= |hands| && k <= |labels|
    requires HandsWellFormed(hands)
    ensures t <= 5 * k
  {
    if k == 0 then 0
    else PairsTotal(hands, labels, k - 1) + HandCount(hands[k - 1], labels[k - 1])
  }

  function Min(a: nat, b: nat): nat {
    if a <= b then a else b
  }

  /** The fingers shown in one frame: hands and handedness labels are
      paired with `zip`, so a hand without a label (or a label without a
      hand) is ignored. */
  function ZipTotal(hands: seq<Hand>, labels: seq<string>): (t: nat)
    requires HandsWellFormed(hands)
    ensures t <= 5 * |hands| && t <= 5 * |labels|
  {
    PairsTotal(hands, labels, Min(|hands|, |labels|))
  }

  lemma {:induction false} PairsTotalPrefix(hands: seq<Hand>, labels: seq<string>, extra: seq<Hand>, k: nat)
    requires k <= |hands| && k <= |labels|
    requires HandsWellFormed(hands)
    requires HandsWellFormed(extra)
    ensures HandsWellFormed(hands + extra)
    ensures PairsTotal(hands + extra, labels, k) == PairsTotal(hands, labels, k)
  {
    forall i | 0 <= i < |hands + extra|
      ensures WellFormed((hands + extra)[i])
    {
      if i < |hands| {
        assert (hands + extra)[i] == hands[i];
      } else {
        assert (hands + extra)[i] == extra[i - |hands|];
      }
    }
    if k > 0 {
      PairsTotalPrefix(hands, labels, extra, k - 1);
      assert (hands + extra)[k - 1] == hands[k - 1];
    }
  }

  /** Hands beyond the last handedness label add nothing to the count. */
  lemma UnlabelledHandsIgnored(hands: seq<Hand>, labels: seq<string>, extra: seq<Hand>)
    requires |labels| <= |hands|
    requires HandsWellFormed(hands)
    requires HandsWellFormed(extra)
    ensures HandsWellFormed(hands + extra)
    ensures ZipTotal(hands + extra, labels) == ZipTotal(hands, labels)
  {
    PairsTotalPrefix(hands, labels, extra, |labels|);
  }

  /** `min(max(total, 0), 9)`: the digit a frame stands for. */
  function Clamp(total: int): (d: int)
    ensures 0 <= d <= 9
    ensures 0 <= total <= 9 ==> d == total
    ensures total > 9 ==> d == 9
    ensures total < 0 ==> d == 0
  {
    if total < 0 then 0 else if total > 9 then 9 else total
  }

  /** The per-frame count of the inner loop: the pairs are added one by
      one. */
  method FrameTotal(hands: seq<Hand>, labels: seq<string>) returns (total: int)
    requires HandsWellFormed(hands)
    ensures total == ZipTotal(hands, labels)
    ensures 0 <= total <= 5 * Min(|hands|, |labels|)
  {
    total := 0;
    var pairs := Min(|hands|, |labels|);
    var k := 0;
    while k < pairs
      invariant 0 <= k <= pairs
      invariant total == PairsTotal(hands, labels, k)
    {
      total := total + HandCount(hands[k], labels[k]);
      k := k + 1;
    }
  }

  /** The hand tracker reports at most two hands, so a frame shows at most
      ten fingers, and only ten itself is clamped (to 9). */
  lemma TwoHandsClampOnlyTen(hands: seq<Hand>, labels: seq<string>)
    requires |hands| <= 2
    requires HandsWellFormed(hands)
    ensures ZipTotal(hands, labels) <= 10
    ensures Clamp(ZipTotal(hands, labels)) == ZipTotal(hands, labels) || ZipTotal(hands, labels) == 10
  {
  }

  // ---------------------------------------------------------------------
  // Face sampling and cropping

  /** What the loop sees in one frame. */
  datatype Frame = Frame(hands: seq<Hand>, labels: seq<string>, faces: seq<Box>, height: nat, width: nat)

  predicate FrameWellFormed(f: Frame) {
    HandsWellFormed(f.hands)
  }

  predicate FramesWellFormed(frames: seq<Frame>) {
    forall i :: 0 <= i < |frames| ==> FrameWellFormed(frames[i])
  }

  /** The digit a frame stands for. */
  function FrameDigit(f: Frame): (d: int)
    requires FrameWellFormed(f)
    ensures 0 <= d <= 9
  {
    Clamp(ZipTotal(f.hands, f.labels))
  }

  /** The margin kept around a face. */
  const Margin: nat := 50

  /** `[0, n // 2, n - 1]` for the reported frame count `n` (for a positive
      divisor Dafny's `/` rounds down, as Python's `//` does). */
  function SelectedFrames(n: int): seq<int> {
    [0, n / 2, n - 1]
  }

  /** For a video that reports at least one frame, the sampled indices are
      frame indices of it, starting with the first and ending with the
      last. */
  lemma SelectedFramesInVideo(n: int)
    requires n >= 1
    ensures forall i :: i in SelectedFrames(n) ==> 0 <= i < n
    ensures SelectedFrames(n)[0] == 0 && SelectedFrames(n)[2] == n - 1
    ensures SelectedFrames(n)[0] <= SelectedFrames(n)[1] <= SelectedFrames(n)[2]
  {
  }

  /** A crop window: rows `top..bottom` and columns `left..right`, end
      exclusive. */
  datatype Window = Window(top: nat, bottom: nat, left: nat, right: nat)

  /** The window cut around a face box in a `height` by `width` frame: the
      box grown by the margin on every side and clamped to the frame. */
  function CropWindow(b: Box, height: nat, width: nat): (win: Window)
    ensures win.bottom <= height && win.right <= width
    ensures b.y + b.h <= height ==> win.top <= b.y && b.y + b.h <= win.bottom
    ensures b.x + b.w <= width ==> win.left <= b.x && b.x + b.w <= win.right
    ensures win.bottom <= b.y + b.h + Margin && b.y <= win.top + Margin
    ensures win.right <= b.x + b.w + Margin && b.x <= win.left + Margin
    ensures win.top == 0 || win.top + Margin == b.y
    ensures win.bottom == height || win.bottom == b.y + b.h + Margin
    ensures win.left == 0 || win.left + Margin == b.x
    ensures win.right == width || win.right == b.x + b.w + Margin
  {
    var top := if b.y >= Margin then b.y - Margin else 0;
    var bottom := if b.y + b.h + Margin <= height then b.y + b.h + Margin else height;
    var left := if b.x >= Margin then b.x - Margin else 0;
    var right := if b.x + b.w + Margin <= width then b.x + b.w + Margin else width;
    Window(top, bottom, left, right)
  }

  /** A face crop written for frame `frameIndex`. */
  datatype Crop = Crop(frameIndex: nat, window: Window)

  /** The crop of frame `i`, if it is sampled and a face was detected in
      it: the window around the first box of largest area (the sort by area
      is stable, so its first element is the first largest box). */
  function CropOf(f: Frame, i: nat, n: int): (c: seq<Crop>)
    ensures |c| <= 1
    ensures c != [] <==> i in SelectedFrames(n) && f.faces != []
    ensures c != [] ==> c[0].frameIndex == i
  {
    if i in SelectedFrames(n) && f.faces != [] then
      [Crop(i, CropWindow(f.faces[LargestFace(f.faces)], f.height, f.width))]
    else []
  }

  /** The crops written while reading `frames`, in order. */
  function Samples(frames: seq<Frame>, n: int): (r: seq<Crop>)
    ensures |r| <= |frames|
  {
    if frames == [] then []
    else Samples(frames[..|frames| - 1], n) + CropOf(frames[|frames| - 1], |frames| - 1, n)
  }

  /** Crops are written only for sampled frames that were read, at most
      one per frame, in frame order. */
  predicate OrderedCrops(r: seq<Crop>, n: int, frameCount: nat) {
    (forall j :: 0 <= j < |r| ==> r[j].frameIndex in SelectedFrames(n) && r[j].frameIndex < frameCount) &&
    (forall j, j' :: 0 <= j < j' < |r| ==> r[j].frameIndex < r[j'].frameIndex)
  }

  lemma {:induction false} SamplesOrdered(frames: seq<Frame>, n: int)
    ensures OrderedCrops(Samples(frames, n), n, |frames|)
  {
    if frames != [] {
      var prefix := frames[..|frames| - 1];
      SamplesOrdered(prefix, n);
      var p := Samples(prefix, n);
      var c := CropOf(frames[|frames| - 1], |frames| - 1, n);
      var r := p + c;
      assert r == Samples(frames, n);
      assert OrderedCrops(p, n, |prefix|);
      forall j | 0 <= j < |r|
        ensures r[j].frameIndex in SelectedFrames(n) && r[j].frameIndex < |frames|
      {
        if j < |p| {
          assert r[j] == p[j];
        } else {
          assert r[j] == c[0];
        }
      }
      forall j, j' | 0 <= j < j' < |r|
        ensures r[j].frameIndex < r[j'].frameIndex
      {
        if j' < |p| {
          assert r[j] == p[j] && r[j'] == p[j'];
        } else {
          assert r[j] == p[j] && r[j'] == c[0];
        }
      }
    }
  }

  /** A strictly increasing sequence drawn from a set is no longer than
      the set. */
  lemma {:induction false} IncreasingWithin(r: seq<int>, s: set<int>)
    requires forall j :: 0 <= j < |r| ==> r[j] in s
    requires forall j, j' :: 0 <= j < j' < |r| ==> r[j] < r[j']
    ensures |r| <= |s|
  {
    if r != [] {
      var last := r[|r| - 1];
      var rest := r[..|r| - 1];
      var s' := s - {last};
      forall j | 0 <= j < |rest|
        ensures rest[j] in s'
      {
        assert rest[j] == r[j] && r[j] < last;
      }
      IncreasingWithin(rest, s');
      assert s == s' + {last};
    }
  }

  lemma ThreeIndices(n: int)
    ensures |set i | i in SelectedFrames(n)| <= 3
  {
    var s := set i | i in SelectedFrames(n);
    assert s == {0} + {n / 2} + {n - 1};
  }

  /** At most three face crops are written per video. */
  lemma AtMostThreeCrops(frames: seq<Frame>, n: int)
    ensures |Samples(frames, n)| <= 3
  {
    var r := Samples(frames, n);
    var idx := seq(|r|, j requires 0 <= j < |r| => r[j].frameIndex as int);
    var s := set i | i in SelectedFrames(n);
    SamplesOrdered(frames, n);
    forall j | 0 <= j < |idx|
      ensures idx[j] in s
    {
      assert idx[j] == r[j].frameIndex;
      assert r[j].frameIndex in SelectedFrames(n);
    }
    forall j, j' | 0 <= j < j' < |idx|
      ensures idx[j] < idx[j']
    {
      assert idx[j] == r[j].frameIndex && idx[j'] == r[j'].frameIndex;
    }
    IncreasingWithin(idx, s);
    ThreeIndices(n);
  }

  // ---------------------------------------------------------------------
  // The frame loop and the liveness gate

  /** The digits of the frames read, one per frame. */
  function Digits(frames: seq<Frame>): (ds: seq<int>)
    requires FramesWellFormed(frames)
    ensures |ds| == |frames|
    ensures forall i :: 0 <= i < |ds| ==> 0 <= ds[i] <= 9
  {
    seq(|frames|, i requires 0 <= i < |frames| => FrameDigit(frames[i]))
  }

  /** `flag = flag & verdict` over the comparisons, starting from true. */
  function Gate(verdicts: seq<bool>): bool {
    if verdicts == [] then true else Gate(verdicts[..|verdicts| - 1]) && verdicts[|verdicts| - 1]
  }

  /** The gate passes exactly when every comparison succeeded; in
      particular it passes when there was nothing to compare. */
  lemma {:induction false} GateIsEvery(verdicts: seq<bool>)
    ensures Gate(verdicts) <==> forall i :: 0 <= i < |verdicts| ==> verdicts[i]
  {
    if verdicts != [] {
      GateIsEvery(verdicts[..|verdicts| - 1]);
    }
  }

  /** What the loop returns: the digits, or nothing when the gate fails. */
  function Output(frames: seq<Frame>, verdicts: seq<bool>): (otp: seq<int>)
    requires FramesWellFormed(frames)
    ensures otp == [] || otp == Digits(frames)
  {
    if Gate(verdicts) then Digits(frames) else []
  }

  /** One more frame read: its digit and its crop are appended. */
  lemma ReadStep(read: seq<Frame>, i: nat, n: int)
    requires FramesWellFormed(read) && i < |read|
    ensures Digits(read)[..i + 1] == Digits(read)[..i] + [FrameDigit(read[i])]
    ensures Samples(read[..i + 1], n) == Samples(read[..i], n) + CropOf(read[i], i, n)
  {
    SamplesStep(read, i, n);
  }

  lemma SamplesStep(read: seq<Frame>, i: nat, n: int)
    requires i < |read|
    ensures Samples(read[..i + 1], n) == Samples(read[..i], n) + CropOf(read[i], i, n)
  {
    assert read[..i + 1][..i] == read[..i];
  }

  /** The sampling step of the frame loop: when the frame's index is one of
      the selected ones and a face was detected, the window around the
      largest face is cropped. */
  method SampleFrame(frame: Frame, frameIndex: nat, selected: seq<int>) returns (crop: seq<Crop>)
    ensures crop != [] <==> frameIndex in selected && frame.faces != []
    ensures crop != [] ==> crop == [Crop(frameIndex, CropWindow(frame.faces[LargestFace(frame.faces)], frame.height, frame.width))]
    ensures forall n: int :: selected == SelectedFrames(n) ==> crop == CropOf(frame, frameIndex, n)
  {
    crop := [];
    if frameIndex in selected && |frame.faces| > 0 {
      var k := LargestFace(frame.faces);
      var window := CropWindow(frame.faces[k], frame.height, frame.width);
      crop := [Crop(frameIndex, window)];
    }
  }

  /** The `while cap.isOpened()` loop over the frames read: one clamped
      finger count per frame, and a face crop for each sampled frame in
      which a face was detected. */
  method ReadFrames(read: seq<Frame>, reportedCount: int) returns (sequence: seq<int>, crops: seq<Crop>)
    requires FramesWellFormed(read)
    ensures sequence == Digits(read)
    ensures crops == Samples(read, reportedCount)
  {
    sequence := [];
    crops := [];
    var selected := SelectedFrames(reportedCount);
    var frameIndex := 0;
    while frameIndex < |read|
      invariant 0 <= frameIndex <= |read|
      invariant sequence == Digits(read)[..frameIndex]
      invariant crops == Samples(read[..frameIndex], reportedCount)
    {
      var frame := read[frameIndex];
      assert FrameWellFormed(frame);
      var crop := SampleFrame(frame, frameIndex, selected);
      var total := FrameTotal(frame.hands, frame.labels);
      ReadStep(read, frameIndex, reportedCount);
      crops := crops + crop;
      sequence := sequence + [Clamp(total)];
      frameIndex := frameIndex + 1;
    }
    assert read[..frameIndex] == read;
    assert Digits(read)[..frameIndex] == Digits(read);
  }

  /** The liveness flag: true, then AND-ed with every comparison. */
  method LivenessFlag(verdicts: seq<bool>) returns (flag: bool)
    ensures flag == Gate(verdicts)
  {
    flag := true;
    for i := 0 to |verdicts|
      invariant flag == Gate(verdicts[..i])
    {
      assert verdicts[..i + 1][..i] == verdicts[..i];
      flag := flag && verdicts[i];
    }
    assert verdicts[..|verdicts|] == verdicts;
  }

  /** `process_video_and_generate_otp`. `isOpened` says whether the video
      could be opened and `frames` are the frames read before the first
      failed read; `reportedCount` is the frame count the container
      reports; `verdicts` are the comparisons of the face crops found in the
      user's crop directory with the face from the identity document. It
      returns the digits and the crops written. */
  method ProcessVideo(isOpened: bool, frames: seq<Frame>, reportedCount: int, verdicts: seq<bool>)
    returns (otp: seq<int>, crops: seq<Crop>)
    requires FramesWellFormed(frames)
    ensures var read := if isOpened then frames else [];
            otp == Output(read, verdicts) && crops == Samples(read, reportedCount)
  {
    var read: seq<Frame> := if isOpened then frames else [];
    var sequence;
    sequence, crops := ReadFrames(read, reportedCount);
    var flag := LivenessFlag(verdicts);
    otp := if flag then sequence else [];
  }

  /** When a face comparison fails, the one-time password is rejected
      whatever it is, unless it is empty. */
  lemma FailedLivenessRejects(frames: seq<Frame>, verdicts: seq<bool>, expected: seq<char>)
    requires FramesWellFormed(frames)
    requires exists i :: 0 <= i < |verdicts| && !verdicts[i]
    ensures IsValidOtp(Output(frames, verdicts), expected) <==> expected == []
  {
    GateIsEvery(verdicts);
    EmptyStream(expected);
  }

  /** When every comparison succeeds, the digits of all frames are passed
      on unchanged. */
  lemma PassedLivenessKeepsDigits(frames: seq<Frame>, verdicts: seq<bool>)
    requires FramesWellFormed(frames)
    requires forall i :: 0 <= i < |verdicts| ==> verdicts[i]
    ensures Output(frames, verdicts) == Digits(frames)
    ensures |Output(frames, verdicts)| == |frames|
  {
    GateIsEvery(verdicts);
  }
}
