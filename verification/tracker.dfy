/** The per-class tracked-object state machine: ROI prediction with
    time-based expiry, selection of the best candidate and the presence
    token reported downstream. */
module Tracker {
  import opened Types
  import opened Roi
  import opened Selection

  /** The polar vector of a blob (bearing in degrees, distance in percent of
      the radius); computed outside this model. */
  datatype Vector = Vector(angle: int, dist: int)

  /** The state one tracker keeps between frames. `valueId` is the rolling
      counter, `newValue` the token reported (0 when nothing was found),
      `timeBuf` the time the match memory was last dropped. */
  datatype TrackerState = TrackerState(
    roi: Option<Rect>,
    bestMatch: Option<Blob>,
    valueId: int,
    newValue: int,
    angle: int,
    dist: int,
    timeBuf: int)

  /** A freshly constructed tracker at time `now`. */
  function Init(now: int): (st: TrackerState)
    ensures st.bestMatch == None && st.newValue == 0 && st.valueId == 0 && st.timeBuf == now
    ensures st.angle == 0 && st.dist == 0
    ensures forall g :: Valid(g, st)
  {
    TrackerState(None, None, 0, 0, 0, 0, now)
  }

  /** The next presence token: counts 1, 2, ..., 100 and wraps back to 1,
      never 0. Python's `%` and Dafny's agree here since the divisor is
      positive. */
  function NextToken(valueId: int): (t: int)
    ensures 1 <= t <= 100
    ensures 0 <= valueId < 100 ==> t == valueId + 1
    ensures valueId == 100 ==> t == 1
    ensures (t - valueId - 1) % 100 == 0
  {
    valueId % 100 + 1
  }

  /** True when the match memory is older than the refresh time. */
  predicate Expired(st: TrackerState, now: int) {
    now - st.timeBuf > RefreshTime
  }

  /** The ROI step: first drop the match memory if it is stale (and restart
      the timer), then search the full field when there is no match, or the
      neighbourhood of the match otherwise. */
  function GetRoi(g: Geometry, st: TrackerState, margin: int, now: int): (st': TrackerState)
    ensures st'.roi.Some?
    ensures RectWithin(st'.roi.value, g.Frame()) && RectWithin(st'.roi.value, g.MirrorSquare())
    ensures Expired(st, now) ==>
      st'.bestMatch == None && st'.timeBuf == now && st'.roi == Some(FullSearchRoi(g))
    ensures !Expired(st, now) ==> st'.bestMatch == st.bestMatch && st'.timeBuf == st.timeBuf
    ensures st'.bestMatch.None? ==> st'.roi == Some(FullSearchRoi(g))
    ensures st'.bestMatch.Some? ==> st'.roi == Some(MatchRoi(g, st'.bestMatch.value.Box(), margin))
    ensures st' == st.(roi := st'.roi, bestMatch := st'.bestMatch, timeBuf := st'.timeBuf)
  {
    var s1 := if Expired(st, now) then st.(bestMatch := None, timeBuf := now) else st;
    var r := match s1.bestMatch
      case Some(b) => MatchRoi(g, b.Box(), margin)
      case None => FullSearchRoi(g);
    s1.(roi := Some(r))
  }

  /** The window the tracker searches in this frame. */
  function SearchRoi(g: Geometry, cls: ClassConfig, st: TrackerState, now: int): Rect {
    GetRoi(g, st, cls.margin, now).roi.value
  }

  /** `kept` is the first blob of maximal score, the one `max` returns. */
  ghost predicate KeepsFirstMax(kind: Kind, blobs: seq<Blob>, kept: Option<Blob>) {
    exists k :: IsFirstMax(kind, blobs, |blobs|, k) && kept == Some(blobs[k])
  }

  /** One frame of a tracker: compute the ROI, let the detector report the
      blobs inside it, and keep the first best-scoring one. A hit advances the
      token and takes the new vector; a miss reports token 0 and keeps the
      counter and the previous vector. The expiry timer is never touched by a
      hit. */
  function Find(g: Geometry, cls: ClassConfig, st: TrackerState, now: int,
                detect: Rect -> seq<Blob>, vectorOf: Blob -> Vector): (st': TrackerState)
    ensures st'.roi == Some(SearchRoi(g, cls, st, now))
    ensures st'.timeBuf == (if Expired(st, now) then now else st.timeBuf)
    ensures
      var blobs := detect(SearchRoi(g, cls, st, now));
      && (|blobs| == 0 ==>
            && st'.bestMatch == None && st'.newValue == 0
            && st'.valueId == st.valueId && st'.angle == st.angle && st'.dist == st.dist)
      && (|blobs| > 0 ==>
            && st'.bestMatch.Some? && st'.bestMatch.value in blobs
            && KeepsFirstMax(cls.kind, blobs, st'.bestMatch)
            && (forall j :: 0 <= j < |blobs| ==> Score(cls.kind, blobs[j]) <= Score(cls.kind, st'.bestMatch.value))
            && st'.valueId == NextToken(st.valueId) && st'.newValue == st'.valueId
            && st'.angle == vectorOf(st'.bestMatch.value).angle
            && st'.dist == vectorOf(st'.bestMatch.value).dist)
  {
    var s1 := GetRoi(g, st, cls.margin, now);
    var blobs := detect(s1.roi.value);
    if |blobs| > 0 then
      var k := BestIndex(cls.kind, blobs);
      assert IsFirstMax(cls.kind, blobs, |blobs|, k);
      var best := blobs[k];
      var v := vectorOf(best);
      var id := NextToken(s1.valueId);
      s1.(bestMatch := Some(best), angle := v.angle, dist := v.dist, valueId := id, newValue := id)
    else
      s1.(bestMatch := None, newValue := 0)
  }

  /** The tracker's state between frames: the counter is in 0..100, a match
      is held exactly when a non-zero token equal to the counter is reported,
      and a held match box lies inside the frame and the mirror square. */
  predicate Valid(g: Geometry, st: TrackerState) {
    && 0 <= st.valueId <= 100
    && (st.bestMatch.None? ==> st.newValue == 0)
    && (st.bestMatch.Some? ==>
          && 1 <= st.newValue == st.valueId
          && NonNegativeSize(st.bestMatch.value.Box())
          && RectWithin(st.bestMatch.value.Box(), g.Frame())
          && RectWithin(st.bestMatch.value.Box(), g.MirrorSquare()))
  }

  /** The detector reports only blobs of non-negative size lying inside the
      window it searched. */
  ghost predicate DetectorStaysInRoi(detect: Rect -> seq<Blob>) {
    forall r: Rect, b: Blob :: b in detect(r) ==> NonNegativeSize(b.Box()) && RectWithin(b.Box(), r)
  }

  /** A valid tracker stays valid across a frame, provided the detector
      reports only blobs inside the searched window. */
  lemma FindPreservesValid(g: Geometry, cls: ClassConfig, st: TrackerState, now: int,
                           detect: Rect -> seq<Blob>, vectorOf: Blob -> Vector)
    requires Valid(g, st)
    requires DetectorStaysInRoi(detect)
    ensures Valid(g, Find(g, cls, st, now, detect, vectorOf))
  {
  }

  /** The ROI guarantee for a valid tracker in a sane geometry
      with a non-negative margin: the window lies inside the frame and the
      mirror square, has non-negative size, and contains the held match box
      when the memory has not expired. */
  lemma RoiOfValidTracker(g: Geometry, cls: ClassConfig, st: TrackerState, now: int)
    requires g.WellFormed() && cls.margin >= 0
    requires Valid(g, st)
    ensures var r := SearchRoi(g, cls, st, now);
      && RectWithin(r, g.Frame()) && RectWithin(r, g.MirrorSquare()) && NonNegativeSize(r)
      && (st.bestMatch.Some? && !Expired(st, now) ==> RectWithin(st.bestMatch.value.Box(), r))
  {
  }

  /** The detector reports only blobs that pass the class's acceptance
      callback, as `threshold_cb` ensures when blobs are not merged. */
  ghost predicate DetectorAccepts(g: Geometry, cls: ClassConfig, detect: Rect -> seq<Blob>) {
    forall r: Rect, b: Blob :: b in detect(r) ==> FilterBlob(g, cls, b)
  }

  /** The selector never keeps a rejected blob: with a detector that reports
      only accepted blobs, a held match passes the acceptance test. */
  lemma FindKeepsAccepted(g: Geometry, cls: ClassConfig, st: TrackerState, now: int,
                          detect: Rect -> seq<Blob>, vectorOf: Blob -> Vector)
    requires DetectorAccepts(g, cls, detect)
    ensures var st' := Find(g, cls, st, now, detect, vectorOf);
      st'.bestMatch.Some? ==> FilterBlob(g, cls, st'.bestMatch.value)
  {
  }

  /** A miss drops the match, so the next frame searches the full field
      whatever the clock says. */
  lemma MissThenFullSearch(g: Geometry, cls: ClassConfig, st: TrackerState, now: int, later: int,
                           detect: Rect -> seq<Blob>, vectorOf: Blob -> Vector)
    requires |detect(SearchRoi(g, cls, st, now))| == 0
    ensures SearchRoi(g, cls, Find(g, cls, st, now, detect, vectorOf), later) == FullSearchRoi(g)
  {
  }

  /** One frame's worth of input: the clock reading and the detector run on
      that frame's image. */
  datatype FrameInput = FrameInput(now: int, detect: Rect -> seq<Blob>)

  /** A tracker run over consecutive frames. */
  function Run(g: Geometry, cls: ClassConfig, st: TrackerState, frames: seq<FrameInput>,
               vectorOf: Blob -> Vector): TrackerState
    decreases |frames|
  {
    if |frames| == 0 then st
    else Run(g, cls, Find(g, cls, st, frames[0].now, frames[0].detect, vectorOf), frames[1..], vectorOf)
  }

  /** Every frame of the run detects something in the window the tracker
      actually searches on that frame, that is, from the state the earlier
      frames of the run left behind. */
  ghost predicate HitsEachFrame(g: Geometry, cls: ClassConfig, st: TrackerState,
                                frames: seq<FrameInput>, vectorOf: Blob -> Vector) {
    forall i {:trigger Run(g, cls, st, frames[..i], vectorOf)} :: 0 <= i < |frames| ==>
      |frames[i].detect(SearchRoi(g, cls, Run(g, cls, st, frames[..i], vectorOf), frames[i].now))| > 0
  }

  /** A run's hypothesis carries over to its remaining frames, starting from
      the state the first frame leaves. */
  lemma HitsEachFrameTail(g: Geometry, cls: ClassConfig, st: TrackerState,
                          frames: seq<FrameInput>, vectorOf: Blob -> Vector)
    requires |frames| >= 1 && HitsEachFrame(g, cls, st, frames, vectorOf)
    ensures HitsEachFrame(g, cls, Find(g, cls, st, frames[0].now, frames[0].detect, vectorOf),
                          frames[1..], vectorOf)
  {
    var st1 := Find(g, cls, st, frames[0].now, frames[0].detect, vectorOf);
    var rest := frames[1..];
    forall i | 0 <= i < |rest|
      ensures |rest[i].detect(SearchRoi(g, cls, Run(g, cls, st1, rest[..i], vectorOf), rest[i].now))| > 0
    {
      RunPrefixStep(g, cls, st, frames, vectorOf, i);
      assert rest[i] == frames[i + 1];
    }
  }

  /** Running the first i + 1 frames is the first frame followed by the next
      i. */
  lemma RunPrefixStep(g: Geometry, cls: ClassConfig, st: TrackerState,
                      frames: seq<FrameInput>, vectorOf: Blob -> Vector, i: nat)
    requires i < |frames|
    ensures Run(g, cls, st, frames[..i + 1], vectorOf)
         == Run(g, cls, Find(g, cls, st, frames[0].now, frames[0].detect, vectorOf), frames[1..][..i], vectorOf)
  {
    assert frames[..i + 1][0] == frames[0] && frames[..i + 1][1..] == frames[1..][..i];
  }

  /** Reducing modulo 100 before adding a non-negative amount does not
      change the residue. */
  lemma ModAddMod(v: int, m: int)
    requires v >= 0 && m >= 0
    ensures (v % 100 + m) % 100 == (v + m) % 100
  {
  }

  /** After n >= 1 consecutive detections starting from counter v, the
      reported token is (v + n - 1) mod 100 + 1: from a fresh tracker the
      tokens run 1, 2, ..., 100, 1, 2, ... */
  lemma {:induction false} TokenCycle(g: Geometry, cls: ClassConfig, st: TrackerState,
                                      frames: seq<FrameInput>, vectorOf: Blob -> Vector)
    requires st.valueId >= 0
    requires |frames| >= 1 && HitsEachFrame(g, cls, st, frames, vectorOf)
    ensures Run(g, cls, st, frames, vectorOf).valueId == (st.valueId + |frames| - 1) % 100 + 1
    ensures Run(g, cls, st, frames, vectorOf).newValue == (st.valueId + |frames| - 1) % 100 + 1
    decreases |frames|
  {
    var st1 := Find(g, cls, st, frames[0].now, frames[0].detect, vectorOf);
    assert Run(g, cls, st, frames[..0], vectorOf) == st;
    assert st1.valueId == NextToken(st.valueId) == st.valueId % 100 + 1;
    if |frames| > 1 {
      var rest := frames[1..];
      HitsEachFrameTail(g, cls, st, frames, vectorOf);
      TokenCycle(g, cls, st1, rest, vectorOf);
      ModAddMod(st.valueId, |rest|);
    }
  }
}
