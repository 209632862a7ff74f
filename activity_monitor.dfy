/** `ActivityMonitor`: the per-session state machine that turns one frame's detector
    readings into suspicious activities, keeps a bounded history of frames and a
    bounded buffer of flagged frames, summarises the history and names evidence
    files. The detectors are not modelled: their outputs are the `FrameReadings`. */
module ActivityMonitoring {
  import opened Strings
  import opened Optional
  import CivilTime
  import opened Tally

  /** The activity types `analyze_frame` reports. */
  datatype Kind = MultipleFaces | StudentAbsent | PhoneDetected | UnauthorizedMaterial
                | VoiceDetected | AudioAnomaly | SuspiciousGaze
  {
    /** The `type` string stored with the activity. */
    function Name(): string {
      match this
      case MultipleFaces => "multiple_faces"
      case StudentAbsent => "student_absent"
      case PhoneDetected => "phone_detected"
      case UnauthorizedMaterial => "unauthorized_material"
      case VoiceDetected => "voice_detected"
      case AudioAnomaly => "audio_anomaly"
      case SuspiciousGaze => "suspicious_gaze"
    }
  }

  const PhoneLabel: string := "cell phone"
  const BookLabel: string := "book"

  /** `deque(maxlen=100)` and `deque(maxlen=10)`. */
  const HistoryCapacity: nat := 100
  const FrameBufferCapacity: nat := 10

  const MultipleFacesConfidence: real := 0.9
  const AbsentConfidence: real := 0.95
  const VoiceConfidence: real := 0.8
  const GazeConfidence: real := 0.7

  /** The configuration entries the monitor reads: `ABSENCE_DURATION_THRESHOLD`,
      `CHEATING_CONFIDENCE_THRESHOLD` and `enable_gaze_tracking` (default false). */
  datatype MonitorConfig = MonitorConfig(absenceThreshold: int, cheatingThreshold: real, gazeTracking: bool)

  /** The application's configuration: 10 seconds, 0.7, and no gaze tracking. */
  const DefaultConfig: MonitorConfig := MonitorConfig(10, 0.7, false)

  /** The pixels of a decoded image. */
  type Image = seq<bv8>

  /** What `cv2.imdecode` returns: the image, or `None` for bytes it cannot decode. */
  type Frame = Option<Image>

  /** One object found by the object detector. */
  datatype DetectedObject = DetectedObject(category: string, confidence: real)

  /** The audio analyser's verdicts on the frame's audio. */
  datatype AudioReading = AudioReading(isVoice: bool, isAnomaly: bool, anomalyConfidence: real)

  /** The gaze point as fractions of the frame's width and height. */
  datatype GazePoint = GazePoint(x: real, y: real)

  /** What the detectors report for one frame: the number of faces, the objects, the
      audio verdicts (`None` when no audio is passed) and the gaze point (`None` when
      no landmarks are found). */
  datatype FrameReadings = FrameReadings(
    faceCount: nat,
    objects: seq<DetectedObject>,
    audio: Option<AudioReading>,
    gaze: Option<GazePoint>)

  /** One entry of the `activities` list. */
  datatype Activity = Activity(kind: Kind, confidence: real, details: string, timestamp: nat)

  /** One entry of `activity_history`. */
  datatype HistoryRecord = HistoryRecord(timestamp: nat, faceCount: nat, activities: seq<Activity>)

  /** One entry of `frame_buffer`. */
  datatype BufferedFrame = BufferedFrame(frame: Frame, timestamp: nat)

  /** `deque.append` on a deque bounded by `cap`: the oldest entries are evicted first. */
  function BoundedAppend<T>(s: seq<T>, x: T, cap: nat): (r: seq<T>)
    requires cap > 0
    ensures |r| == if |s| < cap then |s| + 1 else cap
    ensures r[|r| - 1] == x
    ensures r == (s + [x])[|s| + 1 - |r|..]
  {
    if |s| < cap then s + [x] else s[|s| - cap + 1..] + [x]
  }

  /** `_analyze_gaze` on the gaze point: looking to the side when x is outside
      [0.2, 0.8], else looking up or down when y is. */
  datatype GazeInfo = GazeInfo(suspicious: bool, confidence: real, details: string)

  function AnalyzeGaze(g: GazePoint): (r: GazeInfo)
    ensures r.suspicious <==> g.x < 0.2 || g.x > 0.8 || g.y < 0.2 || g.y > 0.8
    ensures r.suspicious ==> r.confidence == GazeConfidence
    ensures !r.suspicious ==> r == GazeInfo(false, 0.0, "")
    ensures r.details == "Looking to the side" <==> g.x < 0.2 || g.x > 0.8
    ensures r.details == "Looking up or down" <==> 0.2 <= g.x <= 0.8 && (g.y < 0.2 || g.y > 0.8)
  {
    if g.x < 0.2 || g.x > 0.8 then GazeInfo(true, GazeConfidence, "Looking to the side")
    else if g.y < 0.2 || g.y > 0.8 then GazeInfo(true, GazeConfidence, "Looking up or down")
    else GazeInfo(false, 0.0, "")
  }

  /** The objects with a given class category, in order. */
  function Labelled(objects: seq<DetectedObject>, category: string): (r: seq<DetectedObject>)
    ensures forall o :: o in r <==> o in objects && o.category == category
  {
    if objects == [] then []
    else
      var init := Labelled(objects[..|objects| - 1], category);
      var o := objects[|objects| - 1];
      assert forall x :: x in objects <==> x in objects[..|objects| - 1] || x == o;
      if o.category == category then init + [o] else init
  }

  /** `Labelled` keeps each element that passes as often as it occurs, and no other. */
  lemma {:induction false} LabelledMultiplicity(objects: seq<DetectedObject>, category: string)
    ensures forall o :: multiset(Labelled(objects, category))[o] == if o.category == category then multiset(objects)[o] else 0
  {
    if objects != [] {
      LabelledMultiplicity(objects[..|objects| - 1], category);
      assert objects == objects[..|objects| - 1] + [objects[|objects| - 1]];
    }
  }

  /** `Labelled` works piece by piece: it keeps the order of its input, and with
      `LabelledMultiplicity` this determines it. */
  lemma {:induction false} LabelledAppend(a: seq<DetectedObject>, b: seq<DetectedObject>, category: string)
    ensures Labelled(a + b, category) == Labelled(a, category) + Labelled(b, category)
  {
    if b == [] {
      assert a + b == a;
    } else {
      assert (a + b)[..|a + b| - 1] == a + b[..|b| - 1];
      LabelledAppend(a, b[..|b| - 1], category);
    }
  }

  /** `max(o['confidence'] for o in objects)`. */
  function MaxConfidence(objects: seq<DetectedObject>): (m: real)
    requires objects != []
    ensures forall o :: o in objects ==> o.confidence <= m
    ensures exists o :: o in objects && o.confidence == m
  {
    if |objects| == 1 then objects[0].confidence
    else
      var init := objects[..|objects| - 1];
      var o := objects[|objects| - 1];
      assert forall x :: x in objects <==> x in init || x == o;
      var m := MaxConfidence(init);
      if o.confidence > m then o.confidence else m
  }

  /** The `details` texts of the activities. */
  function FacesDetail(faceCount: nat): string { NatToString(faceCount) + " faces detected" }
  function AbsentDetail(seconds: nat): string { "Absent for " + NatToString(seconds) + " seconds" }
  function PhonesDetail(phones: nat): string { NatToString(phones) + " phone(s) detected" }
  const BookDetail: string := "Book or notes detected"
  const VoiceDetail: string := "Voice activity detected"
  const AnomalyDetail: string := "Unusual audio pattern detected"

  /** The activity for more than one face. */
  function FaceActivities(faceCount: nat, now: nat): seq<Activity> {
    if faceCount > 1 then
      [Activity(MultipleFaces, MultipleFacesConfidence, FacesDetail(faceCount), now)]
    else []
  }

  /** `student_absent`: no face, an absence in progress, and more whole seconds elapsed
      (as `timedelta.seconds` counts them) than the threshold. */
  function AbsenceActivities(config: MonitorConfig, absenceStart: Option<nat>, faceCount: nat, now: nat): seq<Activity> {
    if faceCount == 0 && absenceStart.Some? then
      var elapsed := CivilTime.DeltaSeconds(absenceStart.value, now);
      if elapsed > config.absenceThreshold then
        [Activity(StudentAbsent, AbsentConfidence, AbsentDetail(elapsed), now)]
      else []
    else []
  }

  /** The absence start after the frame: set on the first frame without a face, kept
      while no face is seen, cleared by any face. */
  function NextAbsenceStart(absenceStart: Option<nat>, faceCount: nat, now: nat): Option<nat> {
    if faceCount == 0 then
      if absenceStart.None? then Some(now) else absenceStart
    else None
  }

  /** One phone or material activity for all the objects with `category`. */
  function ObjectActivities(objects: seq<DetectedObject>, category: string, kind: Kind, now: nat): seq<Activity> {
    var found := Labelled(objects, category);
    if found == [] then []
    else
      var details := if kind == PhoneDetected then PhonesDetail(|found|) else BookDetail;
      [Activity(kind, MaxConfidence(found), details, now)]
  }

  function AudioActivities(audio: Option<AudioReading>, now: nat): seq<Activity> {
    match audio
    case None => []
    case Some(a) =>
      (if a.isVoice then [Activity(VoiceDetected, VoiceConfidence, VoiceDetail, now)] else [])
      + (if a.isAnomaly then [Activity(AudioAnomaly, a.anomalyConfidence, AnomalyDetail, now)] else [])
  }

  function GazeActivities(config: MonitorConfig, faceCount: nat, gaze: Option<GazePoint>, now: nat): seq<Activity> {
    if faceCount == 1 && config.gazeTracking && gaze.Some? && AnalyzeGaze(gaze.value).suspicious then
      var info := AnalyzeGaze(gaze.value);
      [Activity(SuspiciousGaze, info.confidence, info.details, now)]
    else []
  }

  /** The activities `analyze_frame` reports, in the order it checks for them. */
  function FrameActivities(config: MonitorConfig, absenceStart: Option<nat>, r: FrameReadings, now: nat): seq<Activity> {
    FaceActivities(r.faceCount, now)
    + AbsenceActivities(config, absenceStart, r.faceCount, now)
    + ObjectActivities(r.objects, PhoneLabel, PhoneDetected, now)
    + ObjectActivities(r.objects, BookLabel, UnauthorizedMaterial, now)
    + AudioActivities(r.audio, now)
    + GazeActivities(config, r.faceCount, r.gaze, now)
  }

  /** The number of activities of a kind. */
  function CountKind(acts: seq<Activity>, kind: Kind): nat {
    if acts == [] then 0
    else CountKind(acts[..|acts| - 1], kind) + (if acts[|acts| - 1].kind == kind then 1 else 0)
  }

  lemma {:induction false} CountKindAppend(a: seq<Activity>, b: seq<Activity>, kind: Kind)
    ensures CountKind(a + b, kind) == CountKind(a, kind) + CountKind(b, kind)
    decreases |b|
  {
    if b != [] {
      assert (a + b)[..|a + b| - 1] == a + b[..|b| - 1];
      CountKindAppend(a, b[..|b| - 1], kind);
    } else {
      assert a + b == a;
    }
  }

  /** The counts of each kind among the frame's activities come part by part. */
  lemma FrameCount(config: MonitorConfig, absenceStart: Option<nat>, r: FrameReadings, now: nat, kind: Kind)
    ensures CountKind(FrameActivities(config, absenceStart, r, now), kind) ==
      CountKind(FaceActivities(r.faceCount, now), kind)
      + CountKind(AbsenceActivities(config, absenceStart, r.faceCount, now), kind)
      + CountKind(ObjectActivities(r.objects, PhoneLabel, PhoneDetected, now), kind)
      + CountKind(ObjectActivities(r.objects, BookLabel, UnauthorizedMaterial, now), kind)
      + CountKind(AudioActivities(r.audio, now), kind)
      + CountKind(GazeActivities(config, r.faceCount, r.gaze, now), kind)
  {
    var f := FaceActivities(r.faceCount, now);
    var a := AbsenceActivities(config, absenceStart, r.faceCount, now);
    var p := ObjectActivities(r.objects, PhoneLabel, PhoneDetected, now);
    var b := ObjectActivities(r.objects, BookLabel, UnauthorizedMaterial, now);
    var u := AudioActivities(r.audio, now);
    var g := GazeActivities(config, r.faceCount, r.gaze, now);
    CountKindAppend(f, a, kind);
    CountKindAppend(f + a, p, kind);
    CountKindAppend(f + a + p, b, kind);
    CountKindAppend(f + a + p + b, u, kind);
    CountKindAppend(f + a + p + b + u, g, kind);
  }

  /** A part whose activities all have kind `k` counts its length for `k` and nothing
      for any other kind. */
  lemma {:induction false} CountPart(acts: seq<Activity>, k: Kind, kind: Kind)
    requires OfKind(acts, k)
    ensures CountKind(acts, kind) == if k == kind then |acts| else 0
  {
    if acts != [] {
      assert acts[|acts| - 1] in acts;
      assert OfKind(acts[..|acts| - 1], k) by {
        forall a | a in acts[..|acts| - 1] ensures a.kind == k {
          var i :| 0 <= i < |acts| - 1 && acts[..|acts| - 1][i] == a;
          assert acts[i] == a;
        }
      }
      CountPart(acts[..|acts| - 1], k, kind);
    }
  }

  /** The count of a kind other than the two audio kinds is the length of the one part
      that produces it. */
  lemma FrameCountOf(config: MonitorConfig, absenceStart: Option<nat>, r: FrameReadings, now: nat, kind: Kind)
    requires kind != VoiceDetected && kind != AudioAnomaly
    ensures CountKind(FrameActivities(config, absenceStart, r, now), kind) ==
      (if kind == MultipleFaces then |FaceActivities(r.faceCount, now)| else 0)
      + (if kind == StudentAbsent then |AbsenceActivities(config, absenceStart, r.faceCount, now)| else 0)
      + (if kind == PhoneDetected then |ObjectActivities(r.objects, PhoneLabel, PhoneDetected, now)| else 0)
      + (if kind == UnauthorizedMaterial then |ObjectActivities(r.objects, BookLabel, UnauthorizedMaterial, now)| else 0)
      + (if kind == SuspiciousGaze then |GazeActivities(config, r.faceCount, r.gaze, now)| else 0)
  {
    FrameCount(config, absenceStart, r, now, kind);
    PartKinds(config, absenceStart, r, now);
    CountPart(FaceActivities(r.faceCount, now), MultipleFaces, kind);
    CountPart(AbsenceActivities(config, absenceStart, r.faceCount, now), StudentAbsent, kind);
    CountPart(ObjectActivities(r.objects, PhoneLabel, PhoneDetected, now), PhoneDetected, kind);
    CountPart(ObjectActivities(r.objects, BookLabel, UnauthorizedMaterial, now), UnauthorizedMaterial, kind);
    AudioKinds(r.audio, now, kind);
    CountPart(GazeActivities(config, r.faceCount, r.gaze, now), SuspiciousGaze, kind);
  }

  /** The kinds each check produces. */
  lemma PartKinds(config: MonitorConfig, absenceStart: Option<nat>, r: FrameReadings, now: nat)
    ensures OfKind(FaceActivities(r.faceCount, now), MultipleFaces)
    ensures OfKind(AbsenceActivities(config, absenceStart, r.faceCount, now), StudentAbsent)
    ensures OfKind(ObjectActivities(r.objects, PhoneLabel, PhoneDetected, now), PhoneDetected)
    ensures OfKind(ObjectActivities(r.objects, BookLabel, UnauthorizedMaterial, now), UnauthorizedMaterial)
    ensures OfKind(GazeActivities(config, r.faceCount, r.gaze, now), SuspiciousGaze)
    ensures forall a :: a in AudioActivities(r.audio, now) ==> a.kind == VoiceDetected || a.kind == AudioAnomaly
  {
  }

  /** The first frame without a face starts the absence timer and reports no absence. */
  lemma AbsenceTimerStarts(config: MonitorConfig, r: FrameReadings, now: nat)
    requires r.faceCount == 0
    ensures NextAbsenceStart(None, r.faceCount, now) == Some(now)
    ensures CountKind(FrameActivities(config, None, r, now), StudentAbsent) == 0
  {
    FrameCountOf(config, None, r, now, StudentAbsent);
  }

  lemma AudioKinds(audio: Option<AudioReading>, now: nat, kind: Kind)
    requires kind != VoiceDetected && kind != AudioAnomaly
    ensures CountKind(AudioActivities(audio, now), kind) == 0
  {
    if audio.Some? {
      var a := audio.value;
      var v := if a.isVoice then [Activity(VoiceDetected, VoiceConfidence, VoiceDetail, now)] else [];
      var n := if a.isAnomaly then [Activity(AudioAnomaly, a.anomalyConfidence, AnomalyDetail, now)] else [];
      CountKindAppend(v, n, kind);
    }
  }

  /** `student_absent` is reported (once, at confidence 0.95) exactly when no face is
      seen, an absence is in progress and the elapsed seconds exceed the threshold;
      reporting it does not reset the timer, so later faceless frames report it again,
      while any face clears it. */
  lemma AbsenceReported(config: MonitorConfig, absenceStart: Option<nat>, r: FrameReadings, now: nat)
    ensures var acts := FrameActivities(config, absenceStart, r, now);
            var absent := r.faceCount == 0 && absenceStart.Some?
                          && CivilTime.DeltaSeconds(absenceStart.value, now) > config.absenceThreshold;
            CountKind(acts, StudentAbsent) == if absent then 1 else 0
    ensures forall a :: a in FrameActivities(config, absenceStart, r, now) && a.kind == StudentAbsent
              ==> a.confidence == AbsentConfidence
    ensures r.faceCount == 0 && absenceStart.Some? ==> NextAbsenceStart(absenceStart, r.faceCount, now) == absenceStart
    ensures r.faceCount > 0 ==> NextAbsenceStart(absenceStart, r.faceCount, now).None?
  {
    FrameCountOf(config, absenceStart, r, now, StudentAbsent);
    KindsOfParts(config, absenceStart, r, now);
  }

  /** Every activity's kind tells which check produced it. */
  lemma KindsOfParts(config: MonitorConfig, absenceStart: Option<nat>, r: FrameReadings, now: nat)
    ensures var acts := FrameActivities(config, absenceStart, r, now);
      forall a :: a in acts ==>
        && (a.kind == MultipleFaces ==> a in FaceActivities(r.faceCount, now))
        && (a.kind == StudentAbsent ==> a in AbsenceActivities(config, absenceStart, r.faceCount, now))
        && (a.kind == PhoneDetected ==> a in ObjectActivities(r.objects, PhoneLabel, PhoneDetected, now))
        && (a.kind == UnauthorizedMaterial ==> a in ObjectActivities(r.objects, BookLabel, UnauthorizedMaterial, now))
  {
    var f := FaceActivities(r.faceCount, now);
    var ab := AbsenceActivities(config, absenceStart, r.faceCount, now);
    var p := ObjectActivities(r.objects, PhoneLabel, PhoneDetected, now);
    var b := ObjectActivities(r.objects, BookLabel, UnauthorizedMaterial, now);
    var u := AudioActivities(r.audio, now);
    var g := GazeActivities(config, r.faceCount, r.gaze, now);
    PartKinds(config, absenceStart, r, now);
    forall a | a in FrameActivities(config, absenceStart, r, now)
      ensures a in f || a in ab || a in p || a in b || a in u || a in g
    {
      assert FrameActivities(config, absenceStart, r, now) == f + ab + p + b + u + g;
    }
  }

  /** Every activity of `acts` has kind `kind`. */
  predicate OfKind(acts: seq<Activity>, kind: Kind) {
    forall a :: a in acts ==> a.kind == kind
  }

  /** More than one face gives exactly one `multiple_faces` at confidence 0.9 and
      never a `student_absent`; otherwise there is no `multiple_faces`. */
  lemma MultipleFacesReported(config: MonitorConfig, absenceStart: Option<nat>, r: FrameReadings, now: nat)
    ensures var acts := FrameActivities(config, absenceStart, r, now);
            CountKind(acts, MultipleFaces) == if r.faceCount > 1 then 1 else 0
    ensures r.faceCount > 1 ==> CountKind(FrameActivities(config, absenceStart, r, now), StudentAbsent) == 0
    ensures forall a :: a in FrameActivities(config, absenceStart, r, now) && a.kind == MultipleFaces
              ==> a.confidence == MultipleFacesConfidence
  {
    FrameCountOf(config, absenceStart, r, now, MultipleFaces);
    FrameCountOf(config, absenceStart, r, now, StudentAbsent);
    KindsOfParts(config, absenceStart, r, now);
  }

  /** At most one `phone_detected` (and likewise `unauthorized_material`): present
      exactly when some object has the category, with the largest of their confidences. */
  lemma ObjectReported(config: MonitorConfig, absenceStart: Option<nat>, r: FrameReadings, now: nat,
                       category: string, kind: Kind)
    requires (category, kind) == (PhoneLabel, PhoneDetected) || (category, kind) == (BookLabel, UnauthorizedMaterial)
    ensures var acts := FrameActivities(config, absenceStart, r, now);
            CountKind(acts, kind) == if exists o :: o in r.objects && o.category == category then 1 else 0
    ensures forall a :: a in FrameActivities(config, absenceStart, r, now) && a.kind == kind ==>
              && (forall o :: o in r.objects && o.category == category ==> o.confidence <= a.confidence)
              && (exists o :: o in r.objects && o.category == category && o.confidence == a.confidence)
  {
    FrameCountOf(config, absenceStart, r, now, kind);
    KindsOfParts(config, absenceStart, r, now);
    var found := Labelled(r.objects, category);
    if exists o :: o in r.objects && o.category == category {
      var o :| o in r.objects && o.category == category;
      assert o in found;
    }
  }

  /** The kinds of `acts`, in order. */
  function Kinds(acts: seq<Activity>): (ks: seq<Kind>)
    ensures |ks| == |acts| && forall i :: 0 <= i < |acts| ==> ks[i] == acts[i].kind
  {
    seq(|acts|, i requires 0 <= i < |acts| => acts[i].kind)
  }

  /** All the activities of the history, frame by frame. */
  function AllActivities(history: seq<HistoryRecord>): seq<Activity> {
    if history == [] then [] else AllActivities(history[..|history| - 1]) + history[|history| - 1].activities
  }

  lemma HistoryStep(history: seq<HistoryRecord>, i: nat)
    requires i < |history|
    ensures AllActivities(history[..i + 1]) == AllActivities(history[..i]) + history[i].activities
  {
    assert history[..i + 1][..i] == history[..i];
  }

  /** Counting one more activity bumps the count of its kind. */
  lemma CountsStep(seen: seq<Activity>, acts: seq<Activity>, j: nat)
    requires j < |acts|
    ensures Counts(Kinds(seen + acts[..j + 1])) == Bump(Counts(Kinds(seen + acts[..j])), acts[j].kind)
  {
    var before := seen + acts[..j];
    assert seen + acts[..j + 1] == before + [acts[j]];
    var ks := Kinds(before + [acts[j]]);
    assert ks[..|ks| - 1] == Kinds(before);
  }

  /** `weights.get(activity, 1)`; every kind the monitor reports has a weight, so the
      default of 1 is never used. */
  function Weight(kind: Kind): int {
    match kind
    case MultipleFaces => 10
    case PhoneDetected => 8
    case StudentAbsent => 5
    case UnauthorizedMaterial => 7
    case VoiceDetected => 4
    case AudioAnomaly => 3
    case SuspiciousGaze => 2
  }

  /** `sum(count * weight)` over the counts. */
  function Score(counts: seq<(Kind, nat)>): int {
    if counts == [] then 0 else counts[0].1 * Weight(counts[0].0) + Score(counts[1..])
  }

  /** The weights of `kinds` added up one occurrence at a time. */
  function WeightSum(kinds: seq<Kind>): int {
    if kinds == [] then 0 else WeightSum(kinds[..|kinds| - 1]) + Weight(kinds[|kinds| - 1])
  }

  lemma {:induction false} BumpScore(counts: seq<(Kind, nat)>, k: Kind)
    ensures Score(Bump(counts, k)) == Score(counts) + Weight(k)
  {
    if counts != [] && counts[0].0 != k {
      BumpScore(counts[1..], k);
      assert Bump(counts, k)[1..] == Bump(counts[1..], k);
    } else if counts != [] {
      assert Bump(counts, k)[1..] == counts[1..];
    }
  }

  /** The score summed over the counts is the weight summed over the occurrences. */
  lemma {:induction false} ScoreIsWeightSum(kinds: seq<Kind>)
    ensures Score(Counts(kinds)) == WeightSum(kinds)
  {
    if kinds != [] {
      ScoreIsWeightSum(kinds[..|kinds| - 1]);
      BumpScore(Counts(kinds[..|kinds| - 1]), kinds[|kinds| - 1]);
    }
  }

  /** `high_confidence_alerts`: the activities above the threshold, in history order. */
  function Alerts(acts: seq<Activity>, threshold: real): (r: seq<Activity>)
    ensures |r| <= |acts|
    ensures forall a :: a in r <==> a in acts && a.confidence > threshold
  {
    if acts == [] then []
    else
      var init := Alerts(acts[..|acts| - 1], threshold);
      var a := acts[|acts| - 1];
      assert forall x :: x in acts <==> x in acts[..|acts| - 1] || x == a;
      if a.confidence > threshold then init + [a] else init
  }

  /** `Alerts` keeps each element that passes as often as it occurs, and no other. */
  lemma {:induction false} AlertsMultiplicity(acts: seq<Activity>, threshold: real)
    ensures forall a :: multiset(Alerts(acts, threshold))[a] == if a.confidence > threshold then multiset(acts)[a] else 0
  {
    if acts != [] {
      AlertsMultiplicity(acts[..|acts| - 1], threshold);
      assert acts == acts[..|acts| - 1] + [acts[|acts| - 1]];
    }
  }

  /** `Alerts` works piece by piece: it keeps the order of its input, and with
      `AlertsMultiplicity` this determines it. */
  lemma {:induction false} AlertsAppend(a: seq<Activity>, b: seq<Activity>, threshold: real)
    ensures Alerts(a + b, threshold) == Alerts(a, threshold) + Alerts(b, threshold)
  {
    if b == [] {
      assert a + b == a;
    } else {
      assert (a + b)[..|a + b| - 1] == a + b[..|b| - 1];
      AlertsAppend(a, b[..|b| - 1], threshold);
    }
  }

  /** The dictionary `get_summary` returns for a non-empty history. */
  datatype Summary = Summary(
    activityCounts: seq<(Kind, nat)>,
    suspicionScore: int,
    totalFrames: nat,
    highConfidenceAlerts: seq<Activity>)

  /** An evidence image's name, kept as its parts; `Filename` renders it as
      `{session}_{type}_{YYYYmmdd_HHMMSS}.jpg`. */
  datatype EvidenceName = EvidenceName(sessionId: int, kind: Kind, timestamp: nat)
  {
    function Filename(): string {
      IntToString(sessionId) + "_" + kind.Name() + "_" + CivilTime.FormatCompact(timestamp) + ".jpg"
    }
  }

  class ActivityMonitor {
    const config: MonitorConfig
    var history: seq<HistoryRecord>
    var frameBuffer: seq<BufferedFrame>
    var absenceStart: Option<nat>

    /** The two deques stay within their capacities. */
    ghost predicate Valid()
      reads this
    {
      |history| <= HistoryCapacity && |frameBuffer| <= FrameBufferCapacity
    }

    constructor(config: MonitorConfig)
      ensures Valid()
      ensures this.config == config
      ensures history == [] && frameBuffer == [] && absenceStart.None?
    {
      this.config := config;
      history := [];
      frameBuffer := [];
      absenceStart := None;
    }

    /** `analyze_frame` at time `now`: the activities in the order of the checks, the
        updated absence timer, one new history record, and the frame buffered when
        something was flagged. */
    method AnalyzeFrame(frame: Frame, readings: FrameReadings, now: nat) returns (activities: seq<Activity>)
      requires Valid()
      modifies this
      ensures Valid()
      ensures activities == FrameActivities(config, old(absenceStart), readings, now)
      ensures absenceStart == NextAbsenceStart(old(absenceStart), readings.faceCount, now)
      ensures history == BoundedAppend(old(history), HistoryRecord(now, readings.faceCount, activities), HistoryCapacity)
      ensures frameBuffer == if activities == [] then old(frameBuffer)
                             else BoundedAppend(old(frameBuffer), BufferedFrame(frame, now), FrameBufferCapacity)
    {
      var start := absenceStart;
      activities := [];
      var faceCount := readings.faceCount;
      if faceCount > 1 {
        activities := activities + [Activity(MultipleFaces, MultipleFacesConfidence,
                                             FacesDetail(faceCount), now)];
      }
      assert activities == FaceActivities(faceCount, now);
      ghost var absent := AbsenceActivities(config, absenceStart, faceCount, now);
      if faceCount == 0 {
        if start.None? {
          start := Some(now);
        } else if CivilTime.DeltaSeconds(start.value, now) > config.absenceThreshold {
          var elapsed := CivilTime.DeltaSeconds(start.value, now);
          activities := activities + [Activity(StudentAbsent, AbsentConfidence, AbsentDetail(elapsed), now)];
        }
      } else {
        start := None;
      }
      assert activities == FaceActivities(faceCount, now) + absent;
      ghost var sofar := activities;
      var phones := Labelled(readings.objects, PhoneLabel);
      if phones != [] {
        activities := activities + [Activity(PhoneDetected, MaxConfidence(phones), PhonesDetail(|phones|), now)];
      }
      assert activities == sofar + ObjectActivities(readings.objects, PhoneLabel, PhoneDetected, now);
      sofar := activities;
      var books := Labelled(readings.objects, BookLabel);
      if books != [] {
        activities := activities + [Activity(UnauthorizedMaterial, MaxConfidence(books), BookDetail, now)];
      }
      assert activities == sofar + ObjectActivities(readings.objects, BookLabel, UnauthorizedMaterial, now);
      // Audio and gaze: each check appends what its function reports.
      activities := activities + AudioActivities(readings.audio, now);
      activities := activities + GazeActivities(config, faceCount, readings.gaze, now);
      absenceStart := start;
      history := BoundedAppend(history, HistoryRecord(now, faceCount, activities), HistoryCapacity);
      if activities != [] {
        frameBuffer := BoundedAppend(frameBuffer, BufferedFrame(frame, now), FrameBufferCapacity);
      }
    }

    /** `get_summary`: `None` (the empty dictionary) for an empty history; otherwise the
        counts per kind, the weighted score, the number of retained frames and the
        activities above the cheating threshold, all over the retained history. */
    method GetSummary() returns (r: Option<Summary>)
      ensures r.None? <==> history == []
      ensures r.Some? ==>
        var acts := AllActivities(history);
        && r.value.activityCounts == Counts(Kinds(acts))
        && r.value.suspicionScore == WeightSum(Kinds(acts))
        && r.value.totalFrames == |history|
        && r.value.highConfidenceAlerts == Alerts(acts, config.cheatingThreshold)
    {
      if history == [] {
        return None;
      }
      var counts: seq<(Kind, nat)> := [];
      var i := 0;
      while i < |history|
        invariant 0 <= i <= |history|
        invariant counts == Counts(Kinds(AllActivities(history[..i])))
      {
        var record := history[i];
        HistoryStep(history, i);
        assert record.activities[..0] == [];
        assert AllActivities(history[..i]) + [] == AllActivities(history[..i]);
        var j := 0;
        while j < |record.activities|
          invariant 0 <= j <= |record.activities|
          invariant counts == Counts(Kinds(AllActivities(history[..i]) + record.activities[..j]))
        {
          CountsStep(AllActivities(history[..i]), record.activities, j);
          counts := Bump(counts, record.activities[j].kind);
          j := j + 1;
        }
        assert record.activities[..j] == record.activities;
        i := i + 1;
      }
      assert history[..i] == history;
      var total := 0;
      var k := 0;
      while k < |counts|
        invariant 0 <= k <= |counts|
        invariant total + Score(counts[k..]) == Score(counts)
      {
        assert counts[k..][1..] == counts[k + 1..];
        total := total + counts[k].1 * Weight(counts[k].0);
        k := k + 1;
      }
      ScoreIsWeightSum(Kinds(AllActivities(history)));
      r := Some(Summary(counts, total, |history|, Alerts(AllActivities(history), config.cheatingThreshold)));
    }

    /** `save_evidence`: `None` for an empty buffer; otherwise the name built from the
        most recent buffered frame's own timestamp (not the activity's), or `None`
        when `cv2.imwrite` raises: always on a frame that did not decode, and
        otherwise as `writeRaises` says. A write that only returns False still
        yields the name. */
    method SaveEvidence(sessionId: int, activity: Activity, writeRaises: bool) returns (filename: Option<EvidenceName>)
      ensures frameBuffer == [] ==> filename.None?
      ensures frameBuffer != [] ==>
        var latest := frameBuffer[|frameBuffer| - 1];
        filename == if latest.frame.None? || writeRaises then None
                    else Some(EvidenceName(sessionId, activity.kind, latest.timestamp))
    {
      if frameBuffer == [] {
        return None;
      }
      var latest := frameBuffer[|frameBuffer| - 1];
      var name := EvidenceName(sessionId, activity.kind, latest.timestamp);
      if latest.frame.None? || writeRaises {
        return None;
      }
      filename := Some(name);
    }
  }

  /** The evidence file name starts with the session and the kind, carries the
      fifteen-character time stamp of the frame and ends in `.jpg`. */
  lemma EvidenceFilenameShape(name: EvidenceName)
    requires CivilTime.ToDateTime(name.timestamp).year < 10000
    ensures var s := name.Filename();
            var prefix := IntToString(name.sessionId) + "_" + name.kind.Name() + "_";
            && |s| == |prefix| + 19
            && s[..|prefix|] == prefix
            && s[|prefix|..|prefix| + 15] == CivilTime.FormatCompact(name.timestamp)
            && s[|s| - 4..] == ".jpg"
  {
    CivilTime.FormatCompactShape(name.timestamp);
  }
}
