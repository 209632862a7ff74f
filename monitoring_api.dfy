/** The monitoring endpoints: the registry of live monitors keyed by session id, the
    per-activity gating of `submit_frame`, the audio and tab-switch logs, and the
    monitoring part of the session report. Database writes and socket emits are
    recorded, in order, as events appended to `trace`. */
module MonitoringApi {
  import opened Strings
  import opened Optional
  import opened Tally
  import opened ExamRecords
  import ExamApp
  import opened ActivityMonitoring

  /** Logged activities above this confidence also get an evidence frame. */
  const EvidenceConfidence: real := 0.8
  /** `submit_audio` logs a voice above this audio level. */
  const VoiceAudioLevel: real := 50.0
  const AudioVoiceConfidence: real := 0.7
  const TabSwitchConfidence: real := 1.0
  /** The fixed cut-off of the report rebuilt from logs. */
  const ReportAlertConfidence: real := 0.7

  const AdminsRoom: string := "admins"
  const VoiceDetectedType: string := "voice_detected"
  const TabSwitchType: string := "tab_switch"
  const TabSwitchAction: string := "Student switched browser tab"
  const TabSwitchMessage: string := "Please stay on the exam tab"

  /** The `details` column: the activity's text, or the small dictionaries the audio
      and tab-switch handlers store. */
  datatype LogDetails = ActivityDetails(text: string) | AudioLevel(level: real) | TabAction(action: string)

  /** A `MonitoringLog` row. */
  datatype MonitoringLog = MonitoringLog(
    sessionId: int,
    activityType: string,
    confidence: real,
    details: LogDetails,
    timestamp: nat,
    videoFrame: Option<EvidenceName>)

  /** The logged-in user making the request. */
  datatype Caller = Caller(user: ExamApp.User, username: string)

  /** An observable effect: an evidence image written, a log row committed, or a
      socket message emitted to a room. */
  datatype Event =
    | EvidenceWritten(name: EvidenceName)
    | LogCommitted(log: MonitoringLog)
    | Warning(room: string, activityType: string, message: string)
    | MonitoringAlert(room: string, sessionId: int, studentName: string, activityType: string,
                      details: string, confidence: real, timestamp: nat)

  /** The room of a student's own notifications. */
  function StudentRoom(userId: int): string {
    "student_" + IntToString(userId)
  }

  /** The evidence file attached to a logged activity: attempted above 0.8 and named
      after the frame just analysed (whose time is `now`); `None` when not attempted
      or when `cv2.imwrite` raises, which it always does on a frame that did not
      decode. A write that only reports failure still yields the name. */
  function EvidenceFor(sessionId: int, a: Activity, frame: Frame, now: nat, writeRaises: bool): (r: Option<EvidenceName>)
    ensures r.Some? <==> a.confidence > EvidenceConfidence && frame.Some? && !writeRaises
    ensures r.Some? ==> r.value == EvidenceName(sessionId, a.kind, now)
  {
    if a.confidence > EvidenceConfidence && frame.Some? && !writeRaises then Some(EvidenceName(sessionId, a.kind, now)) else None
  }

  /** The log row of a logged activity. */
  function LogOf(sessionId: int, a: Activity, evidence: Option<EvidenceName>): MonitoringLog {
    MonitoringLog(sessionId, a.kind.Name(), a.confidence, ActivityDetails(a.details), a.timestamp, evidence)
  }

  /** The text before the activity's details in a student warning. */
  const WarningPrefix: string := "Warning: "

  /** The `warning` emitted to the student's room for a logged activity. */
  function WarningOf(caller: Caller, a: Activity): (e: Event)
    ensures e.Warning? && e.room == StudentRoom(caller.user.id)
    ensures e.activityType == a.kind.Name()
    ensures |e.message| == |WarningPrefix| + |a.details|
    ensures e.message[..|WarningPrefix|] == WarningPrefix && e.message[|WarningPrefix|..] == a.details
  {
    Warning(StudentRoom(caller.user.id), a.kind.Name(), WarningPrefix + a.details)
  }

  /** The `monitoring_alert` emitted to the admins' room for a logged activity. */
  function AlertOf(caller: Caller, sessionId: int, a: Activity): (e: Event)
    ensures e.MonitoringAlert? && e.room == AdminsRoom
    ensures e.sessionId == sessionId && e.studentName == caller.username
    ensures e.activityType == a.kind.Name() && e.details == a.details
    ensures e.confidence == a.confidence && e.timestamp == a.timestamp
  {
    MonitoringAlert(AdminsRoom, sessionId, caller.username, a.kind.Name(), a.details, a.confidence, a.timestamp)
  }

  /** The effects of one logged activity: the evidence image, the log commit, the
      warning to the student's room and the alert to the admins' room. */
  function ActivityEffects(caller: Caller, sessionId: int, a: Activity, evidence: Option<EvidenceName>): seq<Event> {
    (if evidence.Some? then [EvidenceWritten(evidence.value)] else [])
    + [LogCommitted(LogOf(sessionId, a, evidence)), WarningOf(caller, a), AlertOf(caller, sessionId, a)]
  }

  /** The log rows written for the logged activities, in order. */
  function FrameLogs(sessionId: int, logged: seq<Activity>, frame: Frame, now: nat, writeRaises: nat -> bool): seq<MonitoringLog> {
    if logged == [] then []
    else
      var a := logged[|logged| - 1];
      FrameLogs(sessionId, logged[..|logged| - 1], frame, now, writeRaises)
        + [LogOf(sessionId, a, EvidenceFor(sessionId, a, frame, now, writeRaises(|logged| - 1)))]
  }

  /** One row per logged activity, in order, carrying its evidence name exactly when
      the activity is above 0.8 and the image was written. */
  lemma {:induction false} FrameLogsExact(sessionId: int, logged: seq<Activity>, frame: Frame, now: nat, writeRaises: nat -> bool)
    ensures var r := FrameLogs(sessionId, logged, frame, now, writeRaises);
      && |r| == |logged|
      && forall i :: 0 <= i < |logged| ==>
           && r[i] == LogOf(sessionId, logged[i], EvidenceFor(sessionId, logged[i], frame, now, writeRaises(i)))
           && (r[i].videoFrame.Some? <==> logged[i].confidence > EvidenceConfidence && frame.Some? && !writeRaises(i))
  {
    if logged != [] {
      FrameLogsExact(sessionId, logged[..|logged| - 1], frame, now, writeRaises);
    }
  }

  /** The events of the logged activities, activity by activity. */
  function FrameTrace(caller: Caller, sessionId: int, logged: seq<Activity>, frame: Frame, now: nat, writeRaises: nat -> bool): seq<Event> {
    if logged == [] then []
    else
      var a := logged[|logged| - 1];
      FrameTrace(caller, sessionId, logged[..|logged| - 1], frame, now, writeRaises)
        + ActivityEffects(caller, sessionId, a, EvidenceFor(sessionId, a, frame, now, writeRaises(|logged| - 1)))
  }

  /** The order of effects in a trace: every log commit is followed by the warning to
      the student and then the alert to the admins, every warning and alert follows a
      commit, and an evidence image comes right before the commit of the row that
      carries its name. */
  predicate WellOrdered(t: seq<Event>, studentRoom: string) {
    && (forall i :: 0 <= i < |t| && t[i].LogCommitted? ==>
          i + 2 < |t| && t[i + 1].Warning? && t[i + 1].room == studentRoom
          && t[i + 2].MonitoringAlert? && t[i + 2].room == AdminsRoom)
    && (forall i :: 0 <= i < |t| && t[i].Warning? ==> 0 < i && t[i - 1].LogCommitted?)
    && (forall i :: 0 <= i < |t| && t[i].MonitoringAlert? ==> 1 < i && t[i - 2].LogCommitted?)
    && (forall i :: 0 <= i < |t| && t[i].EvidenceWritten? ==>
          i + 1 < |t| && t[i + 1].LogCommitted? && t[i + 1].log.videoFrame == Some(t[i].name))
  }

  /** The three events of a log commit, in order, form a well-ordered trace. */
  lemma BlockOrdered(log: MonitoringLog, warning: Event, alert: Event, room: string)
    requires warning.Warning? && warning.room == room && alert.MonitoringAlert? && alert.room == AdminsRoom
    ensures WellOrdered([LogCommitted(log), warning, alert], room)
  {
    var t := [LogCommitted(log), warning, alert];
    assert t[0].LogCommitted? && t[1] == warning && t[2] == alert;
    forall i | 0 <= i < |t| ensures !t[i].EvidenceWritten? {
      if i == 0 {} else if i == 1 {} else {}
    }
    forall i | 0 <= i < |t| && t[i].LogCommitted? ensures i == 0 {
      if i == 0 {} else if i == 1 {} else {}
    }
    forall i | 0 <= i < |t| && t[i].Warning? ensures i == 1 {
      if i == 0 {} else if i == 1 {} else {}
    }
    forall i | 0 <= i < |t| && t[i].MonitoringAlert? ensures i == 2 {
      if i == 0 {} else if i == 1 {} else {}
    }
  }

  /** Putting the evidence image of a commit's row in front of its three events keeps
      the trace well ordered. */
  lemma EvidenceBlockOrdered(log: MonitoringLog, warning: Event, alert: Event, room: string)
    requires warning.Warning? && warning.room == room && alert.MonitoringAlert? && alert.room == AdminsRoom
    requires log.videoFrame.Some?
    ensures WellOrdered([EvidenceWritten(log.videoFrame.value), LogCommitted(log), warning, alert], room)
  {
    var t := [EvidenceWritten(log.videoFrame.value), LogCommitted(log), warning, alert];
    assert t[0].EvidenceWritten? && t[1].LogCommitted? && t[2] == warning && t[3] == alert;
    forall i | 0 <= i < |t| && t[i].EvidenceWritten? ensures i == 0 {
      if i == 0 {} else if i == 1 {} else if i == 2 {} else {}
    }
    forall i | 0 <= i < |t| && t[i].LogCommitted? ensures i == 1 {
      if i == 0 {} else if i == 1 {} else if i == 2 {} else {}
    }
    forall i | 0 <= i < |t| && t[i].Warning? ensures i == 2 {
      if i == 0 {} else if i == 1 {} else if i == 2 {} else {}
    }
    forall i | 0 <= i < |t| && t[i].MonitoringAlert? ensures i == 3 {
      if i == 0 {} else if i == 1 {} else if i == 2 {} else {}
    }
  }

  lemma ActivityEffectsOrdered(caller: Caller, sessionId: int, a: Activity, evidence: Option<EvidenceName>)
    ensures WellOrdered(ActivityEffects(caller, sessionId, a, evidence), StudentRoom(caller.user.id))
  {
    var log, w, al, room := LogOf(sessionId, a, evidence), WarningOf(caller, a), AlertOf(caller, sessionId, a),
                            StudentRoom(caller.user.id);
    if evidence.Some? {
      assert log.videoFrame == evidence;
      assert ActivityEffects(caller, sessionId, a, evidence) == [EvidenceWritten(log.videoFrame.value), LogCommitted(log), w, al];
      EvidenceBlockOrdered(log, w, al, room);
    } else {
      assert ActivityEffects(caller, sessionId, a, evidence) == [LogCommitted(log), w, al];
      BlockOrdered(log, w, al, room);
    }
  }

  /** Joining two well-ordered traces gives a well-ordered trace. */
  lemma AppendOrdered(t: seq<Event>, u: seq<Event>, room: string)
    requires WellOrdered(t, room) && WellOrdered(u, room)
    ensures WellOrdered(t + u, room)
  {
    var s := t + u;
    forall i | 0 <= i < |s| && s[i].LogCommitted?
      ensures i + 2 < |s| && s[i + 1].Warning? && s[i + 1].room == room
              && s[i + 2].MonitoringAlert? && s[i + 2].room == AdminsRoom
    {
      if i < |t| { assert s[i] == t[i] && s[i + 1] == t[i + 1] && s[i + 2] == t[i + 2]; }
      else { assert s[i] == u[i - |t|] && s[i + 1] == u[i + 1 - |t|] && s[i + 2] == u[i + 2 - |t|]; }
    }
    forall i | 0 <= i < |s| && s[i].Warning? ensures 0 < i && s[i - 1].LogCommitted? {
      if i < |t| { assert s[i] == t[i] && s[i - 1] == t[i - 1]; }
      else { assert s[i] == u[i - |t|] && s[i - 1] == u[i - 1 - |t|]; }
    }
    forall i | 0 <= i < |s| && s[i].MonitoringAlert? ensures 1 < i && s[i - 2].LogCommitted? {
      if i < |t| { assert s[i] == t[i] && s[i - 2] == t[i - 2]; }
      else { assert s[i] == u[i - |t|] && s[i - 2] == u[i - 2 - |t|]; }
    }
    forall i | 0 <= i < |s| && s[i].EvidenceWritten?
      ensures i + 1 < |s| && s[i + 1].LogCommitted? && s[i + 1].log.videoFrame == Some(s[i].name)
    {
      if i < |t| { assert s[i] == t[i] && s[i + 1] == t[i + 1]; }
      else { assert s[i] == u[i - |t|] && s[i + 1] == u[i + 1 - |t|]; }
    }
  }

  /** A frame's events keep that order, whatever the activities. */
  lemma {:induction false} FrameTraceOrdered(caller: Caller, sessionId: int, logged: seq<Activity>, frame: Frame, now: nat, writeRaises: nat -> bool)
    ensures WellOrdered(FrameTrace(caller, sessionId, logged, frame, now, writeRaises), StudentRoom(caller.user.id))
  {
    if logged != [] {
      var a := logged[|logged| - 1];
      FrameTraceOrdered(caller, sessionId, logged[..|logged| - 1], frame, now, writeRaises);
      ActivityEffectsOrdered(caller, sessionId, a, EvidenceFor(sessionId, a, frame, now, writeRaises(|logged| - 1)));
      AppendOrdered(FrameTrace(caller, sessionId, logged[..|logged| - 1], frame, now, writeRaises),
                    ActivityEffects(caller, sessionId, a, EvidenceFor(sessionId, a, frame, now, writeRaises(|logged| - 1))),
                    StudentRoom(caller.user.id));
    }
  }

  /** The number of log commits in a trace. */
  function Commits(t: seq<Event>): nat {
    if t == [] then 0 else (if t[0].LogCommitted? then 1 else 0) + Commits(t[1..])
  }

  lemma {:induction false} CommitsAppend(t: seq<Event>, u: seq<Event>)
    ensures Commits(t + u) == Commits(t) + Commits(u)
  {
    if t == [] {
      assert t + u == u;
    } else {
      assert (t + u)[1..] == t[1..] + u;
      CommitsAppend(t[1..], u);
    }
  }

  lemma BlockCommits(log: MonitoringLog, warning: Event, alert: Event)
    requires !warning.LogCommitted? && !alert.LogCommitted?
    ensures Commits([LogCommitted(log), warning, alert]) == 1
    ensures forall f :: Commits([EvidenceWritten(f), LogCommitted(log), warning, alert]) == 1
  {
    var t := [LogCommitted(log), warning, alert];
    assert Commits([alert]) == 0 by { assert [alert][1..] == []; }
    assert Commits([warning, alert]) == 0 by { assert [warning, alert][1..] == [alert]; }
    assert Commits(t) == 1 by { assert t[1..] == [warning, alert]; }
    forall f ensures Commits([EvidenceWritten(f), LogCommitted(log), warning, alert]) == 1 {
      assert [EvidenceWritten(f), LogCommitted(log), warning, alert][1..] == t;
    }
  }

  /** One commit per logged activity: the activities at or below the threshold add
      nothing to the trace. */
  lemma {:induction false} FrameTraceCommits(caller: Caller, sessionId: int, logged: seq<Activity>, frame: Frame, now: nat, writeRaises: nat -> bool)
    ensures Commits(FrameTrace(caller, sessionId, logged, frame, now, writeRaises)) == |logged|
  {
    if logged != [] {
      var a := logged[|logged| - 1];
      var evidence := EvidenceFor(sessionId, a, frame, now, writeRaises(|logged| - 1));
      var init := FrameTrace(caller, sessionId, logged[..|logged| - 1], frame, now, writeRaises);
      FrameTraceCommits(caller, sessionId, logged[..|logged| - 1], frame, now, writeRaises);
      CommitsAppend(init, ActivityEffects(caller, sessionId, a, evidence));
      var log, warning, alert := LogOf(sessionId, a, evidence), WarningOf(caller, a), AlertOf(caller, sessionId, a);
      BlockCommits(log, warning, alert);
      if evidence.Some? {
        assert ActivityEffects(caller, sessionId, a, evidence) == [EvidenceWritten(evidence.value), LogCommitted(log), warning, alert];
      } else {
        assert ActivityEffects(caller, sessionId, a, evidence) == [LogCommitted(log), warning, alert];
      }
    }
  }

  /** One more activity of the frame is one more alert when it is above the threshold. */
  lemma AlertsStep(acts: seq<Activity>, i: nat, threshold: real)
    requires i < |acts|
    ensures Alerts(acts[..i + 1], threshold) ==
              Alerts(acts[..i], threshold) + (if acts[i].confidence > threshold then [acts[i]] else [])
  {
    assert acts[..i + 1][..i] == acts[..i];
  }

  /** One more logged activity extends the logs and the trace by its own effects. */
  lemma LoggedStep(caller: Caller, sessionId: int, logged: seq<Activity>, a: Activity, frame: Frame, now: nat,
                   writeRaises: nat -> bool)
    ensures var evidence := EvidenceFor(sessionId, a, frame, now, writeRaises(|logged|));
      && FrameLogs(sessionId, logged + [a], frame, now, writeRaises) ==
           FrameLogs(sessionId, logged, frame, now, writeRaises) + [LogOf(sessionId, a, evidence)]
      && FrameTrace(caller, sessionId, logged + [a], frame, now, writeRaises) ==
           FrameTrace(caller, sessionId, logged, frame, now, writeRaises) + ActivityEffects(caller, sessionId, a, evidence)
  {
    assert (logged + [a])[..|logged|] == logged;
  }

  /** What the handler makes of the posted `frame` field: `Malformed` when taking the
      part after the comma, base64-decoding it or passing the bytes to `cv2.imdecode`
      raises; `Undecodable` when `cv2.imdecode` returns `None`; otherwise the decoded
      image and what the detectors report on it. */
  datatype FramePost = Malformed | Undecodable | Decoded(image: Image, readings: FrameReadings)

  /** The frame `analyze_frame` receives. */
  function PostedFrame(post: FramePost): (f: Frame)
    requires !post.Malformed?
    ensures f.Some? <==> post.Decoded?
  {
    if post.Decoded? then Some(post.image) else None
  }

  /** What the detectors report on the posted frame: nothing on `None`, whose
      detection errors they catch; the endpoint passes no audio. */
  function PostedReadings(post: FramePost): (r: FrameReadings)
    requires !post.Malformed?
    ensures r.audio.None?
    ensures post.Undecodable? ==> r.faceCount == 0 && r.objects == [] && r.gaze.None?
  {
    if post.Decoded? then post.readings.(audio := None) else FrameReadings(0, [], None, None)
  }

  /** A posted image that does not decode counts as an empty room: its only possible
      activity is the absence, and none of its logs gets evidence. */
  lemma UndecodableFrame(config: MonitorConfig, absenceStart: Option<nat>, sessionId: int, now: nat, writeRaises: nat -> bool)
    ensures var acts := FrameActivities(config, absenceStart, PostedReadings(Undecodable), now);
            && acts == AbsenceActivities(config, absenceStart, 0, now)
            && forall l :: l in FrameLogs(sessionId, Alerts(acts, config.cheatingThreshold), None, now, writeRaises) ==>
                 l.videoFrame.None?
  {
    var r := PostedReadings(Undecodable);
    assert FaceActivities(0, now) == [] && AudioActivities(None, now) == [];
    assert ObjectActivities([], PhoneLabel, PhoneDetected, now) == [];
    assert ObjectActivities([], BookLabel, UnauthorizedMaterial, now) == [];
    assert GazeActivities(config, 0, None, now) == [];
    var acts := FrameActivities(config, absenceStart, r, now);
    FrameLogsExact(sessionId, Alerts(acts, config.cheatingThreshold), None, now, writeRaises);
  }

  /** The response of `submit_audio`: processed, or the 500 of an uncaught error. */
  datatype AudioResponse = AudioProcessed | AudioFailed

  /** The response of `submit_frame`. */
  datatype FrameResponse = InvalidSession | ProcessingFailed | Processed(activities: nat)

  /** The monitoring part of the session report: the live monitor's summary, or the
      summary rebuilt from the session's logs. */
  datatype MonitoringSummary =
    | LiveSummary(summary: Option<Summary>)
    | LogSummary(activityCounts: seq<(string, nat)>, suspicionScore: int, highConfidenceAlerts: seq<MonitoringLog>)

  /** The response of `get_session_report`, restricted to its monitoring summary. */
  datatype ReportResponse = Unauthorized | SessionNotFound | Report(monitoring: MonitoringSummary)

  /** The logs of one session, in order. */
  function SessionLogs(logs: seq<MonitoringLog>, sessionId: int): (r: seq<MonitoringLog>)
    ensures forall l :: l in r <==> l in logs && l.sessionId == sessionId
  {
    if logs == [] then []
    else
      var init := SessionLogs(logs[..|logs| - 1], sessionId);
      var l := logs[|logs| - 1];
      assert forall x :: x in logs <==> x in logs[..|logs| - 1] || x == l;
      if l.sessionId == sessionId then init + [l] else init
  }

  /** `SessionLogs` keeps each element that passes as often as it occurs, and no other. */
  lemma {:induction false} SessionLogsMultiplicity(logs: seq<MonitoringLog>, sessionId: int)
    ensures forall l :: multiset(SessionLogs(logs, sessionId))[l] == if l.sessionId == sessionId then multiset(logs)[l] else 0
  {
    if logs != [] {
      SessionLogsMultiplicity(logs[..|logs| - 1], sessionId);
      assert logs == logs[..|logs| - 1] + [logs[|logs| - 1]];
    }
  }

  /** `SessionLogs` works piece by piece: it keeps the order of its input, and with
      `SessionLogsMultiplicity` this determines it. */
  lemma {:induction false} SessionLogsAppend(a: seq<MonitoringLog>, b: seq<MonitoringLog>, sessionId: int)
    ensures SessionLogs(a + b, sessionId) == SessionLogs(a, sessionId) + SessionLogs(b, sessionId)
  {
    if b == [] {
      assert a + b == a;
    } else {
      assert (a + b)[..|a + b| - 1] == a + b[..|b| - 1];
      SessionLogsAppend(a, b[..|b| - 1], sessionId);
    }
  }

  /** The activity types of the logs, in order. */
  function LogTypes(logs: seq<MonitoringLog>): (r: seq<string>)
    ensures |r| == |logs| && forall i :: 0 <= i < |logs| ==> r[i] == logs[i].activityType
  {
    seq(|logs|, i requires 0 <= i < |logs| => logs[i].activityType)
  }

  /** The logs above the report's fixed cut-off of 0.7, in order. */
  function HighConfidenceLogs(logs: seq<MonitoringLog>): (r: seq<MonitoringLog>)
    ensures forall l :: l in r <==> l in logs && l.confidence > ReportAlertConfidence
  {
    if logs == [] then []
    else
      var init := HighConfidenceLogs(logs[..|logs| - 1]);
      var l := logs[|logs| - 1];
      assert forall x :: x in logs <==> x in logs[..|logs| - 1] || x == l;
      if l.confidence > ReportAlertConfidence then init + [l] else init
  }

  /** `HighConfidenceLogs` keeps each element that passes as often as it occurs, and no other. */
  lemma {:induction false} HighConfidenceLogsMultiplicity(logs: seq<MonitoringLog>)
    ensures forall l :: multiset(HighConfidenceLogs(logs))[l] == if l.confidence > ReportAlertConfidence then multiset(logs)[l] else 0
  {
    if logs != [] {
      HighConfidenceLogsMultiplicity(logs[..|logs| - 1]);
      assert logs == logs[..|logs| - 1] + [logs[|logs| - 1]];
    }
  }

  /** `HighConfidenceLogs` works piece by piece: it keeps the order of its input, and with
      `HighConfidenceLogsMultiplicity` this determines it. */
  lemma {:induction false} HighConfidenceLogsAppend(a: seq<MonitoringLog>, b: seq<MonitoringLog>)
    ensures HighConfidenceLogs(a + b) == HighConfidenceLogs(a) + HighConfidenceLogs(b)
  {
    if b == [] {
      assert a + b == a;
    } else {
      assert (a + b)[..|a + b| - 1] == a + b[..|b| - 1];
      HighConfidenceLogsAppend(a, b[..|b| - 1]);
    }
  }

  /** One more log adds one to its type's count and, above the cut-off, one alert. */
  lemma LogReportStep(ls: seq<MonitoringLog>, i: nat)
    requires i < |ls|
    ensures Counts(LogTypes(ls[..i + 1])) == Bump(Counts(LogTypes(ls[..i])), ls[i].activityType)
    ensures HighConfidenceLogs(ls[..i + 1]) ==
      HighConfidenceLogs(ls[..i]) + (if ls[i].confidence > ReportAlertConfidence then [ls[i]] else [])
  {
    assert ls[..i + 1][..i] == ls[..i];
    assert LogTypes(ls[..i + 1])[..i] == LogTypes(ls[..i]);
  }

  /** The rebuilt counts list each logged type once with its number of logs, and
      add up to the number of the session's logs. */
  lemma LogSummaryCounts(logs: seq<MonitoringLog>, sessionId: int)
    ensures var session := SessionLogs(logs, sessionId);
            var counts := Counts(LogTypes(session));
            && NoDuplicateKeys(counts)
            && SumCounts(counts) == |session|
            && forall t :: CountOf(counts, t) == multiset(LogTypes(session))[t]
  {
    CountsExact(LogTypes(SessionLogs(logs, sessionId)));
  }

  class MonitoringService {
    /** The application configuration every monitor is created with. */
    const config: MonitorConfig
    /** `active_monitors`. */
    var activeMonitors: map<int, ActivityMonitor>
    /** The `ExamSession` rows and the next id the database assigns. */
    var sessions: seq<ExamSession>
    var nextSessionId: int
    /** The `MonitoringLog` rows, in commit order. */
    var logs: seq<MonitoringLog>
    /** Every effect so far, in order. */
    var trace: seq<Event>

    /** Session ids are below the next id; every registered monitor is valid, uses the
        application configuration, and is registered under one id only. */
    ghost predicate Valid()
      reads this, activeMonitors.Values
    {
      && (forall s :: s in sessions ==> s.id < nextSessionId)
      && (forall id :: id in activeMonitors ==> id < nextSessionId)
      && (forall id :: id in activeMonitors ==> activeMonitors[id].Valid() && activeMonitors[id].config == config)
      && (forall i, j :: i in activeMonitors && j in activeMonitors && i != j ==> activeMonitors[i] != activeMonitors[j])
    }

    constructor(config: MonitorConfig, sessions: seq<ExamSession>, nextSessionId: int)
      requires forall s :: s in sessions ==> s.id < nextSessionId
      ensures Valid()
      ensures this.config == config && this.sessions == sessions && this.nextSessionId == nextSessionId
      ensures activeMonitors == map[] && logs == [] && trace == []
    {
      this.config := config;
      this.sessions := sessions;
      this.nextSessionId := nextSessionId;
      activeMonitors := map[];
      logs := [];
      trace := [];
    }

    /** `start_session`: a new in-progress session under the next id, and a new
        monitor registered under that id; no existing entry is replaced or removed. */
    method StartSession(caller: Caller, examId: int) returns (sessionId: int)
      requires Valid()
      modifies this
      ensures Valid()
      ensures sessionId == old(nextSessionId) && nextSessionId == sessionId + 1
      ensures sessionId !in old(activeMonitors)
      ensures sessions == old(sessions) + [ExamSession(sessionId, examId, caller.user.id, InProgress, None, None)]
      ensures activeMonitors.Keys == old(activeMonitors).Keys + {sessionId}
      ensures forall id :: id in old(activeMonitors) ==> activeMonitors[id] == old(activeMonitors)[id]
      ensures fresh(activeMonitors[sessionId])
      ensures activeMonitors[sessionId].history == [] && activeMonitors[sessionId].frameBuffer == []
      ensures activeMonitors[sessionId].absenceStart.None?
      ensures logs == old(logs) && trace == old(trace)
    {
      sessionId := nextSessionId;
      sessions := sessions + [ExamSession(sessionId, examId, caller.user.id, InProgress, None, None)];
      nextSessionId := nextSessionId + 1;
      var monitor := new ActivityMonitor(config);
      activeMonitors := activeMonitors[sessionId := monitor];
    }

    /** `submit_frame`: 400 for an unregistered session and 500 for a malformed
        payload, both without effects; otherwise the session's monitor analyses the
        frame (an image that does not decode is analysed as `None`, on which the
        detectors find nothing; the endpoint passes no audio), each activity strictly
        above the cheating threshold is logged with its evidence and notifications,
        and the response counts every activity. `writeRaises(k)` says whether saving
        the evidence of the `k`-th logged activity raises. */
    method SubmitFrame(caller: Caller, sessionId: int, post: FramePost, now: nat, writeRaises: nat -> bool)
      returns (response: FrameResponse)
      requires Valid()
      modifies this, if sessionId in activeMonitors then {activeMonitors[sessionId]} else {}
      ensures Valid()
      ensures activeMonitors == old(activeMonitors) && sessions == old(sessions) && nextSessionId == old(nextSessionId)
      ensures sessionId !in activeMonitors ==> response == InvalidSession && logs == old(logs) && trace == old(trace)
      ensures sessionId in activeMonitors && post.Malformed? ==>
        response == ProcessingFailed && logs == old(logs) && trace == old(trace)
        && unchanged(activeMonitors[sessionId])
      ensures sessionId in activeMonitors && !post.Malformed? ==>
        var monitor := activeMonitors[sessionId];
        var frame := PostedFrame(post);
        var readings := PostedReadings(post);
        var acts := FrameActivities(config, old(monitor.absenceStart), readings, now);
        var logged := Alerts(acts, config.cheatingThreshold);
        && response == Processed(|acts|)
        && logs == old(logs) + FrameLogs(sessionId, logged, frame, now, writeRaises)
        && trace == old(trace) + FrameTrace(caller, sessionId, logged, frame, now, writeRaises)
        && monitor.absenceStart == NextAbsenceStart(old(monitor.absenceStart), readings.faceCount, now)
        && monitor.history == BoundedAppend(old(monitor.history), HistoryRecord(now, readings.faceCount, acts), HistoryCapacity)
        && monitor.frameBuffer == if acts == [] then old(monitor.frameBuffer)
                                  else BoundedAppend(old(monitor.frameBuffer), BufferedFrame(frame, now), FrameBufferCapacity)
    {
      if sessionId !in activeMonitors {
        return InvalidSession;
      }
      if post.Malformed? {
        return ProcessingFailed;
      }
      var frame := PostedFrame(post);
      var readings := PostedReadings(post);
      var monitor := activeMonitors[sessionId];
      var activities := monitor.AnalyzeFrame(frame, readings, now);
      assert forall id :: id in activeMonitors && id != sessionId ==> activeMonitors[id] != monitor;
      assert Valid();
      LogActivities(caller, sessionId, monitor, frame, activities, now, writeRaises);
      response := Processed(|activities|);
    }

    /** The loop of `submit_frame` over the frame's activities: each one strictly above
        the cheating threshold gets its evidence (above 0.8), its log commit and its
        two notifications; the others have no effect. */
    method LogActivities(caller: Caller, sessionId: int, monitor: ActivityMonitor, frame: Frame,
                         activities: seq<Activity>, now: nat, writeRaises: nat -> bool)
      requires Valid()
      requires activities != [] ==>
        monitor.frameBuffer != [] && monitor.frameBuffer[|monitor.frameBuffer| - 1] == BufferedFrame(frame, now)
      modifies this
      ensures Valid()
      ensures activeMonitors == old(activeMonitors) && sessions == old(sessions) && nextSessionId == old(nextSessionId)
      ensures logs == old(logs) + FrameLogs(sessionId, Alerts(activities, config.cheatingThreshold), frame, now, writeRaises)
      ensures trace == old(trace) + FrameTrace(caller, sessionId, Alerts(activities, config.cheatingThreshold), frame, now, writeRaises)
    {
      var threshold := config.cheatingThreshold;
      var newLogs: seq<MonitoringLog> := [];
      var newEvents: seq<Event> := [];
      ghost var logged: seq<Activity> := [];
      var count := 0;
      var i := 0;
      while i < |activities|
        invariant 0 <= i <= |activities|
        modifies {}
        invariant logged == Alerts(activities[..i], threshold) && count == |logged|
        invariant newLogs == FrameLogs(sessionId, logged, frame, now, writeRaises)
        invariant newEvents == FrameTrace(caller, sessionId, logged, frame, now, writeRaises)
      {
        var activity := activities[i];
        AlertsStep(activities, i, threshold);
        if activity.confidence > threshold {
          var log, events := LogActivity(caller, sessionId, monitor, frame, activity, now, writeRaises(count));
          LoggedStep(caller, sessionId, logged, activity, frame, now, writeRaises);
          newLogs := newLogs + [log];
          newEvents := newEvents + events;
          logged := logged + [activity];
          count := count + 1;
        }
        i := i + 1;
      }
      assert activities[..i] == activities;
      logs := logs + newLogs;
      trace := trace + newEvents;
    }

    /** The body of that loop for one logged activity: the evidence (above 0.8), the
        log row, then the evidence write (if any), the commit, the warning and the
        alert, in that order. */
    method LogActivity(caller: Caller, sessionId: int, monitor: ActivityMonitor, frame: Frame,
                       activity: Activity, now: nat, writeRaises: bool)
      returns (log: MonitoringLog, events: seq<Event>)
      requires activity.confidence > EvidenceConfidence ==>
        monitor.frameBuffer != [] && monitor.frameBuffer[|monitor.frameBuffer| - 1] == BufferedFrame(frame, now)
      ensures var evidence := EvidenceFor(sessionId, activity, frame, now, writeRaises);
        log == LogOf(sessionId, activity, evidence) && events == ActivityEffects(caller, sessionId, activity, evidence)
    {
      var path: Option<EvidenceName> := None;
      if activity.confidence > EvidenceConfidence {
        path := monitor.SaveEvidence(sessionId, activity, writeRaises);
      }
      log := MonitoringLog(sessionId, activity.kind.Name(), activity.confidence,
                           ActivityDetails(activity.details), activity.timestamp, path);
      events := ActivityEffects(caller, sessionId, activity, path);
    }

    /** `submit_audio`: a `voice_detected` log at 0.7 exactly when the level, any JSON
        number, exceeds 50, whether or not the session has a monitor. A missing or
        null level (`None`) makes the comparison raise, which gives a 500 without
        effects. `now` here is the UTC clock. */
    method SubmitAudio(sessionId: int, audioLevel: Option<real>, now: nat) returns (response: AudioResponse)
      requires Valid()
      modifies this
      ensures Valid()
      ensures activeMonitors == old(activeMonitors) && sessions == old(sessions) && nextSessionId == old(nextSessionId)
      ensures audioLevel.None? ==> response == AudioFailed && logs == old(logs) && trace == old(trace)
      ensures audioLevel.Some? ==> response == AudioProcessed
      ensures audioLevel.Some? && audioLevel.value > VoiceAudioLevel ==>
        var log := MonitoringLog(sessionId, VoiceDetectedType, AudioVoiceConfidence, AudioLevel(audioLevel.value), now, None);
        logs == old(logs) + [log] && trace == old(trace) + [LogCommitted(log)]
      ensures audioLevel.Some? && audioLevel.value <= VoiceAudioLevel ==> logs == old(logs) && trace == old(trace)
    {
      if audioLevel.None? {
        return AudioFailed;
      }
      if audioLevel.value > VoiceAudioLevel {
        var log := MonitoringLog(sessionId, VoiceDetectedType, AudioVoiceConfidence, AudioLevel(audioLevel.value), now, None);
        logs := logs + [log];
        trace := trace + [LogCommitted(log)];
      }
      response := AudioProcessed;
    }

    /** The `tab_switch` socket handler: a log at confidence 1.0, then a warning to the
        caller's room. `now` here is the UTC clock. */
    method TabSwitch(caller: Caller, sessionId: int, now: nat)
      requires Valid()
      modifies this
      ensures Valid()
      ensures activeMonitors == old(activeMonitors) && sessions == old(sessions) && nextSessionId == old(nextSessionId)
      ensures var log := MonitoringLog(sessionId, TabSwitchType, TabSwitchConfidence, TabAction(TabSwitchAction), now, None);
              && logs == old(logs) + [log]
              && trace == old(trace) + [LogCommitted(log), Warning(StudentRoom(caller.user.id), TabSwitchType, TabSwitchMessage)]
    {
      var log := MonitoringLog(sessionId, TabSwitchType, TabSwitchConfidence, TabAction(TabSwitchAction), now, None);
      logs := logs + [log];
      trace := trace + [LogCommitted(log)];
      trace := trace + [Warning(StudentRoom(caller.user.id), TabSwitchType, TabSwitchMessage)];
    }

    /** The monitoring summary of `get_session_report`: 403 for a non-instructor, 404
        for an unknown session, the live monitor's summary while one is registered,
        and otherwise a summary rebuilt from the session's logs with a score of 0. */
    method GetSessionReport(caller: Caller, sessionId: int) returns (r: ReportResponse)
      requires Valid()
      ensures !ExamApp.IsInstructor(caller.user) ==> r == Unauthorized
      ensures ExamApp.IsInstructor(caller.user) && (forall s :: s in sessions ==> s.id != sessionId) ==> r == SessionNotFound
      ensures ExamApp.IsInstructor(caller.user) && (exists s :: s in sessions && s.id == sessionId) ==>
        if sessionId in activeMonitors then
          var acts := AllActivities(activeMonitors[sessionId].history);
          && r.Report? && r.monitoring.LiveSummary?
          && (r.monitoring.summary.None? <==> activeMonitors[sessionId].history == [])
          && (r.monitoring.summary.Some? ==>
                r.monitoring.summary.value == Summary(Counts(Kinds(acts)), WeightSum(Kinds(acts)),
                                                      |activeMonitors[sessionId].history|,
                                                      Alerts(acts, config.cheatingThreshold)))
        else
          var session := SessionLogs(logs, sessionId);
          r == Report(LogSummary(Counts(LogTypes(session)), 0, HighConfidenceLogs(session)))
    {
      if !ExamApp.IsInstructor(caller.user) {
        return Unauthorized;
      }
      var found := false;
      var k := 0;
      while k < |sessions|
        invariant 0 <= k <= |sessions|
        invariant found <==> exists s :: s in sessions[..k] && s.id == sessionId
      {
        assert sessions[..k + 1] == sessions[..k] + [sessions[k]];
        if sessions[k].id == sessionId {
          found := true;
        }
        k := k + 1;
      }
      assert sessions[..k] == sessions;
      if !found {
        return SessionNotFound;
      }
      if sessionId in activeMonitors {
        var summary := activeMonitors[sessionId].GetSummary();
        return Report(LiveSummary(summary));
      }
      var sessionLogs := SessionLogs(logs, sessionId);
      var counts: seq<(string, nat)> := [];
      var alerts: seq<MonitoringLog> := [];
      var i := 0;
      while i < |sessionLogs|
        invariant 0 <= i <= |sessionLogs|
        invariant counts == Counts(LogTypes(sessionLogs[..i]))
        invariant alerts == HighConfidenceLogs(sessionLogs[..i])
      {
        var log := sessionLogs[i];
        LogReportStep(sessionLogs, i);
        counts := Bump(counts, log.activityType);
        if log.confidence > ReportAlertConfidence {
          alerts := alerts + [log];
        }
        i := i + 1;
      }
      assert sessionLogs[..i] == sessionLogs;
      r := Report(LogSummary(counts, 0, alerts));
    }
  }
}
