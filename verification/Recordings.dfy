/** Which files the recorder writes, and until when: told from the steps of a run alone. */
module Recordings {
  import opened Bytes
  import opened Controller

  /** The path is the directory, the stamp and the ending, in this order. */
  predicate FileOf(path: CString, directory: CString, stamp: CString, ending: CString) {
    && |directory| + |ending| <= |path| && path[..|directory|] == directory
    && path[|path| - |ending|..] == ending && path[|directory|..|path| - |ending|] == stamp
  }

  lemma RawPathIsFile(directory: CString, stamp: CString)
    ensures FileOf(RawPath(directory, stamp), directory, stamp, Ascii(".raw"))
  {
    hide Ascii;
  }

  lemma CsvPathIsFile(directory: CString, stamp: CString)
    ensures FileOf(CsvPath(directory, stamp), directory, stamp, Ascii("_metadata.csv"))
  {
    hide Ascii;
  }

  // Steps, in the words of the messages.

  predicate Triggered(step: Step, command: CString) {
    step.event.Udp? && step.event.message.Received? && step.event.message.trigger.command == command
  }

  predicate StartsRecording(c: Settings, step: Step) {
    c.recordRaw && Triggered(step, Ascii("start")) && step.event.second.Made?
  }

  predicate EndsRecording(c: Settings, step: Step) {
    !step.event.Udp? || (c.recordRaw && Triggered(step, Ascii("stop")))
  }

  /** The recording that step `k` has started is in progress. */
  predicate RecordingFrom(c: Settings, steps: seq<Step>, k: nat) {
    && k < |steps| && StartsRecording(c, steps[k])
    && forall j :: k < j < |steps| ==> !StartsRecording(c, steps[j]) && !EndsRecording(c, steps[j])
  }

  /** The step opens a metadata file, if its directory can be made. */
  predicate OpensCsv(step: Step) {
    match step.event
    case Configure(_) => true
    case Teardown => false
    case Limit(directory, _) => directory.Made?
    case Udp(_, first, _) => (Triggered(step, Ascii("start")) || Triggered(step, Ascii("stop"))) && first.Made?
  }

  function DirectoryOf(step: Step): CString {
    match step.event
    case Configure(setup) => setup.directory.path
    case Limit(directory, _) => directory.path
    case Udp(_, first, _) => first.path
    case Teardown => []
  }

  function StampOf(step: Step): CString {
    match step.event
    case Configure(setup) => setup.stamp
    case Limit(_, stamp) => stamp
    case Udp(Received(trigger), _, _) => trigger.timestamp
    case _ => []
  }

  /** Step `k` has opened the metadata file that is being written. */
  predicate CsvFrom(steps: seq<Step>, k: nat) {
    k < |steps| && OpensCsv(steps[k]) && forall j :: k < j < |steps| ==> !OpensCsv(steps[j])
  }

  predicate RestartsTimer(c: Settings, step: Step) {
    match step.event
    case Configure(_) => true
    case Teardown => false
    case Limit(_, _) => true
    case Udp(_, first, _) =>
      (Triggered(step, Ascii("start")) || Triggered(step, Ascii("stop"))) && (c.recordRaw || first.Made?)
  }

  predicate TimerFrom(c: Settings, steps: seq<Step>, k: nat) {
    k < |steps| && RestartsTimer(c, steps[k]) && forall j :: k < j < |steps| ==> !RestartsTimer(c, steps[j])
  }

  lemma OneStep(c: Settings, steps: seq<Step>)
    requires Legal(c, steps) && steps != [] && After(c, steps).On?
    ensures var before, last := steps[..|steps| - 1], steps[|steps| - 1];
      var p, q := After(c, before), After(c, steps);
      && (last.event.Configure? || p.On?)
      && q.due == (if RestartsTimer(c, last) then last.at + c.rawTimeLimit else p.due)
      && q.csv == (if OpensCsv(last) then CsvPath(DirectoryOf(last), StampOf(last)) else p.csv)
      && q.raw == (if StartsRecording(c, last) then Path(RawPath(last.event.second.path, StampOf(last)))
                   else if EndsRecording(c, last) then Unset
                   else p.raw)
  {
    hide RawPath, CsvPath, Ascii;
    StartIsNotStop();
  }

  /**
   * A recording is in progress exactly when some step has started one and no later step has ended it,
   * and it goes to the file of that step's directory and timestamp.
   */
  lemma {:induction false} RecordedFile(c: Settings, steps: seq<Step>)
    requires Legal(c, steps) && After(c, steps).On?
    ensures After(c, steps).raw.Path? <==> exists k: nat :: RecordingFrom(c, steps, k)
    ensures forall k: nat :: RecordingFrom(c, steps, k) ==>
      && After(c, steps).raw.Path?
      && FileOf(After(c, steps).raw.text, steps[k].event.second.path, StampOf(steps[k]), Ascii(".raw"))
  {
    hide RawPath, CsvPath, Ascii, StartsRecording, EndsRecording, OpensCsv, RestartsTimer, FileOf;
    var n := |steps|;
    var before, last := steps[..n - 1], steps[n - 1];
    OneStep(c, steps);
    assert forall j :: 0 <= j < n - 1 ==> before[j] == steps[j];
    if StartsRecording(c, last) {
      RawPathIsFile(last.event.second.path, StampOf(last));
      assert RecordingFrom(c, steps, n - 1);
    } else if !EndsRecording(c, last) {
      if last.event.Configure? { Configuring(c, last); }
      RecordedFile(c, before);
      assert forall k: nat :: k < n - 1 ==> (RecordingFrom(c, steps, k) <==> RecordingFrom(c, before, k));
    }
  }

  lemma Configuring(c: Settings, step: Step)
    requires step.event.Configure?
    ensures EndsRecording(c, step)
  {
  }

  /** The metadata goes to the file of the last step that has opened one. */
  lemma {:induction false} MetadataFile(c: Settings, steps: seq<Step>)
    requires Legal(c, steps) && After(c, steps).On?
    ensures exists k: nat :: CsvFrom(steps, k)
    ensures forall k: nat :: CsvFrom(steps, k) ==>
      FileOf(After(c, steps).csv, DirectoryOf(steps[k]), StampOf(steps[k]), Ascii("_metadata.csv"))
  {
    hide RawPath, CsvPath, Ascii, StartsRecording, EndsRecording, OpensCsv, RestartsTimer, FileOf;
    var n := |steps|;
    var before, last := steps[..n - 1], steps[n - 1];
    OneStep(c, steps);
    assert forall j :: 0 <= j < n - 1 ==> before[j] == steps[j];
    if OpensCsv(last) {
      CsvPathIsFile(DirectoryOf(last), StampOf(last));
      assert CsvFrom(steps, n - 1);
    } else {
      if last.event.Configure? { ConfiguringOpens(c, last); }
      MetadataFile(c, before);
      assert forall k: nat :: k < n - 1 ==> (CsvFrom(steps, k) <==> CsvFrom(before, k));
    }
  }

  lemma ConfiguringOpens(c: Settings, step: Step)
    requires step.event.Configure?
    ensures OpensCsv(step) && RestartsTimer(c, step)
  {
  }

  /** The deadline counts from the last step that has restarted the timer. */
  lemma {:induction false} TimerRunsFrom(c: Settings, steps: seq<Step>)
    requires Legal(c, steps) && After(c, steps).On?
    ensures exists k: nat :: TimerFrom(c, steps, k)
    ensures forall k: nat :: TimerFrom(c, steps, k) ==> After(c, steps).due == steps[k].at + c.rawTimeLimit
  {
    hide RawPath, CsvPath, Ascii, StartsRecording, EndsRecording, OpensCsv, RestartsTimer, FileOf;
    var n := |steps|;
    var before, last := steps[..n - 1], steps[n - 1];
    OneStep(c, steps);
    assert forall j :: 0 <= j < n - 1 ==> before[j] == steps[j];
    if RestartsTimer(c, last) {
      assert TimerFrom(c, steps, n - 1);
    } else {
      if last.event.Configure? { ConfiguringOpens(c, last); }
      TimerRunsFrom(c, before);
      assert forall k: nat :: k < n - 1 ==> (TimerFrom(c, steps, k) <==> TimerFrom(c, before, k));
    }
  }

  /**
   * Of two recordings in one directory, at any times of any runs, with different timestamps none
   * writes over the other.
   */
  lemma RecordingsAreApart(c: Settings, steps: seq<Step>, k: nat, d: Settings, others: seq<Step>, l: nat)
    requires Legal(c, steps) && After(c, steps).On? && RecordingFrom(c, steps, k)
    requires Legal(d, others) && After(d, others).On? && RecordingFrom(d, others, l)
    requires steps[k].event.second.path == others[l].event.second.path && StampOf(steps[k]) != StampOf(others[l])
    ensures After(c, steps).raw != After(d, others).raw
  {
    hide Ascii, Legal, After, StampOf;
    RecordedFile(c, steps);
    RecordedFile(d, others);
  }

  /** No metadata file is ever a raw file. */
  lemma MetadataIsNoRecording(c: Settings, steps: seq<Step>, d: Settings, others: seq<Step>)
    requires Legal(c, steps) && After(c, steps).On? && Legal(d, others) && After(d, others).On?
    ensures After(d, others).raw != Path(After(c, steps).csv)
  {
    hide Legal, After, Ascii, RecordingFrom, CsvFrom;
    MetadataFile(c, steps);
    RecordedFile(d, others);
    Endings(After(c, steps).csv);
  }

  lemma Endings(path: CString)
    ensures |path| >= 13 && path[|path| - 13..] == Ascii("_metadata.csv") ==> path[|path| - 4..] != Ascii(".raw")
  {
    if |path| >= 13 && path[|path| - 13..] == Ascii("_metadata.csv") {
      assert path[|path| - 4..][3] == path[|path| - 13..][12] == 118;
    }
  }

  /**
   * Which steps may come next: the media is configured while it is off; while it is on, it may be torn
   * down and any message may arrive at any time, and the timer fires once it is due.
   */
  lemma NextStepIsLegalIff(c: Settings, steps: seq<Step>, step: Step)
    requires Legal(c, steps)
    ensures Legal(c, steps + [step]) <==>
      && (steps != [] ==> steps[|steps| - 1].at <= step.at)
      && match step.event
         case Configure(_) => After(c, steps).Off?
         case Limit(_, _) => After(c, steps).On? && After(c, steps).due <= step.at
         case _ => After(c, steps).On?
  {
    assert (steps + [step])[..|steps|] == steps;
  }

  // Streaming.

  predicate SetsUp(step: Step) {
    && step.event.Configure?
    && step.event.setup.sensorMatches && step.event.setup.directory.Made? && step.event.setup.metadataWritten
  }

  /** Step `k` has configured the media with success, and nothing has torn it down since. */
  predicate StreamsFrom(steps: seq<Step>, k: nat) {
    && k < |steps| && SetsUp(steps[k])
    && forall j :: k < j < |steps| ==> !steps[j].event.Teardown?
  }

  /**
   * In a defined state the recorder streams from a successful configuration until it is torn down; a
   * failed one ends the run.
   */
  lemma {:induction false} StreamingIff(c: Settings, steps: seq<Step>)
    requires Legal(c, steps) && !After(c, steps).Undefined?
    ensures After(c, steps).On? <==> exists k: nat :: StreamsFrom(steps, k)
    ensures After(c, steps).Ended?
      <==> steps != [] && steps[|steps| - 1].event.Configure? && !SetsUp(steps[|steps| - 1])
  {
    hide RawPath, CsvPath, Ascii, AfterMessage;
    var n := |steps|;
    if n > 0 {
      var before, last := steps[..n - 1], steps[n - 1];
      assert forall j :: 0 <= j < n - 1 ==> before[j] == steps[j];
      MessageKeepsStreaming(c, After(c, before), last);
      StreamingIff(c, before);
      assert forall k: nat :: k < n - 1 ==>
        (StreamsFrom(steps, k) <==> StreamsFrom(before, k) && !last.event.Teardown?);
      if last.event.Configure? {
        assert After(c, steps).On? <==> StreamsFrom(steps, n - 1);
      }
    }
  }

  lemma MessageKeepsStreaming(c: Settings, p: Phase, step: Step)
    requires Enabled(p, step)
    ensures step.event.Udp? || step.event.Limit? ==> Next(c, p, step).On? || Next(c, p, step).Undefined?
  {
    hide RawPath, CsvPath, Ascii;
  }

  // Directories that cannot be made.

  /**
   * The step needs a directory that cannot be made: a trigger one, a trigger that records raw a
   * second, the time limit one.
   */
  predicate LacksDirectory(c: Settings, step: Step) {
    match step.event
    case Limit(directory, _) => directory.Failed?
    case Udp(_, first, second) =>
      || ((Triggered(step, Ascii("start")) || Triggered(step, Ascii("stop"))) && first.Failed?)
      || (c.recordRaw && Triggered(step, Ascii("start")) && second.Failed?)
    case _ => false
  }

  /** The program's state becomes undefined exactly when a step lacks its directory. */
  lemma UndefinedIffLacking(c: Settings, steps: seq<Step>)
    requires Legal(c, steps)
    ensures After(c, steps).Undefined? <==> c.freesAgain && exists i :: 0 <= i < |steps| && LacksDirectory(c, steps[i])
  {
    UndefinedIff(c, steps);
    forall i | 0 <= i < |steps|
      ensures Fails(c, steps[i].event) <==> LacksDirectory(c, steps[i])
    {
    }
  }
}
