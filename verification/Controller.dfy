/** The recording controller: the handlers of the GLib main loop that share `PipelineData`. */
module Controller {
  import opened Bytes
  import opened Tree

  /**
   * The source of a main context: a time limit, a watch on the UDP channel, or anything of other parts
   * of the program.
   */
  datatype Source = LimitTimer(due: nat) | UdpWatch | Unrelated

  /** The GLib main context and its loop. Source ids start at 1 and are not used twice. */
  class MainContext {
    var now: nat
    var nextId: nat
    var sources: map<nat, Source>
    var quit: bool

    constructor (others: set<nat>, nextId: nat)
      requires nextId > 0 && forall id <- others :: 0 < id < nextId
      ensures Valid() && !quit && now == 0
      ensures Others() == others && LimitTimers() == {} && Watches() == {}
    {
      now, quit := 0, false;
      this.nextId := nextId;
      sources := map id | id in others :: Unrelated;
    }

    ghost predicate Valid()
      reads this
    {
      nextId > 0 && forall id <- sources :: 0 < id < nextId
    }

    ghost function LimitTimers(): set<nat>
      reads this
    {
      set id | id in sources && sources[id].LimitTimer?
    }

    ghost function Watches(): set<nat>
      reads this
    {
      set id | id in sources && sources[id].UdpWatch?
    }

    ghost function Others(): set<nat>
      reads this
    {
      set id | id in sources && sources[id].Unrelated?
    }

    /** The three kinds of sources. */
    ghost function All(): set<nat>
      reads this
    {
      LimitTimers() + Watches() + Others()
    }

    lemma Kinds()
      ensures All() == sources.Keys
      ensures Valid() ==> forall id <- All() :: id < nextId
      ensures LimitTimers() !! Watches() && LimitTimers() !! Others() && Watches() !! Others()
    {
    }

    /** When a limit timer is due. */
    function Due(id: nat): nat
      reads this
    {
      if id in sources && sources[id].LimitTimer? then sources[id].due else 0
    }

    /** `g_timeout_add_seconds`. */
    method TimeoutAddSeconds(seconds: nat) returns (id: nat)
      requires Valid()
      modifies this`nextId, this`sources
      ensures Valid() && id == old(nextId) && id != 0 && id !in old(All())
      ensures LimitTimers() == old(LimitTimers()) + {id} && Watches() == old(Watches()) && Others() == old(Others())
      ensures Due(id) == now + seconds
    {
      id := nextId;
      sources, nextId := sources[id := LimitTimer(now + seconds)], nextId + 1;
    }

    /** `g_io_add_watch`. */
    method AddWatch() returns (id: nat)
      requires Valid()
      modifies this`nextId, this`sources
      ensures Valid() && id == old(nextId) && id != 0 && id !in old(All())
      ensures LimitTimers() == old(LimitTimers()) && Watches() == old(Watches()) + {id} && Others() == old(Others())
    {
      id := nextId;
      sources, nextId := sources[id := UdpWatch], nextId + 1;
    }

    /** `g_source_remove`. */
    method Remove(id: nat) returns (found: bool)
      requires Valid()
      modifies this`sources
      ensures Valid() && found == (id in old(All()))
      ensures LimitTimers() == old(LimitTimers()) - {id} && Watches() == old(Watches()) - {id}
        && Others() == old(Others()) - {id}
      ensures forall other :: other != id ==> Due(other) == old(Due(other))
    {
      Kinds();
      found := id in sources;
      sources := sources - {id};
    }

    /** The end of a timer's dispatch: it is due again or destroyed, unless its callback has removed it. */
    method EndDispatch(id: nat, continues: bool, seconds: nat)
      requires Valid()
      modifies this`sources
      ensures Valid() && (id !in old(LimitTimers()) ==> sources == old(sources))
      ensures id in old(LimitTimers()) && continues ==> LimitTimers() == old(LimitTimers()) && Due(id) == now + seconds
      ensures id in old(LimitTimers()) && !continues ==> LimitTimers() == old(LimitTimers()) - {id}
      ensures Watches() == old(Watches()) && Others() == old(Others())
    {
      if id in sources && sources[id].LimitTimer? {
        sources := if continues then sources[id := LimitTimer(now + seconds)] else sources - {id};
      }
    }
  }

  /** The pad that carries the metadata probe. */
  class Pad {
    var nextId: nat
    var probes: set<nat>

    constructor ()
      ensures Valid() && probes == {}
    {
      nextId, probes := 1, {};
    }

    ghost predicate Valid()
      reads this
    {
      nextId > 0 && forall id <- probes :: 0 < id < nextId
    }

    method AddProbe() returns (id: nat)
      requires Valid()
      modifies this
      ensures Valid() && id != 0 && id !in old(probes) && probes == old(probes) + {id}
    {
      id := nextId;
      probes, nextId := probes + {id}, nextId + 1;
    }
  }

  /** The path that `format_recording_directory` formats, and whether the directory exists in the end. */
  datatype Directory = Made(path: CString) | Failed(path: CString)

  datatype Filepath = Unset | Path(text: CString)

  datatype Sink = FakeSink | FileSink

  /** A parsed UDP message that is addressed to this machine. */
  datatype Trigger = Trigger(command: CString, timestamp: CString)

  datatype Message = Ignored | Received(trigger: Trigger)

  /** Everything that `media_configure` may stumble over. */
  datatype Setup = Setup(sensorMatches: bool, directory: Directory, metadataWritten: bool, stamp: CString)

  /** What the main loop dispatches, with the outcome of each attempt to create a directory. */
  datatype Event =
    | Configure(setup: Setup)
    | Teardown
    | Udp(message: Message, first: Directory, second: Directory)
    | Limit(directory: Directory, stamp: CString)

  datatype Step = Step(at: nat, event: Event)

  /**
   * How recording is configured. `freesAgain` is true of the program: after a failure the callers
   * free a path that `format_recording_directory` has freed already. With false, the model is that
   * of a program in which they do not.
   */
  datatype Settings = Settings(recordRaw: bool, rawTimeLimit: nat, freesAgain: bool)

  const DEV_NULL: CString := Ascii("/dev/null")
  const START: CString := Ascii("start")
  const STOP: CString := Ascii("stop")

  ghost predicate EndsInRaw(path: Filepath) {
    path.Path? && |path.text| >= 4 && path.text[|path.text| - 4..] == Ascii(".raw")
  }

  function RawPath(directory: CString, timestamp: CString): CString { directory + timestamp + Ascii(".raw") }

  function CsvPath(directory: CString, timestamp: CString): CString { directory + timestamp + Ascii("_metadata.csv") }

  // What a user of the recorder sees.

  /**
   * Off, or streaming with one deadline; the raw file being written, if any, and the metadata file.
   * Ids, flags and sinks are gone; `PipelineData.Phase` says how they stand for this. The loop has
   * ended after it was told to quit, and nothing is defined any more after a block was freed twice.
   */
  datatype Phase =
    | Off
    | On(due: nat, raw: Filepath, csv: CString)
    | Ended
    | Undefined

  function Next(c: Settings, p: Phase, step: Step): Phase
    requires Enabled(p, step)
  {
    match step.event
    case Configure(s) =>
      if s.sensorMatches && s.directory.Made? && s.metadataWritten
      then On(step.at + c.rawTimeLimit, Unset, CsvPath(s.directory.path, s.stamp))
      else Ended
    case Teardown => Off
    case Udp(message, first, second) => AfterMessage(c, p, step.at, message, first, second)
    case Limit(directory, stamp) =>
      if directory.Failed? && c.freesAgain then Undefined
      else On(step.at + c.rawTimeLimit, Unset, if directory.Made? then CsvPath(directory.path, stamp) else p.csv)
  }

  function AfterMessage(c: Settings, p: Phase, at: nat, message: Message, first: Directory, second: Directory): Phase
    requires p.On?
  {
    if message.Ignored? || (message.trigger.command != START && message.trigger.command != STOP) then p
    else if c.freesAgain && MessageFails(c, message.trigger, first, second) then Undefined
    else
      var due := if c.recordRaw || first.Made? then at + c.rawTimeLimit else p.due;
      var csv := if first.Made? then CsvPath(first.path, message.trigger.timestamp) else p.csv;
      var raw :=
        if !c.recordRaw then p.raw
        else if message.trigger.command == STOP then Unset
        else if second.Made? then Path(RawPath(second.path, message.trigger.timestamp))
        else p.raw;
      On(due, raw, csv)
  }

  /** A start or stop trigger needs a directory, and a start trigger that records raw a second one. */
  predicate MessageFails(c: Settings, trigger: Trigger, first: Directory, second: Directory) {
    first.Failed? || (c.recordRaw && trigger.command == START && second.Failed?)
  }

  /** The handler fails to create a directory after the media has been configured. */
  predicate Fails(c: Settings, event: Event) {
    match event
    case Udp(Received(trigger), first, second) =>
      (trigger.command == START || trigger.command == STOP) && MessageFails(c, trigger, first, second)
    case Limit(directory, _) => directory.Failed?
    case _ => false
  }

  /**
   * Configuring and tearing down alternate, messages arrive while the watch is installed, a timer
   * fires once it is due.
   */
  predicate Enabled(p: Phase, step: Step) {
    match step.event
    case Configure(_) => p.Off?
    case Teardown => p.On?
    case Udp(_, _, _) => p.On?
    case Limit(_, _) => p.On? && p.due <= step.at
  }

  class PipelineData {
    const heap: Heap
    const context: MainContext
    const pad: Pad
    const settings: Settings
    var media: bool
    var isStreaming: bool
    var isRawRecording: bool
    var recordingFilepath: Filepath
    var fileLimitCallbackId: nat
    var udpChannelWatchId: nat
    var metadataProbeId: nat
    var csvSink: Sink
    var csvFilepath: Filepath
    /** A block has been freed that was not allocated; nothing is defined from then on. */
    var undefined: bool

    /** The state set up by `main` before the loop runs. */
    constructor (heap: Heap, context: MainContext, pad: Pad, settings: Settings)
      requires context.Valid() && context.LimitTimers() == {} && context.Watches() == {} && !context.quit
      requires pad.Valid() && pad.probes == {}
      ensures this.heap == heap && this.context == context && this.pad == pad && this.settings == settings
      ensures Valid() && Phase() == Off && !undefined
    {
      this.heap, undefined := heap, false;
      this.context, this.pad, this.settings := context, pad, settings;
      media, isStreaming, isRawRecording, recordingFilepath := false, false, false, Unset;
      fileLimitCallbackId, udpChannelWatchId, metadataProbeId := 0, 0, 0;
      csvSink, csvFilepath := FakeSink, Unset;
    }

    /** What holds between handlers while the loop runs. */
    ghost predicate Valid()
      reads this, context, pad
    {
      && context.Valid() && pad.Valid() && media == isStreaming
      && context.LimitTimers() == (if isStreaming then {fileLimitCallbackId} else {})
      && context.Watches() == (if isStreaming then {udpChannelWatchId} else {})
      && pad.probes == (if isStreaming then {metadataProbeId} else {})
      && (!isStreaming ==> fileLimitCallbackId == 0 && udpChannelWatchId == 0 && metadataProbeId == 0)
      && (isRawRecording ==> isStreaming && settings.recordRaw)
      && (isRawRecording <==> EndsInRaw(recordingFilepath))
      && (csvSink == FileSink <==> pad.probes != {})
      && (csvFilepath.Path? <==> isStreaming)
    }

    /** The loop has not been told to quit, and nothing undefined has happened. */
    predicate Running()
      reads this, context
    {
      !context.quit && !undefined
    }

    ghost function Phase(): (p: Phase)
      requires Valid()
      reads this, context, pad
      ensures p.On? <==> isStreaming && Running()
    {
      if undefined then Undefined
      else if context.quit then Ended
      else if !isStreaming then Off
      else On(context.Due(fileLimitCallbackId), if isRawRecording then recordingFilepath else Unset, csvFilepath.text)
    }

    /** `restart_file_limit_timer`: a new timer replaces a live source, even the one being dispatched. */
    method RestartFileLimitTimer() returns (ok: bool)
      requires context.Valid()
      modifies this`fileLimitCallbackId, context`sources, context`nextId
      ensures context.Valid()
      ensures ok <==> old(fileLimitCallbackId) in old(context.All())
      ensures !ok ==> fileLimitCallbackId == old(fileLimitCallbackId) && context.All() == old(context.All())
      ensures ok ==>
        Replaced(old(fileLimitCallbackId), old(context.LimitTimers()), old(context.Watches()), old(context.Others()))
    {
      hide MainContext.LimitTimers, MainContext.Watches, MainContext.Others, MainContext.Due, MainContext.Valid;
      context.Kinds();
      var found := context.Remove(fileLimitCallbackId);
      if !found {
        return false;
      }
      fileLimitCallbackId := context.TimeoutAddSeconds(settings.rawTimeLimit);
      return true;
    }

    /** The source `id` has given way to a new limit timer. */
    ghost predicate Replaced(id: nat, timers: set<nat>, watches: set<nat>, others: set<nat>)
      reads this, context
    {
      && fileLimitCallbackId != 0 && fileLimitCallbackId !in timers + watches + others
      && context.LimitTimers() == timers - {id} + {fileLimitCallbackId}
      && context.Watches() == watches - {id} && context.Others() == others - {id}
      && context.Due(fileLimitCallbackId) == context.now + settings.rawTimeLimit
    }

    /** Restarting in a valid streaming state only moves the deadline. */
    method Restart()
      requires Valid() && isStreaming && Running()
      modifies this`fileLimitCallbackId, context
      ensures Valid() && isStreaming && context.now == old(context.now) && context.Others() == old(context.Others())
      ensures Phase() == On(context.now + settings.rawTimeLimit, old(Phase()).raw, old(Phase()).csv)
    {
      context.Kinds();
      hide MainContext.LimitTimers, MainContext.Watches, MainContext.Others, MainContext.Due, MainContext.Valid;
      var _ := RestartFileLimitTimer();
    }

    /**
     * `format_recording_directory`: formats the path in a new block and creates the directory. On
     * failure it frees the block, and the pointer it hands out dangles.
     */
    method FormatRecordingDirectory(directory: Directory) returns (rc: int, path: Text)
      modifies heap
      ensures fresh(path) && path.s == directory.path && rc == (if directory.Made? then 0 else -1)
      ensures heap.live == old(heap.live) + (if directory.Made? then {path} else {})
      ensures path in heap.live <==> directory.Made?
    {
      path := heap.NewText(directory.path);
      if directory.Failed? {
        heap.Free(path);
        return -1, path;
      }
      rc := 0;
    }

    /** `free` of a path by a caller: only a live block can be freed. */
    method FreePath(path: Text)
      modifies heap, this`undefined
      ensures path in old(heap.live) ==> heap.live == old(heap.live) - {path} && undefined == old(undefined)
      ensures path !in old(heap.live) ==> heap.live == old(heap.live) && undefined
    {
      if path in heap.live {
        heap.Free(path);
      } else {
        undefined := true;
      }
    }

    /** `record_raw`: the timer is restarted before the directory is known to exist, and a dangling path is freed. */
    method RecordRaw(timestamp: CString, directory: Directory) returns (ok: bool)
      requires Valid() && isStreaming && settings.recordRaw && Running()
      modifies this, context, heap
      ensures undefined <==> directory.Failed? && settings.freesAgain
      ensures !undefined ==> Valid()
      ensures !undefined ==>
        Streams(old(context.now), old(context.Others()), old(heap.live)) && (ok <==> directory.Made?)
      ensures !undefined ==>
        Phase() == On(context.now + settings.rawTimeLimit,
                      if directory.Made? then Path(RawPath(directory.path, timestamp)) else old(Phase()).raw,
                      old(Phase()).csv)
    {
      hide MainContext.LimitTimers, MainContext.Watches, MainContext.Others, MainContext.Due, MainContext.Valid;
      hide EndsInRaw, RawPath, Pad.Valid;
      Restart();
      var rc, path := FormatRecordingDirectory(directory);
      if rc == -1 {
        if settings.freesAgain {
          FreePath(path);
        }
        return false;
      }
      recordingFilepath := Path(RawPath(path.s, timestamp));
      isRawRecording := true;
      RawPathEndsInRaw(path.s, timestamp);
      return true;
    }

    /** Still streaming at the same time; nothing of other parts is gone. */
    ghost predicate Streams(now: nat, others: set<nat>, live: set<object>)
      reads this, context, heap
    {
      isStreaming && Running() && context.now == now && context.Others() == others && live <= heap.live
    }

    /** `stop_record_raw`, also called while the media is being torn down. */
    method StopRecordRaw()
      requires context.Valid() && fileLimitCallbackId in context.LimitTimers()
      modifies this`fileLimitCallbackId, this`recordingFilepath, this`isRawRecording, context`sources, context`nextId
      ensures context.Valid()
      ensures !isRawRecording && !EndsInRaw(recordingFilepath)
      ensures Replaced(old(fileLimitCallbackId), old(context.LimitTimers()), old(context.Watches()),
          old(context.Others()))
    {
      hide MainContext.LimitTimers, MainContext.Watches, MainContext.Others, MainContext.Due, MainContext.Valid;
      var _ := RestartFileLimitTimer();
      recordingFilepath := Path(DEV_NULL);
      isRawRecording := false;
      DevNullIsNotRaw();
    }

    /** Stopping in a valid streaming state also moves the deadline. */
    method Stop()
      requires Valid() && isStreaming && Running()
      modifies this`fileLimitCallbackId, this`recordingFilepath, this`isRawRecording, context
      ensures Valid() && isStreaming && context.now == old(context.now) && context.Others() == old(context.Others())
      ensures Phase() == On(context.now + settings.rawTimeLimit, Unset, old(Phase()).csv)
      ensures old(fileLimitCallbackId) !in context.LimitTimers()
    {
      context.Kinds();
      hide MainContext.LimitTimers, MainContext.Watches, MainContext.Others, MainContext.Due, MainContext.Valid;
      StopRecordRaw();
    }

    /** `new_csv`: a file sink replaces the sink of the metadata pipeline. */
    method NewCsv(filepath: CString)
      modifies this`csvSink, this`csvFilepath
      ensures csvSink == FileSink && csvFilepath == Path(filepath)
    {
      csvFilepath := Path(filepath);
      csvSink := FileSink;
    }

    /** `metadata_cleanup`: closes the metadata file. */
    method MetadataCleanup()
      modifies this`csvSink, this`csvFilepath
      ensures csvSink == FakeSink && csvFilepath == Unset
    {
      csvFilepath := Unset;
      csvSink := FakeSink;
    }

    /** `gst_pad_remove_probe`, which runs the probe's destroy notification. */
    method RemoveProbe(id: nat)
      requires pad.Valid()
      modifies pad, this`csvSink, this`csvFilepath
      ensures pad.Valid() && pad.probes == old(pad.probes) - {id}
      ensures id in old(pad.probes) ==> csvSink == FakeSink && csvFilepath == Unset
      ensures id !in old(pad.probes) ==> csvSink == old(csvSink) && csvFilepath == old(csvFilepath)
    {
      if id in pad.probes {
        pad.probes := pad.probes - {id};
        MetadataCleanup();
      }
    }

    /** `file_limit`: the result says whether GLib is to keep the dispatched timer. */
    method FileLimit(directory: Directory, stamp: CString) returns (continues: bool)
      requires Valid() && isStreaming && Running()
      modifies this, context, heap
      ensures undefined <==> directory.Failed? && settings.freesAgain
      ensures !undefined ==> Valid()
      ensures !undefined ==>
        Streams(old(context.now), old(context.Others()), old(heap.live)) && (continues <==> directory.Made?)
      ensures !undefined ==>
        Phase() == On(context.now + settings.rawTimeLimit, Unset,
                      if directory.Made? then CsvPath(directory.path, stamp) else old(Phase()).csv)
      ensures old(fileLimitCallbackId) !in context.LimitTimers() && context.Valid() && context.now == old(context.now)
    {
      Stop();
      var rc, path := FormatRecordingDirectory(directory);
      if rc == -1 {
        if settings.freesAgain {
          FreePath(path);
        }
        return false;
      }
      NewCsv(CsvPath(path.s, stamp));
      FreePath(path);
      return true;
    }

    /** `media_configure`: either everything is set up, or the main loop quits. */
    method MediaConfigure(setup: Setup)
      requires Valid() && !isStreaming && Running()
      modifies this, context, pad, heap
      ensures context.now == old(context.now) && context.Others() == old(context.Others()) && !undefined
        && old(heap.live) <= heap.live
      ensures context.quit <==> !(setup.sensorMatches && setup.directory.Made? && setup.metadataWritten)
      ensures !context.quit ==> Valid()
      ensures !context.quit ==>
        Phase() == On(context.now + settings.rawTimeLimit, Unset, CsvPath(setup.directory.path, setup.stamp))
    {
      context.Kinds();
      hide MainContext.LimitTimers, MainContext.Watches, MainContext.Others, MainContext.Due, MainContext.Valid;
      media := true;
      if !setup.sensorMatches {
        context.quit := true;
        return;
      }
      udpChannelWatchId := context.AddWatch();
      var rc, path := FormatRecordingDirectory(setup.directory);
      if rc != 0 {
        context.quit := true;
        return;
      }
      if !setup.metadataWritten {
        FreePath(path);
        context.quit := true;
        return;
      }
      var csv := CsvPath(path.s, setup.stamp);
      FreePath(path);
      StartStreaming(csv);
    }

    /** The end of `media_configure`, once nothing can go wrong any more. */
    method StartStreaming(csv: CString)
      requires context.Valid() && pad.Valid() && media && Running() && !isRawRecording && !EndsInRaw(recordingFilepath)
      requires context.LimitTimers() == {} && context.Watches() == {udpChannelWatchId} && pad.probes == {}
      modifies this`csvSink, this`csvFilepath, this`fileLimitCallbackId, this`metadataProbeId, this`isStreaming
      modifies context`sources, context`nextId, pad
      ensures Valid() && context.Others() == old(context.Others())
      ensures Phase() == On(context.now + settings.rawTimeLimit, Unset, csv)
    {
      hide MainContext.LimitTimers, MainContext.Watches, MainContext.Others, MainContext.Due, MainContext.Valid;
      hide EndsInRaw;
      NewCsv(csv);
      fileLimitCallbackId := context.TimeoutAddSeconds(settings.rawTimeLimit);
      metadataProbeId := pad.AddProbe();
      isStreaming := true;
    }

    /** `cleanup_RTSP_media`. */
    method CleanupMedia()
      requires Valid() && isStreaming && Running()
      modifies this, context, pad
      ensures Valid() && context.now == old(context.now) && context.Others() == old(context.Others())
      ensures Phase() == Off
    {
      context.Kinds();
      hide MainContext.LimitTimers, MainContext.Watches, MainContext.Others, MainContext.Due, MainContext.Valid;
      hide Pad.Valid, EndsInRaw;
      isStreaming := false;
      media := false;
      StopRecordRaw();
      CloseSources();
    }

    /** The rest of `cleanup_RTSP_media`: the probe, the watch and the timer. */
    method CloseSources()
      requires context.Valid() && pad.Valid() && !media && !isStreaming && !isRawRecording
        && !EndsInRaw(recordingFilepath)
      requires context.LimitTimers() == {fileLimitCallbackId} && context.Watches() == {udpChannelWatchId}
        && pad.probes == {metadataProbeId}
      requires Running()
      modifies context`sources, pad
      modifies this`metadataProbeId, this`csvSink, this`csvFilepath, this`udpChannelWatchId, this`fileLimitCallbackId
      ensures Valid() && context.Others() == old(context.Others())
      ensures Phase() == Off
    {
      hide MainContext.LimitTimers, MainContext.Watches, MainContext.Others, MainContext.Due, MainContext.Valid;
      hide Pad.Valid, EndsInRaw;
      CloseProbe();
      CloseWatch();
      CloseTimer();
    }

    method CloseProbe()
      requires pad.Valid() && pad.probes == {metadataProbeId}
      modifies pad, this`metadataProbeId, this`csvSink, this`csvFilepath
      ensures pad.Valid() && pad.probes == {} && metadataProbeId == 0 && csvSink == FakeSink && csvFilepath == Unset
    {
      assert metadataProbeId in pad.probes;
      if metadataProbeId != 0 {
        RemoveProbe(metadataProbeId);
        metadataProbeId := 0;
      }
    }

    method CloseWatch()
      requires context.Valid() && context.Watches() == {udpChannelWatchId}
      modifies context`sources, this`udpChannelWatchId
      ensures context.Valid() && udpChannelWatchId == 0
      ensures context.Watches() == {} && context.LimitTimers() == old(context.LimitTimers())
        && context.Others() == old(context.Others())
    {
      assert udpChannelWatchId in context.Watches();
      assert udpChannelWatchId in context.sources;
      context.Kinds();
      hide MainContext.LimitTimers, MainContext.Watches, MainContext.Others, MainContext.Due, MainContext.Valid;
      if udpChannelWatchId != 0 {
        var _ := context.Remove(udpChannelWatchId);
        udpChannelWatchId := 0;
      }
    }

    method CloseTimer()
      requires context.Valid() && context.LimitTimers() == {fileLimitCallbackId}
      modifies context`sources, this`fileLimitCallbackId
      ensures context.Valid() && fileLimitCallbackId == 0
      ensures context.LimitTimers() == {} && context.Watches() == old(context.Watches())
        && context.Others() == old(context.Others())
    {
      assert fileLimitCallbackId in context.LimitTimers();
      assert fileLimitCallbackId in context.sources;
      context.Kinds();
      hide MainContext.LimitTimers, MainContext.Watches, MainContext.Others, MainContext.Due, MainContext.Valid;
      if fileLimitCallbackId != 0 {
        var _ := context.Remove(fileLimitCallbackId);
        fileLimitCallbackId := 0;
      }
    }

    /** `processHSTAppTrigger`. It never frees the path of a directory that exists, and frees the other one again. */
    method ProcessTrigger(trigger: Trigger, directory: Directory) returns (ok: bool)
      requires Valid() && isStreaming && Running()
      modifies this, context, heap
      ensures undefined <==> directory.Failed? && settings.freesAgain
      ensures !undefined ==> Valid()
      ensures !undefined ==>
        Streams(old(context.now), old(context.Others()), old(heap.live)) && (ok <==> directory.Made?)
      ensures !undefined ==>
        Phase() == if directory.Failed? then old(Phase())
                   else On(context.now + settings.rawTimeLimit, old(Phase()).raw,
                           CsvPath(directory.path, trigger.timestamp))
    {
      var rc, path := FormatRecordingDirectory(directory);
      if rc == -1 {
        if settings.freesAgain {
          FreePath(path);
        }
        return false;
      }
      NewCsv(CsvPath(path.s, trigger.timestamp));
      Restart();
      return true;
    }

    /** `udp_received_callback`, from the parsed message on. */
    method UdpReceived(message: Message, first: Directory, second: Directory)
      requires Valid() && isStreaming && Running()
      modifies this, context, heap
      ensures undefined <==> settings.freesAgain && Fails(settings, Udp(message, first, second))
      ensures !undefined ==> Valid()
      ensures !undefined ==> Streams(old(context.now), old(context.Others()), old(heap.live))
      ensures !undefined ==> Phase() == AfterMessage(settings, old(Phase()), context.now, message, first, second)
    {
      hide PipelineData.Valid, PipelineData.Phase, CsvPath, RawPath, MainContext.Others;
      if message.Ignored? {
        return;
      }
      StartIsNotStop();
      var trigger := message.trigger;
      if trigger.command == START {
        var _ := ProcessTrigger(trigger, first);
        if undefined {
          return;
        }
        if settings.recordRaw {
          var _ := RecordRaw(trigger.timestamp, second);
        }
      } else if trigger.command == STOP {
        var _ := ProcessTrigger(trigger, first);
        if undefined {
          return;
        }
        if settings.recordRaw {
          Stop();
        }
      }
    }

    /** GLib dispatches a limit timer: afterwards it is kept or destroyed, unless the callback removed it. */
    method DispatchLimit(directory: Directory, stamp: CString)
      requires Valid() && isStreaming && Running() && Phase().due <= context.now
      modifies this, context, heap
      ensures undefined <==> directory.Failed? && settings.freesAgain
      ensures !undefined ==> Valid()
      ensures !undefined ==> Streams(old(context.now), old(context.Others()), old(heap.live))
      ensures !undefined ==>
        Phase() == On(context.now + settings.rawTimeLimit, Unset,
                      if directory.Made? then CsvPath(directory.path, stamp) else old(Phase()).csv)
    {
      var id := TimerDue();
      var continues := FileLimit(directory, stamp);
      if undefined {
        return;
      }
      context.EndDispatch(id, continues, settings.rawTimeLimit);
    }

    /** The main context picks a limit timer that is due. */
    method TimerDue() returns (id: nat)
      requires Valid() && isStreaming && Running() && Phase().due <= context.now
      ensures id == fileLimitCallbackId
    {
      assert fileLimitCallbackId in context.LimitTimers();
      assert context.Due(fileLimitCallbackId) == context.sources[fileLimitCallbackId].due;
      id :| id in context.sources && context.sources[id].LimitTimer? && context.sources[id].due <= context.now;
      assert id in context.LimitTimers();
    }

    /** One iteration of the main loop. */
    method Dispatch(step: Step)
      requires Valid() && Running() && Enabled(Phase(), step)
      modifies this, context, pad, heap
      ensures undefined <==> Next(settings, old(Phase()), step).Undefined?
      ensures !undefined ==> (context.quit <==> Next(settings, old(Phase()), step).Ended?)
      ensures !undefined ==> context.Others() == old(context.Others()) && old(heap.live) <= heap.live
      ensures Running() ==> Valid()
      ensures Running() ==> Phase() == Next(settings, old(Phase()), step)
    {
      context.now := step.at;
      match step.event
      case Configure(setup) => MediaConfigure(setup);
      case Teardown => CleanupMedia();
      case Udp(message, first, second) => UdpReceived(message, first, second);
      case Limit(directory, stamp) => DispatchLimit(directory, stamp);
    }

    /**
     * `g_main_loop_run` on any legal run. Between any two handlers the object is valid and stands for
     * the phase that the events so far amount to; no source and no block of any other part is touched.
     */
    method Run(steps: seq<Step>)
      requires Valid() && Running() && Phase() == Off && Legal(settings, steps)
      modifies this, context, pad, heap
      ensures undefined <==> After(settings, steps).Undefined?
      ensures !undefined ==> (context.quit <==> After(settings, steps).Ended?)
      ensures !undefined ==> context.Others() == old(context.Others()) && old(heap.live) <= heap.live
      ensures Running() ==> Valid()
      ensures Running() ==> Phase() == After(settings, steps)
    {
      var i := 0;
      while i < |steps|
        invariant 0 <= i <= |steps| && Legal(settings, steps[..i])
        invariant undefined <==> After(settings, steps[..i]).Undefined?
        invariant !undefined ==> (context.quit <==> After(settings, steps[..i]).Ended?)
        invariant !undefined ==> context.Others() == old(context.Others()) && old(heap.live) <= heap.live
        invariant Running() ==> Valid() && Phase() == After(settings, steps[..i])
      {
        LegalPrefix(settings, steps, i + 1);
        assert steps[..i + 1][..i] == steps[..i];
        Dispatch(steps[i]);
        i := i + 1;
      }
      assert steps[..i] == steps;
    }
  }

  lemma RawPathEndsInRaw(directory: CString, timestamp: CString)
    ensures EndsInRaw(Path(RawPath(directory, timestamp)))
  {
  }

  lemma DevNullIsNotRaw()
    ensures !EndsInRaw(Path(DEV_NULL))
  {
    assert DEV_NULL[|DEV_NULL| - 4..][0] == 110;
  }

  lemma StartIsNotStop()
    ensures START != STOP
  {
  }

  // Runs.

  /** Every event is enabled when it comes, and time does not go back. */
  predicate Legal(c: Settings, steps: seq<Step>)
    decreases |steps|, 0
  {
    steps == [] ||
    var before := steps[..|steps| - 1];
    && Legal(c, before)
    && (before != [] ==> before[|before| - 1].at <= steps[|steps| - 1].at)
    && Enabled(After(c, before), steps[|steps| - 1])
  }

  function After(c: Settings, steps: seq<Step>): Phase
    requires Legal(c, steps)
    decreases |steps|, 1
  {
    if steps == [] then Off
    else Next(c, After(c, steps[..|steps| - 1]), steps[|steps| - 1])
  }

  lemma {:induction false} LegalPrefix(c: Settings, steps: seq<Step>, k: nat)
    requires Legal(c, steps) && k <= |steps|
    ensures Legal(c, steps[..k])
    decreases |steps|
  {
    if k == |steps| {
      assert steps[..k] == steps;
    } else {
      var before := steps[..|steps| - 1];
      LegalPrefix(c, before, k);
      assert before[..k] == steps[..k];
    }
  }

  // How long a recording can last.

  // No block is freed twice.

  /** The program goes on in a defined state as long as no directory creation fails once the media is configured. */
  lemma {:induction false} UndefinedIff(c: Settings, steps: seq<Step>)
    requires Legal(c, steps)
    ensures After(c, steps).Undefined? <==> c.freesAgain && exists i :: 0 <= i < |steps| && Fails(c, steps[i].event)
    decreases |steps|
  {
    if steps != [] {
      var before, last := steps[..|steps| - 1], steps[|steps| - 1];
      UndefinedIff(c, before);
      NextUndefinedIff(c, After(c, before), last);
      assert forall i :: 0 <= i < |before| ==> before[i] == steps[i];
    }
  }

  lemma NextUndefinedIff(c: Settings, p: Phase, step: Step)
    requires Enabled(p, step)
    ensures Next(c, p, step).Undefined? <==> c.freesAgain && Fails(c, step.event)
  {
    hide CsvPath, RawPath;
  }

  /** The input: the first start trigger for which no directory can be created frees its path twice. */
  lemma FailedDirectoryFreesTwice(c: Settings, setup: Setup, path: CString, stamp: CString, second: Directory)
    requires c.freesAgain && setup.sensorMatches && setup.directory.Made? && setup.metadataWritten
    ensures var start := Udp(Received(Trigger(START, stamp)), Failed(path), second);
      var steps := [Step(0, Configure(setup)), Step(0, start)];
      Legal(c, steps) && After(c, steps) == Undefined
  {
    hide Legal, OnTime, After, CsvPath, RawPath;
    var configure := Step(0, Configure(setup));
    var start := Step(0, Udp(Received(Trigger(START, stamp)), Failed(path), second));
    var empty: seq<Step> := [];
    AtStart(c);
    Extended(c, empty, configure);
    assert empty + [configure] == [configure];
    Extended(c, [configure], start);
    assert [configure] + [start] == [configure, start];
  }

  // How long a recording can last.

  /**
   * The recording in progress, told from the messages alone: when it was triggered, and when a start
   * trigger last restarted the timer.
   */
  datatype Recording = Idle | Since(started: nat, latest: nat, path: CString)

  function RecordingOf(c: Settings, steps: seq<Step>): Recording {
    if steps == [] then Idle
    else
      var step := steps[|steps| - 1];
      var before := RecordingOf(c, steps[..|steps| - 1]);
      if c.freesAgain && Fails(c, step.event) then Idle
      else match step.event
        case Udp(Received(trigger), _, directory) =>
          if !c.recordRaw || (trigger.command != START && trigger.command != STOP) then before
          else if trigger.command == STOP then Idle
          else if directory.Made? then Since(step.at, step.at, RawPath(directory.path, trigger.timestamp))
          else if before.Since? then before.(latest := step.at)
          else Idle
        case Udp(Ignored, _, _) => before
        case _ => Idle
  }

  /** No event waits past the deadline. */
  predicate OnTime(c: Settings, steps: seq<Step>)
    requires Legal(c, steps)
  {
    steps == [] ||
    var before := steps[..|steps| - 1];
    OnTime(c, before) && (After(c, before).On? ==> steps[|steps| - 1].at <= After(c, before).due)
  }

  /** A start trigger whose recording directory cannot be created. */
  predicate FailedStart(step: Step) {
    && step.event.Udp? && step.event.message.Received? && step.event.message.trigger.command == START
    && step.event.second.Failed?
  }

  predicate Extends(c: Settings, steps: seq<Step>, step: Step) {
    Legal(c, steps + [step]) && OnTime(c, steps + [step])
  }

  /**
   * The phase records exactly when the messages say so, in the file they name, and the deadline counts
   * from the last restart.
   */
  lemma {:induction false} RecordingIsPhase(c: Settings, steps: seq<Step>)
    requires Legal(c, steps)
    ensures RecordingOf(c, steps).Since? <==> After(c, steps).On? && After(c, steps).raw.Path?
    ensures var r := RecordingOf(c, steps);
      r.Since? ==>
        && c.recordRaw && After(c, steps).raw == Path(r.path) && After(c, steps).due == r.latest + c.rawTimeLimit
        && steps != [] && r.started <= r.latest <= steps[|steps| - 1].at
  {
    if steps != [] {
      RecordingIsPhase(c, steps[..|steps| - 1]);
    }
  }

  /** The deadline has not passed when a step is over. */
  lemma {:induction false} DeadlineAhead(c: Settings, steps: seq<Step>)
    requires Legal(c, steps) && OnTime(c, steps) && steps != []
    ensures After(c, steps).On? ==> steps[|steps| - 1].at <= After(c, steps).due
    decreases |steps|
  {
  }

  lemma {:induction false} TimeIsMonotone(c: Settings, steps: seq<Step>, i: nat, j: nat)
    requires Legal(c, steps) && i <= j < |steps|
    ensures steps[i].at <= steps[j].at
    decreases |steps|
  {
    var before := steps[..|steps| - 1];
    if i < j {
      TimeIsMonotone(c, before, i, j - 1);
      if j < |before| {
        TimeIsMonotone(c, before, i, j);
      }
    }
  }

  /** The timer has been restarted later than the recording began exactly if a later start trigger has failed. */
  lemma {:induction false} RestartedIff(c: Settings, steps: seq<Step>)
    requires Legal(c, steps) && RecordingOf(c, steps).Since?
    ensures var r := RecordingOf(c, steps);
      r.latest > r.started <==> exists i :: 0 <= i < |steps| && FailedStart(steps[i]) && steps[i].at > r.started
  {
    var r, n := RecordingOf(c, steps), |steps|;
    RecordingIsPhase(c, steps);
    var before, last := steps[..n - 1], steps[n - 1];
    if r == RecordingOf(c, before) && !FailedStart(last) {
      RestartedIff(c, before);
    } else if last.at <= r.started {
      forall i | 0 <= i < n
        ensures steps[i].at <= r.started
      {
        TimeIsMonotone(c, steps, i, n - 1);
      }
    }
  }

  /** Until the deadline, and no longer, a recording in progress may go on. */
  lemma DeadlineIsReached(c: Settings, steps: seq<Step>)
    requires Legal(c, steps) && OnTime(c, steps) && RecordingOf(c, steps).Since?
    ensures var due := RecordingOf(c, steps).latest + c.rawTimeLimit;
      && (forall step | Extends(c, steps, step) :: step.at <= due)
      && exists step :: Extends(c, steps, step) && step.at == due
  {
    var due, directory: CString := After(c, steps).due, [];
    RecordingIsPhase(c, steps);
    DeadlineAhead(c, steps);
    var end := Step(due, Limit(Made(directory), directory));
    assert (steps + [end])[..|steps|] == steps;
    assert Extends(c, steps, end);
    forall step | Extends(c, steps, step)
      ensures step.at <= due
    {
      assert (steps + [step])[..|steps|] == steps;
    }
  }

  /**
   * As long as the program's state is defined, and with timers on time, no step finds a recording older
   * than the limit. A program that does not free the path again needs every start trigger to succeed.
   */
  lemma {:induction false} NoRecordingOutlivesLimit(c: Settings, steps: seq<Step>, k: nat)
    requires Legal(c, steps) && OnTime(c, steps) && k < |steps|
    requires c.freesAgain || forall step <- steps :: !FailedStart(step)
    ensures var r := RecordingOf(c, steps[..k]); r.Since? ==> steps[k].at <= r.started + c.rawTimeLimit
    decreases |steps|
  {
    var before := steps[..|steps| - 1];
    if k < |steps| - 1 {
      assert before[..k] == steps[..k];
      NoRecordingOutlivesLimit(c, before, k);
    } else if RecordingOf(c, before).Since? {
      RecordingIsPhase(c, before);
      RestartedIff(c, before);
      UndefinedIff(c, before);
      assert forall i :: 0 <= i < |before| ==> before[i] == steps[i] && before[i] in steps;
      assert forall i :: 0 <= i < |before| && FailedStart(before[i]) ==> Fails(c, before[i].event);
    }
  }

  /**
   * Without the second free, the limit would not hold: a recording in progress would be over within
   * the limit of its start trigger if and only if no later start trigger had failed to create its
   * directory, because `record_raw` restarts the timer before it tries.
   */
  lemma RepairedLimitKeptIff(c: Settings, steps: seq<Step>)
    requires !c.freesAgain && Legal(c, steps) && OnTime(c, steps) && RecordingOf(c, steps).Since?
    ensures var started := RecordingOf(c, steps).started;
      (forall step | Extends(c, steps, step) :: step.at <= started + c.rawTimeLimit)
      <==> (forall i | 0 <= i < |steps| :: !(FailedStart(steps[i]) && steps[i].at > started))
  {
    hide Extends, Legal, OnTime, After, RecordingOf;
    RecordingIsPhase(c, steps);
    RestartedIff(c, steps);
    DeadlineIsReached(c, steps);
  }

  /** One more step of a run. */
  lemma Extended(c: Settings, steps: seq<Step>, step: Step)
    requires Legal(c, steps) && OnTime(c, steps)
    requires (steps == [] || steps[|steps| - 1].at <= step.at) && Enabled(After(c, steps), step)
    requires After(c, steps).On? ==> step.at <= After(c, steps).due
    ensures Extends(c, steps, step) && After(c, steps + [step]) == Next(c, After(c, steps), step)
  {
    assert (steps + [step])[..|steps|] == steps;
  }

  /** Without the second free, every start trigger moves the deadline. */
  lemma RepairedStart(c: Settings, p: Phase, at: nat, timestamp: CString, directory: Directory)
    requires !c.freesAgain && c.recordRaw && p.On?
    ensures var q := AfterMessage(c, p, at, Received(Trigger(START, timestamp)), directory, directory);
      q.On? && q.due == at + c.rawTimeLimit
  {
    hide RawPath, CsvPath;
  }

  /**
   * Without the second free, a failed start trigger after 500 of 600 seconds would let a recording
   * last 1100 seconds.
   */
  lemma RepairedFailureProlongsRecording(directory: CString, timestamp: CString)
    ensures var c, made, failed := Settings(true, 600, false), Made(directory), Failed(directory);
      var trigger := Received(Trigger(START, timestamp));
      var steps := [
        Step(0, Configure(Setup(true, made, true, timestamp))),
        Step(0, Udp(trigger, made, made)),
        Step(500, Udp(trigger, failed, failed)),
        Step(1100, Limit(made, timestamp))
      ];
      && Legal(c, steps) && OnTime(c, steps)
      && RecordingOf(c, steps[..3]) == Since(0, 500, RawPath(directory, timestamp)) && steps[3].at == 1100
  {
    hide Legal, OnTime, After, RawPath, CsvPath, Ascii, AfterMessage;
    StartIsNotStop();
    var c, made, failed := Settings(true, 600, false), Made(directory), Failed(directory);
    var trigger := Received(Trigger(START, timestamp));
    var configure := Step(0, Configure(Setup(true, made, true, timestamp)));
    var start := Step(0, Udp(trigger, made, made));
    var failing := Step(500, Udp(trigger, failed, failed));
    var limit := Step(1100, Limit(made, timestamp));
    var empty: seq<Step> := [];
    AtStart(c);
    Extended(c, empty, configure);
    assert empty + [configure] == [configure];
    RepairedStart(c, After(c, [configure]), 0, timestamp, made);
    Extended(c, [configure], start);
    assert [configure] + [start] == [configure, start];
    RepairedStart(c, After(c, [configure, start]), 500, timestamp, failed);
    Extended(c, [configure, start], failing);
    assert [configure, start] + [failing] == [configure, start, failing];
    Extended(c, [configure, start, failing], limit);
    var steps := [configure, start, failing, limit];
    assert [configure, start, failing] + [limit] == steps && steps[..3] == [configure, start, failing];
    assert steps[..3][..2] == [configure, start] && [configure, start][..1] == [configure];
    assert RecordingOf(c, [configure, start]).Since?;
  }

  lemma AtStart(c: Settings)
    ensures Legal(c, []) && OnTime(c, []) && After(c, []) == Off
  {
  }
}
