/** The playback engine: which of decoder, ring, decode thread and output device exist and run,
    under any outcome of opening files and devices. */
module Engine {
  datatype Option<+T> = None | Some(value: T)

  datatype State = Stopped | Playing | Paused

  datatype Format = Format(rate: nat, channels: nat)

  predicate Supported(fmt: Format) {
    fmt.rate > 0 && (fmt.channels == 1 || fmt.channels == 2)
  }

  function Clamp(percent: int): (v: int)
    ensures 0 <= v <= 100
    ensures 0 <= percent <= 100 ==> v == percent
    ensures percent < 0 ==> v == 0
    ensures percent > 100 ==> v == 100
  {
    if percent < 0 then 0 else if percent > 100 then 100 else percent
  }

  /** One output device handle. A started device pulls samples from the ring. */
  datatype Sink = Sink(open: bool, started: bool, fmt: Format, volume: int, device: string)

  /** All device handles ever made, alive or not. */
  class AudioHost {
    var sinks: seq<Sink>

    constructor ()
      ensures sinks == []
    {
      sinks := [];
    }

    method Create() returns (id: nat)
      modifies this
      ensures id == |old(sinks)|
      ensures sinks == old(sinks) + [Sink(false, false, Format(0, 0), 100, "")]
    {
      id := |sinks|;
      sinks := sinks + [Sink(false, false, Format(0, 0), 100, "")];
    }

    /** Opens paused; whether the system lets it is `granted`. */
    method Open(id: nat, fmt: Format, device: string, granted: bool) returns (ok: bool)
      requires id < |sinks|
      modifies this
      ensures ok == (granted && Supported(fmt))
      ensures ok ==> sinks == old(sinks)[id := Sink(true, false, fmt, old(sinks)[id].volume, device)]
      ensures !ok ==> sinks == old(sinks)[id := old(sinks)[id].(open := false, started := false)]
    {
      Close(id);
      ok := granted && Supported(fmt);
      if ok {
        sinks := sinks[id := Sink(true, false, fmt, sinks[id].volume, device)];
      }
    }

    /** On a refusal by the converter the device keeps the new format all the same. */
    method SetSourceFormat(id: nat, fmt: Format, granted: bool) returns (ok: bool)
      requires id < |sinks|
      modifies this
      ensures ok == (old(sinks)[id].open && Supported(fmt) && granted)
      ensures sinks == if old(sinks)[id].open && Supported(fmt) then old(sinks)[id := old(sinks)[id].(fmt := fmt)]
                       else old(sinks)
    {
      if !sinks[id].open || !Supported(fmt) {
        return false;
      }
      sinks := sinks[id := sinks[id].(fmt := fmt)];
      ok := granted;
    }

    /** The ring has one consumer: nothing else may be started. */
    method Start(id: nat)
      requires id < |sinks| && sinks[id].open
      requires forall j | 0 <= j < |sinks| && j != id :: !sinks[j].started
      modifies this
      ensures sinks == old(sinks)[id := old(sinks)[id].(started := true)]
    {
      sinks := sinks[id := sinks[id].(started := true)];
    }

    method Stop(id: nat)
      requires id < |sinks|
      modifies this
      ensures sinks == old(sinks)[id := old(sinks)[id].(started := false)]
    {
      sinks := sinks[id := sinks[id].(started := false)];
    }

    method Close(id: nat)
      requires id < |sinks|
      modifies this
      ensures sinks == old(sinks)[id := old(sinks)[id].(open := false, started := false)]
    {
      sinks := sinks[id := sinks[id].(open := false, started := false)];
    }

    method SetVolume(id: nat, percent: int)
      requires id < |sinks|
      modifies this
      ensures sinks == old(sinks)[id := old(sinks)[id].(volume := Clamp(percent))]
    {
      sinks := sinks[id := sinks[id].(volume := Clamp(percent))];
    }
  }

  /** The decode thread object: made at load, joinable from its start until it is joined. It may
      have come to the end of its loop meanwhile. */
  datatype Thread = Created | Joinable

  /** What the world answers while a file is loaded. */
  datatype LoadAnswers = LoadAnswers(
    recognised: bool, opens: bool, fmt: Format, totalSamples: nat,
    formatAccepted: bool, sinkMade: bool, deviceOpens: bool, defaultOpens: bool)

  /** The open device can simply be pointed at the new format. */
  predicate Reusable(sink: Option<nat>, w: LoadAnswers) {
    sink.Some? && Supported(w.fmt) && w.formatAccepted
  }

  /** Some device can be opened: the chosen one, or the default when one was chosen. */
  predicate CanOpen(w: LoadAnswers, device: string) {
    w.sinkMade && Supported(w.fmt) && (w.deviceOpens || (device != "" && w.defaultOpens))
  }

  function DeviceOpened(w: LoadAnswers, device: string): string {
    if w.deviceOpens then device else ""
  }

  /** What the world answers while a device is chosen. */
  datatype DeviceAnswers = DeviceAnswers(sinkMade: bool, deviceOpens: bool)

  class PlaybackEngine {
    const host: AudioHost
    var decoder: Option<Format>
    var sink: Option<nat>
    var hasRing: bool
    var ringEmpty: bool
    var thread: Option<Thread>
    var state: State
    var currentFile: string
    var fmt: Format
    var totalSamples: nat
    var outputDevice: string
    var volume: int

    /** Of all devices ever made only the engine's is open, and it runs exactly when playing. */
    ghost predicate OneDevice()
      reads this, host
    {
      && (sink.Some? ==> sink.value < |host.sinks| && host.sinks[sink.value].open)
      && (forall j | 0 <= j < |host.sinks| :: host.sinks[j].open ==> sink == Some(j))
      && (forall j | 0 <= j < |host.sinks| :: host.sinks[j].started <==> sink == Some(j) && state == Playing)
    }

    /** The open device is set to the engine's format, volume and device name. */
    ghost predicate DeviceMatches()
      reads this, host
    {
      sink.Some? && sink.value < |host.sinks| ==>
        var s := host.sinks[sink.value];
        s.fmt == fmt && Supported(fmt) && s.volume == volume && s.device == outputDevice
    }

    ghost predicate Valid()
      reads this, host
    {
      && OneDevice() && DeviceMatches()
      && 0 <= volume <= 100
      && (decoder.Some? <==> thread.Some?)
      && (decoder.Some? ==> hasRing && sink.Some? && decoder.value == fmt)
      && (state != Stopped <==> thread == Some(Joinable))
      && (decoder.Some? && state == Stopped ==> ringEmpty)
    }

    constructor (host: AudioHost)
      requires host.sinks == []
      ensures Valid() && this.host == host
      ensures state == Stopped && decoder.None? && sink.None? && outputDevice == "" && currentFile == ""
    {
      this.host := host;
      decoder, sink, thread := None, None, None;
      hasRing, ringEmpty := false, true;
      state, currentFile := Stopped, "";
      fmt, totalSamples := Format(0, 0), 0;
      outputDevice, volume := "", 100;
    }

    /** Emptying the ring is only safe while no thread uses it. */
    method ClearRing()
      requires hasRing && thread != Some(Joinable)
      requires forall j | 0 <= j < |host.sinks| :: !host.sinks[j].started
      modifies this`ringEmpty
      ensures ringEmpty
    {
      ringEmpty := true;
    }

    method StopPlayback()
      requires Valid()
      modifies this, host
      ensures Valid()
      ensures state == Stopped && decoder.None? && currentFile == ""
      ensures sink == old(sink) && fmt == old(fmt) && outputDevice == old(outputDevice)
      ensures volume == old(volume) && hasRing == old(hasRing) && (hasRing ==> ringEmpty) && totalSamples == 0
      ensures |host.sinks| == |old(host.sinks)|
    {
      if sink.Some? {
        host.Stop(sink.value);
      }
      thread := None;
      decoder := None;
      if hasRing {
        ClearRing();
      }
      state := Stopped;
      currentFile := "";
      totalSamples := 0;
    }

    /** Dropping the engine's device handle closes it. */
    method DropSink()
      requires sink.Some? ==> sink.value < |host.sinks|
      modifies this`sink, host
      ensures sink.None? && |host.sinks| == |old(host.sinks)|
      ensures host.sinks == if old(sink).None? then old(host.sinks)
        else old(host.sinks)[old(sink).value := old(host.sinks)[old(sink).value].(open := false, started := false)]
    {
      if sink.Some? {
        host.Close(sink.value);
        sink := None;
      }
    }

    /** A new device in place of the old: the chosen one, else the system default. */
    method OpenSink(w: LoadAnswers) returns (ok: bool)
      requires OneDevice() && state == Stopped
      modifies this`sink, this`outputDevice, host
      ensures ok ==> OneDevice() && sink.Some? && Supported(w.fmt)
      ensures ok ==> host.sinks[sink.value].fmt == w.fmt && host.sinks[sink.value].device == outputDevice
      ensures ok == CanOpen(w, old(outputDevice))
      ensures outputDevice == if ok then DeviceOpened(w, old(outputDevice)) else old(outputDevice)
      ensures !ok ==> forall j | 0 <= j < |host.sinks| :: !host.sinks[j].open && !host.sinks[j].started
      ensures !ok && sink.Some? ==> sink.value < |host.sinks|
    {
      DropSink();
      if !w.sinkMade {
        return false;
      }
      var id := host.Create();
      sink := Some(id);
      ok := host.Open(id, w.fmt, outputDevice, w.deviceOpens);
      if ok {
        return;
      }
      if outputDevice == "" {
        return false;
      }
      ok := host.Open(id, w.fmt, "", w.defaultOpens);
      if ok {
        outputDevice := "";
      }
    }

    /** Re-points the open device if it can, else opens a new one. */
    method PrepareSink(w: LoadAnswers) returns (ok: bool)
      requires OneDevice() && state == Stopped
      modifies this`sink, this`outputDevice, host
      ensures OneDevice()
      ensures ok == (Reusable(old(sink), w) || CanOpen(w, old(outputDevice)))
      ensures !ok ==> sink.None? && outputDevice == old(outputDevice)
      ensures ok ==> sink.Some? && sink.value < |host.sinks|
      ensures ok ==> host.sinks[sink.value].fmt == w.fmt && Supported(w.fmt)
      ensures Reusable(old(sink), w) ==> sink == old(sink) && outputDevice == old(outputDevice)
      ensures Reusable(old(sink), w) ==>
        host.sinks == old(host.sinks)[sink.value := old(host.sinks)[sink.value].(fmt := w.fmt)]
      ensures ok && !Reusable(old(sink), w) ==> outputDevice == DeviceOpened(w, old(outputDevice))
      ensures ok && !Reusable(old(sink), w) ==> host.sinks[sink.value].device == outputDevice
    {
      if sink.Some? {
        ok := host.SetSourceFormat(sink.value, w.fmt, w.formatAccepted);
        if ok {
          return;
        }
      }
      ok := OpenSink(w);
      if !ok {
        DropSink();
      }
    }

    /** Makes a file ready to play. The device stays open across files. */
    method Load(file: string, w: LoadAnswers) returns (ok: bool)
      requires Valid()
      modifies this, host
      ensures Valid() && state == Stopped && volume == old(volume)
      ensures ok == (w.recognised && w.opens && (Reusable(old(sink), w) || CanOpen(w, old(outputDevice))))
      ensures ok ==> decoder == Some(w.fmt) && currentFile == file && totalSamples == w.totalSamples && ringEmpty
      ensures !ok ==> decoder.None?
      ensures !(w.recognised && w.opens) ==>
        sink == old(sink) && fmt == old(fmt) && outputDevice == old(outputDevice) && currentFile == ""
      ensures ok && Reusable(old(sink), w) ==>
        sink == old(sink) && outputDevice == old(outputDevice) && |host.sinks| == |old(host.sinks)|
      ensures ok && !Reusable(old(sink), w) ==> outputDevice == DeviceOpened(w, old(outputDevice))
      ensures !ok && w.recognised && w.opens ==> sink.None? && outputDevice == old(outputDevice) && currentFile == file
    {
      StopPlayback();
      if !w.recognised || !w.opens {
        return false;
      }
      ok := LoadOpened(file, w);
    }

    /** A device for the engine's format, at the engine's volume. */
    method FitSink(w: LoadAnswers) returns (ok: bool)
      requires OneDevice() && state == Stopped && fmt == w.fmt
      requires sink.Some? ==> host.sinks[sink.value].device == outputDevice
      requires 0 <= volume <= 100
      modifies this`sink, this`outputDevice, host
      ensures OneDevice() && DeviceMatches()
      ensures ok == (Reusable(old(sink), w) || CanOpen(w, old(outputDevice)))
      ensures ok <==> sink.Some?
      ensures !ok ==> outputDevice == old(outputDevice)
      ensures Reusable(old(sink), w) ==>
        sink == old(sink) && outputDevice == old(outputDevice) && |host.sinks| == |old(host.sinks)|
      ensures ok && !Reusable(old(sink), w) ==> outputDevice == DeviceOpened(w, old(outputDevice))
    {
      ok := PrepareSink(w);
      if ok {
        host.SetVolume(sink.value, volume);
      }
    }

    /** The new source: its decoder, format and length, an empty ring, a thread to start. */
    method TakeSource(file: string, w: LoadAnswers)
      requires thread.None? && (forall j | 0 <= j < |host.sinks| :: !host.sinks[j].started)
      modifies `decoder, `currentFile, `fmt, `totalSamples, `hasRing, `ringEmpty, `thread
      ensures decoder == Some(w.fmt) && currentFile == file && fmt == w.fmt && totalSamples == w.totalSamples
      ensures hasRing && ringEmpty && thread == Some(Created)
    {
      decoder := Some(w.fmt);
      currentFile := file;
      fmt := w.fmt;
      totalSamples := w.totalSamples;
      hasRing := true;
      ClearRing();
      thread := Some(Created);
    }

    /** The rest of a load, once the decoder is open. */
    method LoadOpened(file: string, w: LoadAnswers) returns (ok: bool)
      requires Valid() && state == Stopped && decoder.None?
      modifies this, host
      ensures Valid() && state == Stopped && volume == old(volume)
      ensures ok == (Reusable(old(sink), w) || CanOpen(w, old(outputDevice)))
      ensures ok ==> decoder == Some(w.fmt) && currentFile == file && totalSamples == w.totalSamples && ringEmpty
      ensures !ok ==> decoder.None? && sink.None? && outputDevice == old(outputDevice) && currentFile == file
      ensures Reusable(old(sink), w) ==>
        sink == old(sink) && outputDevice == old(outputDevice) && |host.sinks| == |old(host.sinks)|
      ensures ok && !Reusable(old(sink), w) ==> outputDevice == DeviceOpened(w, old(outputDevice))
    {
      TakeSource(file, w);
      ok := FitSink(w);
      if !ok {
        decoder := None;
        thread := None;
        return;
      }
      state := Stopped;
    }

    /** Starts the decode thread on an empty ring, waits for the prefill, starts the device. */
    method StartPlayback() returns (ok: bool)
      requires Valid() && state == Stopped
      modifies this`ringEmpty, this`thread, host
      ensures ok == old(decoder.Some?)
      ensures !ok ==> unchanged(this) && unchanged(host)
      ensures ok ==> thread == Some(Joinable) && sink.Some? && sink.value < |old(host.sinks)|
      ensures ok ==> host.sinks == old(host.sinks)[sink.value := old(host.sinks)[sink.value].(started := true)]
    {
      if decoder.None? || !hasRing || thread.None? || sink.None? {
        return false;
      }
      thread := Some(Joinable);
      ringEmpty := false;
      host.Start(sink.value);
      ok := true;
    }

    method Play()
      requires Valid()
      modifies this`state, this`ringEmpty, this`thread, host
      ensures Valid()
      ensures state == if old(decoder).None? || old(sink).None? then old(state) else Playing
      ensures |host.sinks| == |old(host.sinks)|
    {
      if state == Playing {
        return;
      }
      if decoder.None? || sink.None? {
        return;
      }
      if state == Stopped {
        var ok := StartPlayback();
        if !ok {
          return;
        }
      } else {
        host.Start(sink.value);
      }
      state := Playing;
    }

    method Pause()
      requires Valid()
      modifies this`state, host
      ensures Valid()
      ensures state == if old(state) == Playing then Paused else old(state)
      ensures |host.sinks| == |old(host.sinks)|
    {
      if state != Playing {
        return;
      }
      if sink.Some? {
        host.Stop(sink.value);
      }
      state := Paused;
    }

    method SetVolume(percent: int)
      requires Valid()
      modifies this`volume, host
      ensures Valid() && volume == Clamp(percent)
      ensures |host.sinks| == |old(host.sinks)|
    {
      volume := Clamp(percent);
      if sink.Some? {
        host.SetVolume(sink.value, percent);
      }
    }

    /** Probes a device without keeping it open. */
    method Probe(device: string, w: DeviceAnswers) returns (usable: bool)
      requires OneDevice() && sink.None?
      modifies host
      ensures OneDevice()
      ensures usable == (w.sinkMade && w.deviceOpens && fmt.channels <= 2)
    {
      if !w.sinkMade {
        return false;
      }
      var id := host.Create();
      var probe := Format(if fmt.rate > 0 then fmt.rate else 44100, if fmt.channels > 0 then fmt.channels else 2);
      usable := host.Open(id, probe, device, w.deviceOpens);
      host.Close(id);
    }

    /** Opens the new device before giving up the old one. */
    method SwapSink(device: string, w: DeviceAnswers) returns (ok: bool)
      requires Valid() && sink.Some?
      modifies this`sink, this`outputDevice, host
      ensures Valid()
      ensures ok == (w.sinkMade && w.deviceOpens)
      ensures ok ==> outputDevice == device && sink.Some?
      ensures !ok ==> sink == old(sink) && outputDevice == old(outputDevice)
      ensures !ok ==> forall j | 0 <= j < |old(host.sinks)| :: j < |host.sinks| && host.sinks[j] == old(host.sinks)[j]
    {
      if !w.sinkMade {
        return false;
      }
      var id := host.Create();
      ok := host.Open(id, fmt, device, w.deviceOpens);
      if !ok {
        return;
      }
      host.SetVolume(id, volume);
      var wasPlaying := state == Playing;
      host.Stop(sink.value);
      host.Close(sink.value);
      sink := Some(id);
      if wasPlaying {
        host.Start(id);
      }
      outputDevice := device;
    }

    /** Chooses the output device. A device that cannot be opened changes nothing. */
    method SetOutputDevice(device: string, w: DeviceAnswers) returns (ok: bool)
      requires Valid()
      modifies this`sink, this`outputDevice, host
      ensures Valid()
      ensures ok ==> outputDevice == device && (sink.Some? <==> old(sink).Some?)
      ensures !ok ==> sink == old(sink) && outputDevice == old(outputDevice)
      ensures !ok && sink.Some? ==> host.sinks[sink.value] == old(host.sinks[sink.value])
      ensures ok == (device == old(outputDevice)
                     || (w.sinkMade && w.deviceOpens && (old(sink).Some? || fmt.channels <= 2)))
    {
      if device == outputDevice {
        return true;
      }
      if sink.None? {
        ok := Probe(device, w);
        if ok {
          outputDevice := device;
        }
        return;
      }
      ok := SwapSink(device, w);
    }
  }

  /** A call on the engine, with what the world answers. */
  datatype Command =
    | DoLoad(file: string, answers: LoadAnswers)
    | DoPlay
    | DoPause
    | DoStop
    | DoSetVolume(percent: int)
    | DoSetOutputDevice(device: string, choice: DeviceAnswers)

  /** Whatever is called and whatever fails: the engine is not stopped only with decoder, ring, a
      decode thread that was started, and open device; the device runs exactly when playing; no other
      device is open; and the device follows the engine's format, volume and device name. */
  method RunCommands(engine: PlaybackEngine, commands: seq<Command>)
    requires engine.Valid()
    modifies engine, engine.host
    ensures engine.Valid()
    ensures engine.state != Stopped ==>
      && engine.decoder.Some? && engine.hasRing && engine.thread == Some(Joinable)
      && engine.sink.Some? && engine.host.sinks[engine.sink.value].open
    ensures forall j | 0 <= j < |engine.host.sinks| ::
      && (engine.host.sinks[j].started <==> engine.sink == Some(j) && engine.state == Playing)
      && (engine.host.sinks[j].open <==> engine.sink == Some(j))
    ensures engine.sink.Some? ==>
      var s := engine.host.sinks[engine.sink.value];
      s.fmt == engine.fmt && s.fmt.channels > 0 && s.volume == engine.volume && s.device == engine.outputDevice
  {
    for i := 0 to |commands|
      invariant engine.Valid()
    {
      match commands[i]
      case DoLoad(file, answers) =>
        var _ := engine.Load(file, answers);
      case DoPlay => engine.Play();
      case DoPause => engine.Pause();
      case DoStop => engine.StopPlayback();
      case DoSetVolume(percent) => engine.SetVolume(percent);
      case DoSetOutputDevice(device, choice) =>
        var _ := engine.SetOutputDevice(device, choice);
    }
  }
}
