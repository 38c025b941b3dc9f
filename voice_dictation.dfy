/** The push-to-talk `DictationController`: holding the hotkey records,
    releasing it stops. The controller starts and pauses the microphone
    stream of the local audio transport once that stream is ready. The
    keyboard listener and the PyAudio stream are abstract: a stream is an
    object with an `active` flag. */
module VoiceDictation {

  /** The keys the controller can tell apart; `Other` is any other key. */
  datatype Key = CtrlR | CtrlL | AltR | AltL | ShiftR | ShiftL | Other(name: string)

  /** The hotkey names the controller accepts. */
  const HOTKEY_MAP: map<string, Key> := map[
    "ctrl_r" := CtrlR, "ctrl_l" := CtrlL,
    "alt_r" := AltR, "alt_l" := AltL,
    "shift_r" := ShiftR, "shift_l" := ShiftL]

  const DEFAULT_HOTKEY_NAME: string := "ctrl_r"

  /** `hotkey_map.get(hotkey_name, Key.ctrl_r)` */
  function HotkeyFor(name: string): (k: Key)
    ensures name in HOTKEY_MAP ==> k == HOTKEY_MAP[name]
    ensures name !in HOTKEY_MAP ==> k == CtrlR
  {
    if name in HOTKEY_MAP then HOTKEY_MAP[name] else CtrlR
  }

  /** The hotkey is always one of the six modifier keys, and the six names
      pick six different keys. */
  lemma HotkeyIsModifier(name: string, other: string)
    ensures !HotkeyFor(name).Other?
    ensures name in HOTKEY_MAP && other in HOTKEY_MAP && name != other ==>
      HotkeyFor(name) != HotkeyFor(other)
    ensures HotkeyFor(DEFAULT_HOTKEY_NAME) == CtrlR
  {
  }

  /** A PyAudio input stream, reduced to whether it is capturing. */
  class AudioStream {
    var active: bool

    constructor (active: bool)
      ensures this.active == active
    {
      this.active := active;
    }
  }

  /** A local audio transport; `inStream` is null when the transport has no
      input transport or the input transport has no stream yet. The stream
      may be created or replaced later, so it is looked up on every call. */
  class LocalAudioTransport {
    var inStream: AudioStream?

    constructor (inStream: AudioStream?)
      ensures this.inStream == inStream
    {
      this.inStream := inStream;
    }
  }

  /** The keyboard listener field: never created, started, or stopped (the
      field keeps the stopped listener). */
  datatype ListenerState = NoListener | Listening | Stopped

  class DictationController {
    const hotkeyName: string
    const hotkey: Key
    var isRecording: bool
    var listener: ListenerState
    var transport: LocalAudioTransport?
    var streamReady: bool

    /** Not recording, no listener, stream not ready, and the hotkey looked
        up by name. */
    constructor (hotkeyName: string, transport: LocalAudioTransport?)
      ensures this.hotkeyName == hotkeyName && hotkey == HotkeyFor(hotkeyName)
      ensures !isRecording && listener == NoListener && !streamReady && this.transport == transport
    {
      this.hotkeyName := hotkeyName;
      isRecording := false;
      listener := NoListener;
      this.transport := transport;
      streamReady := false;
      hotkey := HotkeyFor(hotkeyName);
    }

    /** `_get_audio_stream`: nothing until a transport is set and the
        stream is marked ready; then the transport's input stream, if any. */
    function AudioStreamOf(): (s: AudioStream?)
      reads this, transport
      ensures s != null <==> transport != null && streamReady && transport.inStream != null
      ensures s != null ==> s == transport.inStream
    {
      if transport == null || !streamReady then null else transport.inStream
    }

    /** The stream the controller may start or pause, whether reachable now
        or not. */
    ghost function Streams(): set<object>
      reads this, transport
    {
      if transport != null && transport.inStream != null then {transport.inStream} else {}
    }

    /** Once ready, the microphone captures only while recording. */
    ghost predicate CapturesOnlyWhileRecording()
      reads this, transport, Streams()
    {
      AudioStreamOf() != null && AudioStreamOf().active ==> isRecording
    }

    method SetTransport(t: LocalAudioTransport?)
      modifies this
      ensures transport == t
      ensures isRecording == old(isRecording) && streamReady == old(streamReady)
      ensures listener == old(listener)
    {
      transport := t;
    }

    /** `_start_stream`: start a reachable stream that is inactive;
        `started` tells whether `start_stream` was called. */
    method StartStream() returns (started: bool)
      modifies Streams()
      ensures started <==> old(AudioStreamOf()) != null && !old(AudioStreamOf().active)
      ensures AudioStreamOf() != null ==> AudioStreamOf().active
      ensures AudioStreamOf() == null ==> unchanged(Streams())
    {
      var stream := AudioStreamOf();
      started := false;
      if stream != null && !stream.active {
        stream.active := true;
        started := true;
      }
    }

    /** `_pause_stream`: stop a reachable stream that is active; `paused`
        tells whether `stop_stream` was called. */
    method PauseStream() returns (paused: bool)
      modifies Streams()
      ensures paused <==> old(AudioStreamOf()) != null && old(AudioStreamOf().active)
      ensures AudioStreamOf() != null ==> !AudioStreamOf().active
      ensures AudioStreamOf() == null ==> unchanged(Streams())
    {
      var stream := AudioStreamOf();
      paused := false;
      if stream != null && stream.active {
        stream.active := false;
        paused := true;
      }
    }

    /** `mark_stream_ready`: the stream becomes reachable and is left
        paused, which makes capture depend on the hotkey from now on. */
    method MarkStreamReady()
      modifies this, Streams()
      ensures streamReady && transport == old(transport)
      ensures isRecording == old(isRecording) && listener == old(listener)
      ensures transport != null && transport.inStream != null ==> !transport.inStream.active
      ensures CapturesOnlyWhileRecording()
    {
      streamReady := true;
      var _ := PauseStream();
    }

    /** `on_press`: the hotkey, pressed while not recording, starts
        recording and the stream; a repeated press or any other key changes
        nothing. */
    method OnPress(key: Key)
      modifies this, Streams()
      ensures transport == old(transport) && streamReady == old(streamReady)
      ensures listener == old(listener)
      ensures key == hotkey && !old(isRecording) ==>
        isRecording && (AudioStreamOf() != null ==> AudioStreamOf().active)
      ensures key == hotkey && !old(isRecording) && AudioStreamOf() == null ==> unchanged(Streams())
      ensures !(key == hotkey && !old(isRecording)) ==>
        isRecording == old(isRecording) && unchanged(Streams())
      ensures old(CapturesOnlyWhileRecording()) ==> CapturesOnlyWhileRecording()
    {
      if key == hotkey && !isRecording {
        isRecording := true;
        var _ := StartStream();
      }
    }

    /** `on_release`: the hotkey, released while recording, stops
        recording and pauses the stream; any other release changes
        nothing. */
    method OnRelease(key: Key)
      modifies this, Streams()
      ensures transport == old(transport) && streamReady == old(streamReady)
      ensures listener == old(listener)
      ensures key == hotkey && old(isRecording) ==>
        !isRecording && (AudioStreamOf() != null ==> !AudioStreamOf().active)
      ensures key == hotkey && old(isRecording) && AudioStreamOf() == null ==> unchanged(Streams())
      ensures !(key == hotkey && old(isRecording)) ==>
        isRecording == old(isRecording) && unchanged(Streams())
      ensures old(CapturesOnlyWhileRecording()) ==> CapturesOnlyWhileRecording()
    {
      if key == hotkey && isRecording {
        isRecording := false;
        var _ := PauseStream();
      }
    }

    /** `start_listening`: a new listener is created and started, replacing
        any earlier one; nothing else changes. */
    method StartListening()
      modifies this
      ensures listener == Listening
      ensures isRecording == old(isRecording) && streamReady == old(streamReady)
      ensures transport == old(transport)
    {
      listener := Listening;
    }

    /** `stop_listening`: a listener that was created is stopped; without
        one nothing happens. Recording and the stream are left as they are. */
    method StopListening()
      modifies this
      ensures listener == (if old(listener) == NoListener then NoListener else Stopped)
      ensures isRecording == old(isRecording) && streamReady == old(streamReady)
      ensures transport == old(transport)
    {
      if listener != NoListener {
        listener := Stopped;
      }
    }
  }
}
