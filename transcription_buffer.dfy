/** The dictation buffer: transcript fragments accumulate until the client
    sends a `stop-recording` message, which releases one consolidated
    transcription (processors/transcription_buffer.py). */
module TranscriptionBuffer {
  import opened Common
  import opened Frames

  const STOP_RECORDING := "stop-recording"

  /** The client's "stop-recording" message. */
  predicate IsStopRecording(f: Frame)
  {
    f.ClientMessageFrame? && f.msgType == STOP_RECORDING
  }

  /** The processor's fields `_buffer`, `_last_user_id`, `_last_language`. */
  datatype BufferState = BufferState(buffer: string, lastUserId: string, lastLanguage: Option<string>)

  const INITIAL := BufferState("", "user", None)

  /** The state after a call and the frames it pushed, in order. */
  datatype Outcome = Outcome(state: BufferState, pushed: seq<Push>)

  /** One call of `process_frame`: the state after it and what it pushes, in
      order. `now` is the clock reading used as the consolidated frame's
      timestamp. */
  function Step(s: BufferState, frame: Frame, direction: Direction, now: string): Outcome
  {
    if frame.TranscriptionFrame? then
      if frame.text != [] then Outcome(BufferState(s.buffer + frame.text, frame.userId, frame.language), [])
      else Outcome(s, [])
    else if IsStopRecording(frame) then
      if !IsBlank(s.buffer) then
        Outcome(s.(buffer := []), [Push(TranscriptionFrame(Strip(s.buffer), s.lastUserId, now, s.lastLanguage), direction)])
      else Outcome(s, [])
    else Outcome(s, [Push(frame, direction)])
  }

  /** What one call pushes and how it changes the state. */
  lemma StepSpec(s: BufferState, frame: Frame, direction: Direction, now: string)
    // at most one frame leaves per call
    ensures |Step(s, frame, direction, now).pushed| <= 1
    // the input is forwarded exactly when it is neither a transcription nor the stop message
    ensures Push(frame, direction) in Step(s, frame, direction, now).pushed
      <==> !frame.TranscriptionFrame? && !IsStopRecording(frame)
    // anything else pushed is the consolidated transcription of the whole buffer
    ensures forall p :: p in Step(s, frame, direction, now).pushed && p != Push(frame, direction) ==>
              && IsStopRecording(frame) && p.direction == direction
              && p.frame == TranscriptionFrame(Strip(s.buffer), s.lastUserId, now, s.lastLanguage)
              && p.frame.text != [] && NoEdgeSpace(p.frame.text)
    // a stop message releases something exactly when the buffer holds more than whitespace
    ensures IsStopRecording(frame) ==> (Step(s, frame, direction, now).pushed != [] <==> !IsBlank(s.buffer))
    // transcriptions only grow the buffer; only a successful flush empties it
    ensures frame.TranscriptionFrame? ==> Step(s, frame, direction, now).state.buffer == s.buffer + frame.text
    // a transcription with text records its speaker and language; an empty one changes nothing
    ensures frame.TranscriptionFrame? ==>
      (Step(s, frame, direction, now).state
       == if frame.text != [] then BufferState(s.buffer + frame.text, frame.userId, frame.language) else s)
    ensures IsStopRecording(frame) ==>
      (Step(s, frame, direction, now).state.buffer
       == if Step(s, frame, direction, now).pushed == [] then s.buffer else [])
    ensures !frame.TranscriptionFrame? ==>
      && Step(s, frame, direction, now).state.lastUserId == s.lastUserId
      && Step(s, frame, direction, now).state.lastLanguage == s.lastLanguage
    ensures !frame.TranscriptionFrame? && !IsStopRecording(frame) ==> Step(s, frame, direction, now).state == s
  {
    if frame.TranscriptionFrame? {
      assert !IsStopRecording(frame);
      if frame.text != [] {
        assert Step(s, frame, direction, now)
          == Outcome(BufferState(s.buffer + frame.text, frame.userId, frame.language), []);
      } else {
        assert Step(s, frame, direction, now) == Outcome(s, []);
      }
    } else if IsStopRecording(frame) && !IsBlank(s.buffer) {
      var t := Strip(s.buffer);
      assert StrippedAt(s.buffer, StripStart(s.buffer), t);
      assert Step(s, frame, direction, now).pushed
        == [Push(TranscriptionFrame(t, s.lastUserId, now, s.lastLanguage), direction)];
    } else if !IsStopRecording(frame) {
      assert Step(s, frame, direction, now) == Outcome(s, [Push(frame, direction)]);
    }
  }

  /** Feeding frames one after another, all in one direction and at one clock
      reading: the final state and everything pushed, in order. */
  function Run(s: BufferState, frames: seq<Frame>, direction: Direction, now: string): Outcome
    decreases |frames|
  {
    if frames == [] then Outcome(s, [])
    else
      var first := Step(s, frames[0], direction, now);
      var rest := Run(first.state, frames[1..], direction, now);
      Outcome(rest.state, first.pushed + rest.pushed)
  }

  /** The texts of a sequence of frames, joined without a separator. */
  function Texts(frames: seq<Frame>): string
    requires forall i :: 0 <= i < |frames| ==> frames[i].TranscriptionFrame?
  {
    if frames == [] then [] else frames[0].text + Texts(frames[1..])
  }

  /** Transcriptions push nothing and append their texts to the buffer. */
  lemma {:induction false} TranscriptionsAccumulate(s: BufferState, ts: seq<Frame>, direction: Direction, now: string)
    requires forall i :: 0 <= i < |ts| ==> ts[i].TranscriptionFrame?
    ensures Run(s, ts, direction, now).pushed == []
    ensures Run(s, ts, direction, now).state.buffer == s.buffer + Texts(ts)
    decreases |ts|
  {
    if ts != [] {
      var first := Step(s, ts[0], direction, now);
      StepSpec(s, ts[0], direction, now);
      assert first.pushed == [];
      TranscriptionsAccumulate(first.state, ts[1..], direction, now);
      var rest := Run(first.state, ts[1..], direction, now);
      assert Run(s, ts, direction, now) == Outcome(rest.state, first.pushed + rest.pushed);
      assert s.buffer + Texts(ts) == (s.buffer + ts[0].text) + Texts(ts[1..]);
    }
  }

  /** Fragment `i` is the last one with non-empty text. */
  predicate LastSpoken(ts: seq<Frame>, i: int)
    requires forall k :: 0 <= k < |ts| ==> ts[k].TranscriptionFrame?
  {
    0 <= i < |ts| && ts[i].text != [] && forall j :: i < j < |ts| ==> ts[j].text == []
  }

  /** After a run of transcriptions, the speaker and language are those of
      the last fragment with text, or the old ones when every text is
      empty. */
  lemma {:induction false} TranscriptionsMetadata(s: BufferState, ts: seq<Frame>, direction: Direction, now: string)
    requires forall i :: 0 <= i < |ts| ==> ts[i].TranscriptionFrame?
    ensures var st := Run(s, ts, direction, now).state;
      && ((forall i :: 0 <= i < |ts| ==> ts[i].text == []) ==> st.lastUserId == s.lastUserId && st.lastLanguage == s.lastLanguage)
      && (forall i :: LastSpoken(ts, i) ==> st.lastUserId == ts[i].userId && st.lastLanguage == ts[i].language)
    decreases |ts|
  {
    if ts != [] {
      var rest := ts[1..];
      var first := Step(s, ts[0], direction, now);
      StepSpec(s, ts[0], direction, now);
      TranscriptionsMetadata(first.state, rest, direction, now);
      assert forall j :: 0 <= j < |rest| ==> rest[j] == ts[j + 1];
      forall i | LastSpoken(ts, i)
        ensures Run(s, ts, direction, now).state.lastUserId == ts[i].userId
        ensures Run(s, ts, direction, now).state.lastLanguage == ts[i].language
      {
        if i > 0 { assert LastSpoken(rest, i - 1); }
      }
    }
  }

  /** Some fragment with text has a last one. */
  lemma {:induction false} HasLastSpoken(ts: seq<Frame>, k: nat)
    requires forall i :: 0 <= i < |ts| ==> ts[i].TranscriptionFrame?
    requires k < |ts| && ts[k].text != []
    ensures exists i :: LastSpoken(ts, i)
    decreases |ts|
  {
    var rest := ts[1..];
    assert forall j :: 0 <= j < |rest| ==> rest[j] == ts[j + 1];
    if j :| 0 <= j < |rest| && rest[j].text != [] {
      HasLastSpoken(rest, j);
      var i :| LastSpoken(rest, i);
      assert LastSpoken(ts, i + 1);
    } else {
      assert LastSpoken(ts, 0);
    }
  }

  /** Fragments without text join to nothing. */
  lemma {:induction false} EmptyTexts(ts: seq<Frame>)
    requires forall i :: 0 <= i < |ts| ==> ts[i].TranscriptionFrame? && ts[i].text == []
    ensures Texts(ts) == []
    decreases |ts|
  {
    if ts != [] {
      EmptyTexts(ts[1..]);
    }
  }

  /** Running two batches is running their concatenation. */
  lemma {:induction false} RunAppend(s: BufferState, a: seq<Frame>, b: seq<Frame>, direction: Direction, now: string)
    ensures Run(s, a + b, direction, now).state == Run(Run(s, a, direction, now).state, b, direction, now).state
    ensures Run(s, a + b, direction, now).pushed
         == Run(s, a, direction, now).pushed + Run(Run(s, a, direction, now).state, b, direction, now).pushed
    decreases |a|
  {
    if a == [] {
      assert a + b == b;
    } else {
      assert (a + b)[1..] == a[1..] + b;
      var first := Step(s, a[0], direction, now);
      RunAppend(first.state, a[1..], b, direction, now);
      var mid := Run(first.state, a[1..], direction, now);
      var last := Run(mid.state, b, direction, now);
      assert first.pushed + (mid.pushed + last.pushed) == (first.pushed + mid.pushed) + last.pushed;
    }
  }

  /** A session from the initial state: transcriptions arrive, then the stop
      message. Exactly one frame comes out, carrying the stripped
      concatenation of all the texts and the speaker and language of the
      last fragment with text, when the texts hold more than whitespace;
      otherwise nothing comes out. Neither the fragments nor the stop message
      are ever forwarded. */
  lemma SessionFlushesOnce(ts: seq<Frame>, stop: Frame, direction: Direction, now: string)
    requires forall i :: 0 <= i < |ts| ==> ts[i].TranscriptionFrame?
    requires IsStopRecording(stop)
    ensures var out := Run(INITIAL, ts + [stop], direction, now).pushed;
      && (!IsBlank(Texts(ts)) ==> |out| == 1 && out[0].frame.TranscriptionFrame?
                                   && out[0].frame.text == Strip(Texts(ts)) && out[0].direction == direction
                                   && (exists i :: LastSpoken(ts, i)
                                        && out[0].frame.userId == ts[i].userId && out[0].frame.language == ts[i].language))
      && (IsBlank(Texts(ts)) ==> out == [])
  {
    RunAppend(INITIAL, ts, [stop], direction, now);
    TranscriptionsAccumulate(INITIAL, ts, direction, now);
    var s1 := Run(INITIAL, ts, direction, now).state;
    assert s1.buffer == Texts(ts);
    var last := Step(s1, stop, direction, now);
    assert Run(s1, [stop], direction, now).pushed == last.pushed + [];
    assert last.pushed + [] == last.pushed;
    StepSpec(s1, stop, direction, now);
    TranscriptionsMetadata(INITIAL, ts, direction, now);
    if !IsBlank(Texts(ts)) {
      if forall i :: 0 <= i < |ts| ==> ts[i].text == [] {
        EmptyTexts(ts);
      } else {
        var k :| 0 <= k < |ts| && ts[k].text != [];
        HasLastSpoken(ts, k);
      }
    }
  }

  /** `TranscriptionBufferProcessor`, whose `process_frame` updates its fields
      in place. */
  class TranscriptionBufferProcessor {
    var buffer: string
    var lastUserId: string
    var lastLanguage: Option<string>

    function Snapshot(): BufferState
      reads this
    {
      BufferState(buffer, lastUserId, lastLanguage)
    }

    constructor ()
      ensures Snapshot() == INITIAL
      ensures buffer == [] && lastUserId == "user" && lastLanguage == None
    {
      buffer := [];
      lastUserId := "user";
      lastLanguage := None;
    }

    method ProcessFrame(frame: Frame, direction: Direction, now: string) returns (pushed: seq<Push>)
      modifies this
      ensures Outcome(Snapshot(), pushed) == Step(old(Snapshot()), frame, direction, now)
    {
      ghost var before := Snapshot();
      if frame.TranscriptionFrame? {
        var text := frame.text;
        if text != [] {
          buffer := buffer + text;
          lastUserId := frame.userId;
          lastLanguage := frame.language;
        }
        pushed := [];
      } else if IsStopRecording(frame) {
        var flushed := Strip(buffer);
        if flushed != [] {
          pushed := [Push(TranscriptionFrame(flushed, lastUserId, now, lastLanguage), direction)];
          buffer := [];
        } else {
          pushed := [];
        }
      } else {
        pushed := [Push(frame, direction)];
      }
      assert Outcome(Snapshot(), pushed) == Step(before, frame, direction, now);
    }
  }
}
