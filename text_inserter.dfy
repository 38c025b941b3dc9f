/** `TextInserterProcessor`: which frames are typed into the focused window,
    as a trace of effects. The keyboard and the sleep are effects of the
    trace; whether typing raises is an input. */
module TextInserter {
  import opened Common
  import opened Frames

  /** The constructor's defaults, in seconds. */
  const DEFAULT_TYPING_SPEED: real := 0.0
  const DEFAULT_PRE_TYPING_DELAY: real := 0.1

  datatype Config = Config(typingSpeed: real, preTypingDelay: real)

  /** What the processor does, in order: sleep, type with a delay between
      characters, log a swallowed failure, push a frame. */
  datatype Effect =
    | Sleep(seconds: real)
    | Write(text: string, interval: real)
    | InsertFailed
    | Forward(frame: Frame, direction: Direction)

  /** `_type_text_sync`: instant typing when the speed is zero, otherwise a
      delay of `typing_speed` between characters. */
  function TypeTextSync(c: Config, text: string): (e: Effect)
    ensures e == Write(text, c.typingSpeed)
  {
    if c.typingSpeed == 0.0 then Write(text, 0.0) else Write(text, c.typingSpeed)
  }

  /** `_insert_text`: an optional sleep, the typing, and a logged failure
      when typing raises. */
  function InsertText(c: Config, text: string, typingRaises: bool): (effects: seq<Effect>)
  {
    (if c.preTypingDelay > 0.0 then [Sleep(c.preTypingDelay)] else [])
    + [TypeTextSync(c, text)]
    + (if typingRaises then [InsertFailed] else [])
  }

  /** The insertion types exactly the text, at the configured speed, once;
      sleeps exactly when the delay is positive, and for that long; and
      pushes no frame. */
  lemma InsertTextSpec(c: Config, text: string, typingRaises: bool)
    ensures var e := InsertText(c, text, typingRaises);
      && (forall i :: 0 <= i < |e| ==> !e[i].Forward?)
      && (exists i :: 0 <= i < |e| && e[i] == Write(text, c.typingSpeed))
      && (forall i, j :: 0 <= i < |e| && 0 <= j < |e| && e[i].Write? && e[j].Write? ==> i == j)
      && (forall i :: 0 <= i < |e| && e[i].Write? ==> e[i] == Write(text, c.typingSpeed))
      && ((exists i :: 0 <= i < |e| && e[i].Sleep?) <==> c.preTypingDelay > 0.0)
      && (forall i :: 0 <= i < |e| && e[i].Sleep? ==> e[i].seconds == c.preTypingDelay && i == 0)
      && ((exists i :: 0 <= i < |e| && e[i] == InsertFailed) <==> typingRaises)
  {
    var e := InsertText(c, text, typingRaises);
    var k := if c.preTypingDelay > 0.0 then 1 else 0;
    var w := Write(text, c.typingSpeed);
    assert |e| == k + 1 + (if typingRaises then 1 else 0);
    assert forall i :: 0 <= i < |e| ==>
      e[i] == (if i < k then Sleep(c.preTypingDelay) else if i == k then w else InsertFailed);
    assert e[k] == w;
    if typingRaises {
      assert e[k + 1] == InsertFailed;
    }
    if c.preTypingDelay > 0.0 {
      assert e[0].Sleep?;
    }
  }

  /** `process_frame`: a text frame whose text is not blank is typed, and
      then every frame is pushed on. */
  function ProcessFrame(c: Config, frame: Frame, direction: Direction, typingRaises: bool): (effects: seq<Effect>)
  {
    if !IsTextFrame(frame) then [Forward(frame, direction)]
    else if frame.text == [] || IsBlank(frame.text) then [Forward(frame, direction)]
    else InsertText(c, frame.text, typingRaises) + [Forward(frame, direction)]
  }

  /** Every frame is pushed exactly once, unchanged, in its own direction,
      and last, whether or not typing failed; the text is typed exactly when
      the frame is a text frame with some non-whitespace, and then it is
      exactly the frame's text. */
  lemma ProcessFrameSpec(c: Config, frame: Frame, direction: Direction, typingRaises: bool)
    ensures var e := ProcessFrame(c, frame, direction, typingRaises);
      && e != [] && e[|e| - 1] == Forward(frame, direction)
      && (forall i :: 0 <= i < |e| - 1 ==> !e[i].Forward?)
      && ((exists i :: 0 <= i < |e| && e[i].Write?) <==> IsTextFrame(frame) && !IsBlank(frame.text))
      && (forall i :: 0 <= i < |e| && e[i].Write? ==> e[i] == Write(frame.text, c.typingSpeed))
      && ((exists i :: 0 <= i < |e| && e[i].Sleep?) <==>
            IsTextFrame(frame) && !IsBlank(frame.text) && c.preTypingDelay > 0.0)
  {
    var e := ProcessFrame(c, frame, direction, typingRaises);
    if IsTextFrame(frame) && !IsBlank(frame.text) {
      var ins := InsertText(c, frame.text, typingRaises);
      InsertTextSpec(c, frame.text, typingRaises);
      assert e == ins + [Forward(frame, direction)];
      assert forall i :: 0 <= i < |ins| ==> e[i] == ins[i];
    }
  }
}
