/** The voice agent's robot animation: the sprite list loaded at start-up
    and `TalkingAnimation`, which injects the animated or the static frame
    as the bot starts and stops speaking. Image files are identified by
    their path; decoding them is left out. */
module VoiceAgent {
  import opened Common
  import opened Frames

  /** The number of sprite files, `robot01.png` up to `robot025.png`. */
  const SPRITE_FILES: nat := 25

  /** The decimal digits of `n`, as `str(n)` writes them. */
  function Decimal(n: nat): (r: string)
    ensures r != []
    ensures forall i :: 0 <= i < |r| ==> '0' <= r[i] <= '9'
  {
    if n < 10 then [(48 + n) as char] else Decimal(n / 10) + [(48 + n % 10) as char]
  }

  /** The number a string of decimal digits denotes. */
  function DigitsValue(d: string): nat
    requires forall i :: 0 <= i < |d| ==> '0' <= d[i] <= '9'
  {
    if d == [] then 0 else DigitsValue(d[..|d| - 1]) * 10 + (d[|d| - 1] as int - 48)
  }

  /** `Decimal(n)` is how `str(n)` writes `n`: its digits denote `n`, and
      it has no leading zero. */
  lemma {:induction false} DecimalSpellsNumber(n: nat)
    ensures DigitsValue(Decimal(n)) == n
    ensures Decimal(n)[0] != '0' || n == 0
    ensures n < 10 <==> |Decimal(n)| == 1
  {
    if n >= 10 {
      var d := Decimal(n / 10);
      DecimalSpellsNumber(n / 10);
      assert (d + [(48 + n % 10) as char])[..|d|] == d;
    }
  }

  /** Different numbers are written differently. */
  lemma DecimalInjective(n: nat, m: nat)
    requires Decimal(n) == Decimal(m)
    ensures n == m
  {
    DecimalSpellsNumber(n);
    DecimalSpellsNumber(m);
  }

  /** `script_dir / f"assets/robot0{i}.png"`: the prefix `0` is literal, so
      sprite 10 is `robot010.png`. */
  function SpritePath(scriptDir: string, i: nat): string
  {
    scriptDir + "/assets/robot0" + Decimal(i) + ".png"
  }

  /** Different sprite numbers name different files. */
  lemma SpritePathInjective(scriptDir: string, i: nat, j: nat)
    requires SpritePath(scriptDir, i) == SpritePath(scriptDir, j)
    ensures i == j
  {
    var pre := scriptDir + "/assets/robot0";
    var p, q := SpritePath(scriptDir, i), SpritePath(scriptDir, j);
    assert p == pre + Decimal(i) + ".png" && q == pre + Decimal(j) + ".png";
    assert |Decimal(i)| == |Decimal(j)|;
    assert Decimal(i) == p[|pre|..|p| - 4];
    assert Decimal(j) == q[|pre|..|q| - 4];
    DecimalInjective(i, j);
  }

  /** The raw image frame loaded from sprite file `i`. */
  function Sprite(scriptDir: string, i: nat): Frame
  {
    OutputImageRawFrame(Image(SpritePath(scriptDir, i)))
  }

  /** The files in order, then the same frames in reverse order. */
  function SpriteList(scriptDir: string): seq<Frame>
  {
    var loaded := seq(SPRITE_FILES, k requires 0 <= k < SPRITE_FILES => Sprite(scriptDir, k + 1));
    loaded + Reversed(loaded)
  }

  /** The static frame shown while the bot listens. */
  function QuietFrame(scriptDir: string): Frame
  {
    SpriteList(scriptDir)[0]
  }

  /** The animation shown while the bot talks. */
  function TalkingFrame(scriptDir: string): Frame
  {
    SpriteFrame(SpriteList(scriptDir))
  }

  /** The module-level loading loop: append each file's frame, then extend
      the list with its reverse. */
  method LoadSprites(scriptDir: string) returns (sprites: seq<Frame>)
    ensures sprites == SpriteList(scriptDir)
  {
    sprites := [];
    for i := 1 to SPRITE_FILES + 1
      invariant |sprites| == i - 1
      invariant forall k :: 0 <= k < |sprites| ==> sprites[k] == Sprite(scriptDir, k + 1)
    {
      sprites := sprites + [Sprite(scriptDir, i)];
    }
    var flipped := Reversed(sprites);
    sprites := sprites + flipped;
  }

  /** The sprite list has twice the files' count, reads the same backwards,
      holds file `k + 1` at `k` in its first half, and begins and ends with
      the quiet frame, the first file. */
  lemma SpriteListShape(scriptDir: string)
    ensures var s := SpriteList(scriptDir);
      && |s| == 2 * SPRITE_FILES
      && (forall k :: 0 <= k < |s| ==> s[k] == s[|s| - 1 - k])
      && (forall k :: 0 <= k < SPRITE_FILES ==> s[k] == Sprite(scriptDir, k + 1))
      && QuietFrame(scriptDir) == Sprite(scriptDir, 1) == s[|s| - 1]
  {
    var s := SpriteList(scriptDir);
    forall k | 0 <= k < |s|
      ensures s[k] == s[|s| - 1 - k]
    {
      if k >= SPRITE_FILES {
        assert s[k] == Sprite(scriptDir, 2 * SPRITE_FILES - k);
      } else {
        assert s[|s| - 1 - k] == Sprite(scriptDir, k + 1);
      }
    }
  }

  /** The first half of the list holds 25 different files, `robot01.png`
      to `robot025.png`. */
  lemma SpritesDistinct(scriptDir: string)
    ensures var s := SpriteList(scriptDir);
      && (forall k :: 0 <= k < SPRITE_FILES ==> s[k] == OutputImageRawFrame(Image(SpritePath(scriptDir, k + 1))))
      && (forall i, j :: 0 <= i < j < SPRITE_FILES ==> s[i] != s[j])
  {
    var s := SpriteList(scriptDir);
    SpriteListShape(scriptDir);
    forall i, j | 0 <= i < j < SPRITE_FILES
      ensures s[i] != s[j]
    {
      if s[i] == s[j] {
        SpritePathInjective(scriptDir, i + 1, j + 1);
      }
    }
  }

  /** The state after a frame, and what was pushed, in order. */
  datatype Outcome = Outcome(talking: bool, pushed: seq<Push>)

  /** `process_frame`: a start while quiet injects the animation, a stop
      always injects the static frame, both downstream; the input frame goes
      on last, in its own direction. */
  function Step(scriptDir: string, talking: bool, frame: Frame, direction: Direction): (o: Outcome)
  {
    if frame.BotStartedSpeakingFrame? then
      if !talking then Outcome(true, [Push(TalkingFrame(scriptDir), Downstream), Push(frame, direction)])
      else Outcome(true, [Push(frame, direction)])
    else if frame.BotStoppedSpeakingFrame? then
      Outcome(false, [Push(QuietFrame(scriptDir), Downstream), Push(frame, direction)])
    else Outcome(talking, [Push(frame, direction)])
  }

  /** Every frame is pushed once, last and in its own direction; anything
      before it is an injected animation frame travelling downstream; the
      animation is injected exactly on a start while quiet, the static frame
      exactly on a stop; and only those two frames change the state. */
  lemma StepSpec(scriptDir: string, talking: bool, frame: Frame, direction: Direction)
    ensures var o := Step(scriptDir, talking, frame, direction);
      && o.pushed != [] && o.pushed[|o.pushed| - 1] == Push(frame, direction)
      && (forall i :: 0 <= i < |o.pushed| - 1 ==>
            o.pushed[i].direction == Downstream && o.pushed[i].frame != frame)
      && ((|o.pushed| == 2 && o.pushed[0].frame == TalkingFrame(scriptDir))
          <==> (frame.BotStartedSpeakingFrame? && !talking))
      && ((|o.pushed| == 2 && o.pushed[0].frame == QuietFrame(scriptDir))
          <==> frame.BotStoppedSpeakingFrame?)
      && (|o.pushed| <= 2)
      && (o.talking <==> frame.BotStartedSpeakingFrame? || (talking && !frame.BotStoppedSpeakingFrame?))
  {
    SpriteListShape(scriptDir);
  }

  /** The state after a sequence of incoming frames, each with its
      direction. */
  function Run(scriptDir: string, talking: bool, inputs: seq<Push>): bool
  {
    if inputs == [] then talking
    else
      var last := inputs[|inputs| - 1];
      Step(scriptDir, Run(scriptDir, talking, inputs[..|inputs| - 1]), last.frame, last.direction).talking
  }

  function FramesOf(inputs: seq<Push>): (r: seq<Frame>)
    ensures |r| == |inputs|
  {
    seq(|inputs|, i requires 0 <= i < |inputs| => inputs[i].frame)
  }

  /** The most recent start or stop in `frames`: `Some(true)` for a start,
      `Some(false)` for a stop, `None` when there is neither. */
  function LastSpeakingEvent(frames: seq<Frame>): Option<bool>
  {
    if frames == [] then None
    else if frames[|frames| - 1].BotStartedSpeakingFrame? then Some(true)
    else if frames[|frames| - 1].BotStoppedSpeakingFrame? then Some(false)
    else LastSpeakingEvent(frames[..|frames| - 1])
  }

  /** `_is_talking` tells whether the bot's latest speaking event was a
      start, or keeps its earlier value when there was none. */
  lemma {:induction false} TalkingFollowsLastEvent(scriptDir: string, talking: bool, inputs: seq<Push>)
    ensures Run(scriptDir, talking, inputs) ==
      match LastSpeakingEvent(FramesOf(inputs))
      case None => talking
      case Some(started) => started
  {
    if inputs != [] {
      var init := inputs[..|inputs| - 1];
      var last := inputs[|inputs| - 1];
      TalkingFollowsLastEvent(scriptDir, talking, init);
      assert FramesOf(inputs)[..|inputs| - 1] == FramesOf(init);
      StepSpec(scriptDir, Run(scriptDir, talking, init), last.frame, last.direction);
    }
  }

  /** `TalkingAnimation`. */
  class TalkingAnimation {
    const scriptDir: string
    var isTalking: bool

    constructor (scriptDir: string)
      ensures this.scriptDir == scriptDir && !isTalking
    {
      this.scriptDir := scriptDir;
      isTalking := false;
    }

    method ProcessFrame(frame: Frame, direction: Direction) returns (pushed: seq<Push>)
      modifies this
      ensures Outcome(isTalking, pushed) == Step(scriptDir, old(isTalking), frame, direction)
    {
      pushed := [];
      if frame.BotStartedSpeakingFrame? {
        if !isTalking {
          pushed := pushed + [Push(TalkingFrame(scriptDir), Downstream)];
          isTalking := true;
        }
      } else if frame.BotStoppedSpeakingFrame? {
        pushed := pushed + [Push(QuietFrame(scriptDir), Downstream)];
        isTalking := false;
      }
      pushed := pushed + [Push(frame, direction)];
    }
  }
}
