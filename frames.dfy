/** The pipeline frames the processors exchange, and the order in which a
    processor pushes them. */
module Frames {
  import opened Common

  datatype Direction = Downstream | Upstream

  /** A decoded picture, identified by the file it was loaded from. */
  datatype Image = Image(source: string)

  /** The frame classes the processors inspect. `TranscriptionFrame` and
      `InterimTranscriptionFrame` are subclasses of `TextFrame` in the
      pipeline framework, so a type test for `TextFrame` accepts all three
      (see `IsTextFrame`). `OtherFrame` stands for every other class. */
  datatype Frame =
    | TextFrame(text: string)
    | TranscriptionFrame(text: string, userId: string, timestamp: string, language: Option<string>)
    | InterimTranscriptionFrame(text: string, userId: string, timestamp: string, language: Option<string>)
    | ClientMessageFrame(msgId: string, msgType: string, data: string)
    | BotStartedSpeakingFrame
    | BotStoppedSpeakingFrame
    | OutputImageRawFrame(image: Image)
    | SpriteFrame(images: seq<Frame>)
    | OtherFrame(name: string)

  /** `isinstance(frame, TextFrame)` */
  predicate IsTextFrame(f: Frame)
  {
    f.TextFrame? || f.TranscriptionFrame? || f.InterimTranscriptionFrame?
  }

  /** One `push_frame(frame, direction)` call. */
  datatype Push = Push(frame: Frame, direction: Direction)
}
