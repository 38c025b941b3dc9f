/** `AutoFormatterProcessor`: the text pipeline `_format_text` and the frame
    routing of `process_frame`. */
module AutoFormatter {
  import opened Common
  import opened Frames
  import opened FillerWords
  import opened Whitespace
  import opened Sentences

  /** What `_format_text` computes. */
  function Formatted(text: string): string
  {
    if text == [] || IsBlank(text) then text
    else AfterRemoval(RemoveFillers(text))
  }

  /** The stages after filler removal. */
  function AfterRemoval(u: string): string
  {
    Strip(Capitalized(AddPunctuation(CleanWhitespace(u))))
  }

  /** `_format_text`: remove fillers, clean whitespace, add a final period,
      capitalise sentences, strip. */
  method FormatText(text: string) returns (r: string)
    ensures r == Formatted(text)
  {
    if text == [] || IsBlank(text) {
      return text;
    }
    var t := RemoveFillerWords(text);
    t := CleanWhitespace(t);
    t := AddPunctuation(t);
    t := CapitalizeSentences(t);
    r := Strip(t);
  }

  /** Text the pipeline leaves: no whitespace at either end or twice in a
      row, none before `.,!?;:`, a space after each of them that precedes a
      letter, only plain spaces, and a final `.`, `!` or `?`. */
  predicate WellFormed(s: string)
  {
    && s != [] && IsTerminator(s[|s| - 1])
    && NoEdgeSpace(s) && NoDoubleSpace(s) && NoSpaceBeforePunct(s) && NoPunctLetter(s)
    && SpacesAreBlanks(s)
  }

  /** Blank input comes back unchanged; any other input comes back as ""
      (exactly when nothing but whitespace is left once the fillers are
      gone) or as well-formed text. */
  lemma FormattedSpec(text: string)
    ensures IsBlank(text) ==> Formatted(text) == text
    ensures !IsBlank(text) ==>
      && (Formatted(text) == [] <==> IsBlank(RemoveFillers(text)))
      && (Formatted(text) == [] || WellFormed(Formatted(text)))
  {
    if !IsBlank(text) {
      var u := RemoveFillers(text);
      assert Formatted(text) == AfterRemoval(u);
      AfterFillers(u);
    }
  }

  /** The stages after filler removal: "" from blank text, well-formed
      text from any other. */
  lemma AfterFillers(u: string)
    ensures AfterRemoval(u) == [] <==> IsBlank(u)
    ensures AfterRemoval(u) == [] || WellFormed(AfterRemoval(u))
  {
    var c := CleanWhitespace(u);
    CleanWhitespaceSpec(u);
    if c == [] {
      AddPunctuationSpec(c);
      assert Capitalized(AddPunctuation(c)) == [];
    } else {
      AfterCleaning(c);
    }
  }

  /** Punctuating, capitalising and stripping cleaned text that is not
      empty gives well-formed text. */
  lemma AfterCleaning(c: string)
    requires c != [] && NoEdgeSpace(c) && NoDoubleSpace(c) && NoSpaceBeforePunct(c)
    requires NoPunctLetter(c) && SpacesAreBlanks(c)
    ensures WellFormed(Strip(Capitalized(AddPunctuation(c))))
  {
    var a := AddPunctuation(c);
    AddPunctuationSpec(c);
    PunctuatedPairs(c);
    var k := Capitalized(a);
    CapitalizedPairs(a);
    StripOfTrimmed(k);
  }

  /** The final period keeps the shape `CleanWhitespace` gave. */
  lemma PunctuatedPairs(c: string)
    requires c != [] && NoEdgeSpace(c) && NoDoubleSpace(c) && NoSpaceBeforePunct(c)
    requires NoPunctLetter(c) && SpacesAreBlanks(c)
    ensures var a := AddPunctuation(c);
      NoDoubleSpace(a) && NoSpaceBeforePunct(a) && NoPunctLetter(a) && SpacesAreBlanks(a)
  {
    var a := AddPunctuation(c);
    if a != c {
      assert a == c + ".";
      assert forall i :: 0 <= i < |c| ==> a[i] == c[i];
    }
  }

  /** Capitalising keeps every character's class: whitespace, punctuation
      and letters stay where they are. */
  lemma CapitalizedPairs(a: string)
    requires a != [] && IsTerminator(a[|a| - 1])
    requires NoEdgeSpace(a) && NoDoubleSpace(a) && NoSpaceBeforePunct(a) && NoPunctLetter(a)
    requires SpacesAreBlanks(a)
    ensures WellFormed(Capitalized(a))
  {
    var k := Capitalized(a);
    CapitalizedSpec(a);
    assert forall i :: 0 <= i < |a| ==> (IsPunct(k[i]) <==> IsPunct(a[i])) && (IsAsciiLetter(k[i]) <==> IsAsciiLetter(a[i]));
  }

  /** `process_frame`: frames that are not text, and every frame while the
      formatter is disabled, pass through; a text frame (a transcription
      included) is replaced by one plain `TextFrame` with the formatted text. */
  function ProcessFrame(enabled: bool, frame: Frame, direction: Direction): (pushed: seq<Push>)
    ensures |pushed| == 1 && pushed[0].direction == direction
    ensures !enabled || !IsTextFrame(frame) ==> pushed[0].frame == frame
    ensures enabled && IsTextFrame(frame) ==>
      && pushed[0].frame == TextFrame(Formatted(frame.text))
      && (IsBlank(frame.text) ==> pushed[0].frame.text == frame.text)
      && (!IsBlank(frame.text) ==> pushed[0].frame.text == [] || WellFormed(pushed[0].frame.text))
  {
    if !IsTextFrame(frame) then [Push(frame, direction)]
    else if !enabled then [Push(frame, direction)]
    else
      FormattedSpec(frame.text);
      [Push(TextFrame(Formatted(frame.text)), direction)]
  }
}
