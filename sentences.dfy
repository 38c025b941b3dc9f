/** The last two steps of the auto-formatter:
    `AutoFormatterProcessor._add_punctuation` and
    `AutoFormatterProcessor._capitalize_sentences`, over ASCII letters. */
module Sentences {
  import opened Common

  /** The class `[.!?]`. */
  predicate IsTerminator(c: char)
  {
    c == '.' || c == '!' || c == '?'
  }

  /** `str.isalpha()` restricted to ASCII. */
  predicate IsAlpha(c: char)
  {
    'a' <= c <= 'z' || 'A' <= c <= 'Z'
  }

  /** `str.upper()` on one ASCII character. */
  function Upper(c: char): (d: char)
    ensures IsAlpha(d) <==> IsAlpha(c)
    ensures !IsAlpha(c) ==> d == c
    ensures 'A' <= d <= 'Z' || !IsAlpha(c)
  {
    if 'a' <= c <= 'z' then (c as int - 32) as char else c
  }

  // ----- _add_punctuation -----

  /** `_add_punctuation`: a period goes at the end of non-empty text that
      does not already end in `.`, `!` or `?`. */
  function AddPunctuation(t: string): string
  {
    if t == [] then t
    else if IsTerminator(t[|t| - 1]) then t
    else t + "."
  }

  /** "" stays ""; text ending in a terminator is unchanged; any other text
      gains exactly one trailing period and nothing else changes. */
  lemma AddPunctuationSpec(t: string)
    ensures var r := AddPunctuation(t);
      && (r == [] <==> t == [])
      && (t != [] ==> IsTerminator(r[|r| - 1]))
      && |t| <= |r| <= |t| + 1 && r[..|t|] == t
      && (|r| == |t| + 1 ==> r[|t|] == '.')
      && (t != [] && IsTerminator(t[|t| - 1]) ==> r == t)
      && (NoEdgeSpace(t) ==> NoEdgeSpace(r))
  {
  }

  /** Adding punctuation twice is adding it once. */
  lemma AddPunctuationIdempotent(t: string)
    ensures AddPunctuation(AddPunctuation(t)) == AddPunctuation(t)
  {
  }

  // ----- _capitalize_sentences: the reference -----

  /** Position `i` comes right after `[.!?]\s*`: the character before it is a
      terminator, or whitespace that itself comes after one. */
  predicate AfterTerminator(t: string, i: nat)
    requires i <= |t|
  {
    i > 0 && (IsTerminator(t[i - 1]) || (IsSpace(t[i - 1]) && AfterTerminator(t, i - 1)))
  }

  /** The character at `i` is the first of a sentence when `first` says the
      text itself starts one and `i == 0`, or when it comes after `[.!?]\s*`. */
  function CapAt(t: string, first: bool, i: nat): char
    requires i < |t|
  {
    if ((i == 0 && first) || AfterTerminator(t, i)) && IsAlpha(t[i]) then Upper(t[i]) else t[i]
  }

  function CapitalizedFrom(t: string, first: bool): (r: string)
  {
    seq(|t|, i requires 0 <= i < |t| => CapAt(t, first, i))
  }

  /** What `_capitalize_sentences` promises: the same text, with the first
      character and each first character after `[.!?]\s*` upper-cased when
      it is a letter. */
  function Capitalized(t: string): string
  {
    CapitalizedFrom(t, true)
  }

  // ----- _capitalize_sentences: the code -----

  /** `re.split(r"([.!?]\s*)", t)`: text pieces and the delimiters between
      them, alternating, starting and ending with a (possibly empty) text
      piece; each delimiter is a terminator and all the whitespace after it. */
  function SplitSentences(t: string): (parts: seq<string>)
    ensures |parts| % 2 == 1
    decreases |t|
  {
    if t == [] then [""]
    else if IsTerminator(t[0]) then
      var d := DelimiterEnd(t);
      ["", t[..d]] + SplitSentences(t[d..])
    else
      var p := SplitSentences(t[1..]);
      [[t[0]] + p[0]] + p[1..]
  }

  /** Where the delimiter `[.!?]\s*` that starts `t` ends: after the
      terminator and every whitespace character that follows it. */
  function DelimiterEnd(t: string): (d: nat)
    requires t != []
    ensures 0 < d <= |t| && IsBlank(t[1..d]) && (d == |t| || !IsSpace(t[d]))
  {
    var n := SpaceRun(t[1..]);
    assert t[1..][..n] == t[1..1 + n];
    1 + n
  }

  /** The length of the whitespace run that starts `s`. */
  function SpaceRun(s: string): (n: nat)
    ensures n <= |s| && IsBlank(s[..n]) && (n == |s| || !IsSpace(s[n]))
  {
    if s != [] && IsSpace(s[0]) then
      var n := 1 + SpaceRun(s[1..]);
      assert forall i :: 1 <= i < n ==> s[..n][i] == s[1..][..n - 1][i - 1];
      n
    else 0
  }

  /** Joining the pieces gives back the text. */
  lemma {:induction false} SplitSentencesJoin(t: string)
    ensures Concat(SplitSentences(t)) == t
    decreases |t|
  {
    if t == [] {
    } else if IsTerminator(t[0]) {
      var d := DelimiterEnd(t);
      var sub := SplitSentences(t[d..]);
      SplitSentencesJoin(t[d..]);
      assert ["", t[..d]] + sub == [""] + ([t[..d]] + sub);
      ConcatCons("", [t[..d]] + sub);
      ConcatCons(t[..d], sub);
      assert t == t[..d] + t[d..];
    } else {
      var p := SplitSentences(t[1..]);
      SplitSentencesJoin(t[1..]);
      ConcatCons([t[0]] + p[0], p[1..]);
      assert p == [p[0]] + p[1..];
      ConcatCons(p[0], p[1..]);
      assert t == [t[0]] + t[1..];
    }
  }

  /** One loop iteration: a piece that starts with a letter has it upper-cased. */
  function CapPart(part: string): (r: string)
  {
    if part != [] && IsAlpha(part[0]) then [Upper(part[0])] + part[1..] else part
  }

  function CapAll(parts: seq<string>): (r: seq<string>)
    ensures |r| == |parts|
  {
    if parts == [] then [] else [CapPart(parts[0])] + CapAll(parts[1..])
  }

  /** `_capitalize_sentences`: split, capitalise each piece, join. */
  method CapitalizeSentences(text: string) returns (r: string)
    ensures r == Capitalized(text)
    ensures |r| == |text|
  {
    var sentences := SplitSentences(text);
    var result: seq<string> := [];
    for i := 0 to |sentences|
      invariant |result| == i
      invariant forall k :: 0 <= k < i ==> result[k] == CapPart(sentences[k])
    {
      var part := sentences[i];
      if part != [] && IsAlpha(part[0]) {
        result := result + [[Upper(part[0])] + part[1..]];
      } else {
        result := result + [part];
      }
    }
    CapAllIndex(sentences, result);
    SplitCapitalizes(text, true);
    CapAllJoin(sentences);
    r := Concat(result);
  }

  lemma {:induction false} CapAllIndex(parts: seq<string>, result: seq<string>)
    requires |result| == |parts| && forall k :: 0 <= k < |parts| ==> result[k] == CapPart(parts[k])
    ensures result == CapAll(parts)
  {
    if parts != [] {
      CapAllIndex(parts[1..], result[1..]);
    }
  }

  // ----- the code meets the reference -----

  /** The pieces, capitalised (the first one only when `first`), joined. */
  function CapJoin(parts: seq<string>, first: bool): string
    requires parts != []
  {
    (if first then CapPart(parts[0]) else parts[0]) + Concat(CapAll(parts[1..]))
  }

  /** Splitting, capitalising the pieces and joining them gives the reference. */
  lemma {:induction false} SplitCapitalizes(t: string, first: bool)
    ensures CapJoin(SplitSentences(t), first) == CapitalizedFrom(t, first)
    decreases |t|, 1
  {
    if t == [] {
    } else if IsTerminator(t[0]) {
      SplitAtTerminator(t, first);
    } else {
      SplitAtOther(t, first);
    }
  }

  lemma {:induction false} SplitAtTerminator(t: string, first: bool)
    requires t != [] && IsTerminator(t[0])
    ensures CapJoin(SplitSentences(t), first) == CapitalizedFrom(t, first)
    decreases |t|, 0
  {
    var d := DelimiterEnd(t);
    var sub := SplitSentences(t[d..]);
    assert SplitSentences(t) == ["", t[..d]] + sub;
    SplitCapitalizes(t[d..], true);
    JoinAfterDelimiter(t[..d], sub, first);
    TerminatorBlock(t, first, d);
  }

  lemma {:induction false} SplitAtOther(t: string, first: bool)
    requires t != [] && !IsTerminator(t[0])
    ensures CapJoin(SplitSentences(t), first) == CapitalizedFrom(t, first)
    decreases |t|, 0
  {
    var p := SplitSentences(t[1..]);
    assert SplitSentences(t) == [[t[0]] + p[0]] + p[1..];
    SplitCapitalizes(t[1..], false);
    JoinAfterChar(t[0], p, first);
    ShiftOne(t, first);
  }

  /** A delimiter that starts with a terminator is left as it is, and the
      piece after it is capitalised. */
  lemma JoinAfterDelimiter(delim: string, sub: seq<string>, first: bool)
    requires delim != [] && IsTerminator(delim[0]) && sub != []
    ensures CapJoin(["", delim] + sub, first) == delim + CapJoin(sub, true)
  {
    var parts := ["", delim] + sub;
    assert parts[1..] == [delim] + sub;
    assert CapAll(parts[1..]) == [delim] + CapAll(sub);
    CapAllJoin(sub);
  }

  /** A character put in front of the first piece is capitalised only when
      `first`, and the rest of that piece no longer is. */
  lemma JoinAfterChar(c: char, p: seq<string>, first: bool)
    requires p != []
    ensures CapJoin([[c] + p[0]] + p[1..], first)
      == [if first && IsAlpha(c) then Upper(c) else c] + CapJoin(p, false)
  {
    var parts := [[c] + p[0]] + p[1..];
    assert parts[1..] == p[1..];
  }

  lemma CapAllJoin(parts: seq<string>)
    requires parts != []
    ensures Concat(CapAll(parts)) == CapJoin(parts, true)
  {
    assert CapAll(parts) == [CapPart(parts[0])] + CapAll(parts[1..]);
  }

  /** After a terminator and its whitespace, the text is capitalised as a
      text of its own. */
  lemma TerminatorBlock(t: string, first: bool, d: nat)
    requires 0 < d <= |t| && IsTerminator(t[0]) && IsBlank(t[1..d]) && (d == |t| || !IsSpace(t[d]))
    ensures CapitalizedFrom(t, first) == t[..d] + CapitalizedFrom(t[d..], true)
  {
    var lhs, rhs := CapitalizedFrom(t, first), t[..d] + CapitalizedFrom(t[d..], true);
    forall i | 0 <= i < |t| ensures lhs[i] == rhs[i] {
      if i < d {
        assert !IsAlpha(t[i]) by {
          if i > 0 { assert t[i] == t[1..d][i - 1]; }
        }
      } else {
        AfterBlock(t, d);
        if i > d { AfterShift(t, d, i - d); }
      }
    }
  }

  /** Every position inside and right after `[.!?]\s*` comes after a terminator. */
  lemma {:induction false} AfterBlock(t: string, d: nat)
    requires 0 < d <= |t| && IsTerminator(t[0]) && IsBlank(t[1..d])
    ensures AfterTerminator(t, d)
    decreases d
  {
    if d > 1 {
      assert t[1..d - 1] == t[1..d][..d - 2];
      AfterBlock(t, d - 1);
      assert IsSpace(t[1..d][d - 2]);
    }
  }

  /** Whether a position comes after a terminator does not depend on text
      before `k`, once position `k` does not continue a run of whitespace. */
  lemma {:induction false} AfterShift(t: string, k: nat, j: nat)
    requires 1 <= j && k + j <= |t|
    requires !(IsSpace(t[k]) && AfterTerminator(t, k))
    ensures AfterTerminator(t, k + j) == AfterTerminator(t[k..], j)
    decreases j
  {
    if j > 1 {
      AfterShift(t, k, j - 1);
      assert t[k..][j - 1] == t[k + j - 1];
    }
  }

  /** A first character that is not a terminator starts no sentence for
      what follows. */
  lemma ShiftOne(t: string, first: bool)
    requires t != [] && !IsTerminator(t[0])
    ensures CapitalizedFrom(t, first) == [CapAt(t, first, 0)] + CapitalizedFrom(t[1..], false)
  {
    var lhs, rhs := CapitalizedFrom(t, first), [CapAt(t, first, 0)] + CapitalizedFrom(t[1..], false);
    forall i | 0 <= i < |t| ensures lhs[i] == rhs[i] {
      if i > 0 {
        assert !AfterTerminator(t, 1);
        if i > 1 { AfterShift(t, 1, i - 1); }
        assert t[1..][i - 1] == t[i];
      }
    }
  }

  // ----- properties of the reference -----

  /** Only sentence-initial letters change, and they become upper case;
      whitespace and terminators are untouched. */
  lemma CapitalizedSpec(t: string)
    ensures var r := Capitalized(t);
      && |r| == |t|
      && (forall i :: 0 <= i < |t| ==> (r[i] != t[i] ==> (i == 0 || AfterTerminator(t, i)) && 'a' <= t[i] <= 'z'))
      && (forall i :: 0 <= i < |t| ==> (i == 0 || AfterTerminator(t, i)) && IsAlpha(t[i]) ==> 'A' <= r[i] <= 'Z')
      && (forall i :: 0 <= i < |t| ==> r[i] == if i == 0 || AfterTerminator(t, i) then Upper(t[i]) else t[i])
      && (forall i :: 0 <= i < |t| ==> (IsSpace(r[i]) <==> IsSpace(t[i])) && (IsTerminator(r[i]) <==> IsTerminator(t[i])))
  {
  }

  /** Capitalising twice is capitalising once. */
  lemma CapitalizedIdempotent(t: string)
    ensures Capitalized(Capitalized(t)) == Capitalized(t)
  {
    var r := Capitalized(t);
    forall i | 0 <= i <= |t| ensures AfterTerminator(r, i) == AfterTerminator(t, i) {
      SameAfter(t, r, i);
    }
  }

  lemma {:induction false} SameAfter(t: string, r: string, i: nat)
    requires |r| == |t| && i <= |t|
    requires forall k :: 0 <= k < |t| ==> (IsSpace(r[k]) <==> IsSpace(t[k])) && (IsTerminator(r[k]) <==> IsTerminator(t[k]))
    ensures AfterTerminator(r, i) == AfterTerminator(t, i)
  {
    if i > 0 { SameAfter(t, r, i - 1); }
  }
}
