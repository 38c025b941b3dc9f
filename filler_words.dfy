/** Filler-word removal of the auto-formatter
    (`AutoFormatterProcessor._remove_filler_words`), over ASCII text. */
module FillerWords {

  /** `\w` restricted to ASCII: letters, digits and the underscore. */
  predicate IsWordChar(c: char)
  {
    'a' <= c <= 'z' || 'A' <= c <= 'Z' || '0' <= c <= '9' || c == '_'
  }

  /** ASCII lower-casing, the comparison `re.IGNORECASE` makes. */
  function Lower(c: char): (d: char)
    ensures IsWordChar(d) <==> IsWordChar(c)
  {
    if 'A' <= c <= 'Z' then (c as int + 32) as char else c
  }

  /** The two texts are equal up to ASCII case. */
  predicate SameIgnoringCase(a: string, b: string)
  {
    |a| == |b| && (a == [] || (Lower(a[0]) == Lower(b[0]) && SameIgnoringCase(a[1..], b[1..])))
  }

  lemma {:induction false} SameIgnoringCaseAt(a: string, b: string, k: nat)
    requires SameIgnoringCase(a, b) && k < |a|
    ensures Lower(a[k]) == Lower(b[k])
  {
    if k > 0 { SameIgnoringCaseAt(a[1..], b[1..], k - 1); }
  }

  lemma {:induction false} SameIgnoringCaseFromChars(a: string, b: string)
    requires |a| == |b| && forall k :: 0 <= k < |a| ==> Lower(a[k]) == Lower(b[k])
    ensures SameIgnoringCase(a, b)
  {
    if a != [] {
      assert forall k :: 0 <= k < |a| - 1 ==> a[1..][k] == a[k + 1] && b[1..][k] == b[k + 1];
      SameIgnoringCaseFromChars(a[1..], b[1..]);
    }
  }

  /** A pattern `\b<f>\b` that matches whole words only: it starts and ends
      with a word character and never has two non-word characters in a row. */
  predicate WholeWord(f: string)
  {
    && |f| > 0 && IsWordChar(f[0]) && IsWordChar(f[|f| - 1])
    && forall k :: 0 <= k < |f| - 1 ==> IsWordChar(f[k]) || IsWordChar(f[k + 1])
  }

  /** `FILLER_WORDS`. The source keeps them in a set, whose iteration order
      Python does not fix; every result below holds for any order. */
  const FILLER_WORDS: seq<string> := [
    "um", "uh", "uhm", "umm", "ah", "er", "hmm", "hm", "like",
    "you know", "i mean", "sort of", "kind of",
    "basically", "actually", "literally"
  ]

  lemma FillersAreWholeWords()
    ensures forall k :: 0 <= k < |FILLER_WORDS| ==> WholeWord(FILLER_WORDS[k])
  {
  }

  /** The pattern `\b<f>\b`, ignoring case, matches `t` at position `i`. */
  predicate MatchAt(t: string, i: int, f: string)
  {
    && 0 <= i && i + |f| <= |t|
    && SameIgnoringCase(t[i..i + |f|], f)
    && (i == 0 || !IsWordChar(t[i - 1]))
    && (i + |f| == |t| || !IsWordChar(t[i + |f|]))
  }

  /** `f` does not occur in `t` as a whole word. */
  predicate NoOccurrence(t: string, f: string)
  {
    forall i :: 0 <= i < |t| ==> !MatchAt(t, i, f)
  }

  /** `re.sub(pattern, "", t)` from position `pos` on: the scan goes left to
      right, drops each match and resumes after it; the word boundaries are
      judged on the original text `t`. */
  function SubFrom(t: string, f: string, pos: nat): string
    requires |f| > 0 && pos <= |t|
    decreases |t| - pos
  {
    if pos == |t| then []
    else if MatchAt(t, pos, f) then SubFrom(t, f, pos + |f|)
    else [t[pos]] + SubFrom(t, f, pos + 1)
  }

  /** One iteration of the loop: `re.sub(r"\b" + re.escape(f) + r"\b", "", t, flags=re.IGNORECASE)`. */
  function RemoveWord(t: string, f: string): string
    requires |f| > 0
  {
    SubFrom(t, f, 0)
  }

  /** The positions of `t` (from `pos` on) whose characters `SubFrom` keeps. */
  ghost function KeptFrom(t: string, f: string, pos: nat): seq<nat>
    requires |f| > 0 && pos <= |t|
    decreases |t| - pos
  {
    if pos == |t| then []
    else if MatchAt(t, pos, f) then KeptFrom(t, f, pos + |f|)
    else [pos] + KeptFrom(t, f, pos + 1)
  }

  /** The positions where `\b<f>\b` matches `t`. */
  ghost function Matches(t: string, f: string): set<int>
  {
    set i | 0 <= i <= |t| && MatchAt(t, i, f)
  }

  /** The first kept position, or the end of the text. */
  function FirstKept(t: string, kept: seq<nat>): int
  {
    if kept == [] then |t| else kept[0]
  }

  /** `r` is `t[pos..]` with characters deleted: the kept positions `kept`
      rise, carry the characters of `r`, and none of them starts a match
      (`M` holds the match positions, `w` is the length of a match); every
      run of deleted characters (at the front, between two kept positions,
      at the back) starts with a match and ends where a match ends. */
  ghost predicate Keeps(t: string, M: set<int>, w: nat, pos: nat, r: string, kept: seq<nat>)
  {
    KeptChars(t, M, pos, r, kept) && Rising(kept) && GapsMatch(M, w, kept) && EdgesMatch(t, M, w, pos, kept)
  }

  ghost predicate KeptChars(t: string, M: set<int>, pos: nat, r: string, kept: seq<nat>)
  {
    && |kept| == |r|
    && forall i :: 0 <= i < |kept| ==> pos <= kept[i] < |t| && r[i] == t[kept[i]] && kept[i] !in M
  }

  ghost predicate Rising(kept: seq<nat>)
  {
    forall i :: 0 <= i < |kept| - 1 ==> kept[i] < kept[i + 1]
  }

  ghost predicate GapsMatch(M: set<int>, w: nat, kept: seq<nat>)
  {
    forall i :: 0 <= i < |kept| - 1 && kept[i] + 1 < kept[i + 1] ==>
      kept[i] + 1 in M && kept[i + 1] - w in M
  }

  ghost predicate EdgesMatch(t: string, M: set<int>, w: nat, pos: nat, kept: seq<nat>)
  {
    && (pos < FirstKept(t, kept) ==> pos in M && FirstKept(t, kept) - w in M)
    && (kept != [] && kept[|kept| - 1] + 1 < |t| ==>
          kept[|kept| - 1] + 1 in M && |t| - w in M)
  }

  lemma SubFromKeeps(t: string, f: string, pos: nat)
    requires |f| > 0 && pos <= |t|
    ensures Keeps(t, Matches(t, f), |f|, pos, SubFrom(t, f, pos), KeptFrom(t, f, pos))
  {
    KeepsFrom(t, f, Matches(t, f), pos);
  }

  /** `Keeps` for the scan from `pos` on. */
  ghost predicate KeepsAt(t: string, f: string, M: set<int>, pos: nat)
    requires |f| > 0 && pos <= |t|
  {
    Keeps(t, M, |f|, pos, SubFrom(t, f, pos), KeptFrom(t, f, pos))
  }

  /** The induction behind `SubFromKeeps`, with the match positions `M`
      given by their membership test. */
  lemma {:induction false} KeepsFrom(t: string, f: string, M: set<int>, pos: nat)
    requires |f| > 0 && pos <= |t|
    requires forall x {:trigger MatchAt(t, x, f)} :: 0 <= x < |t| ==> (x in M <==> MatchAt(t, x, f))
    ensures KeepsAt(t, f, M, pos)
    decreases |t| - pos
  {
    if pos == |t| {
    } else if MatchAt(t, pos, f) {
      KeepsFrom(t, f, M, pos + |f|);
      MatchStep(t, f, M, pos);
    } else {
      KeepsFrom(t, f, M, pos + 1);
      KeptStep(t, f, M, pos);
    }
  }

  lemma MatchStep(t: string, f: string, M: set<int>, pos: nat)
    requires |f| > 0 && pos < |t| && MatchAt(t, pos, f) && pos in M
    requires KeepsAt(t, f, M, pos + |f|)
    ensures KeepsAt(t, f, M, pos)
  {
    var r, kept := SubFrom(t, f, pos + |f|), KeptFrom(t, f, pos + |f|);
    assert SubFrom(t, f, pos) == r && KeptFrom(t, f, pos) == kept;
    KeepsAfterMatch(t, M, |f|, pos, r, kept);
  }

  lemma KeptStep(t: string, f: string, M: set<int>, pos: nat)
    requires |f| > 0 && pos < |t| && !MatchAt(t, pos, f) && pos !in M
    requires KeepsAt(t, f, M, pos + 1)
    ensures KeepsAt(t, f, M, pos)
  {
    var r, kept := SubFrom(t, f, pos + 1), KeptFrom(t, f, pos + 1);
    assert SubFrom(t, f, pos) == [t[pos]] + r && KeptFrom(t, f, pos) == [pos] + kept;
    KeepsAfterKept(t, M, |f|, pos, r, kept);
  }

  /** A kept character at `pos` goes in front of what the rest keeps. */
  lemma KeepsAfterKept(t: string, M: set<int>, w: nat, pos: nat, r: string, kept: seq<nat>)
    requires pos < |t| && pos !in M && Keeps(t, M, w, pos + 1, r, kept)
    ensures Keeps(t, M, w, pos, [t[pos]] + r, [pos] + kept)
  {
    KeptCharsAfterKept(t, M, pos, r, kept);
    RisingAfterKept(pos, kept);
    GapsAfterKept(t, M, w, pos, kept);
    EdgesAfterKept(t, M, w, pos, kept);
  }

  /** A match at `pos` joins the run of deleted characters at the front. */
  lemma KeepsAfterMatch(t: string, M: set<int>, w: nat, pos: nat, r: string, kept: seq<nat>)
    requires w > 0 && pos + w <= |t| && pos in M && Keeps(t, M, w, pos + w, r, kept)
    ensures Keeps(t, M, w, pos, r, kept)
  {
    assert EdgesMatch(t, M, w, pos, kept);
  }

  lemma KeptCharsAfterKept(t: string, M: set<int>, pos: nat, r: string, kept: seq<nat>)
    requires pos < |t| && pos !in M && KeptChars(t, M, pos + 1, r, kept)
    ensures KeptChars(t, M, pos, [t[pos]] + r, [pos] + kept)
  {
    var r1, k1 := [t[pos]] + r, [pos] + kept;
    forall i | 0 <= i < |k1|
      ensures pos <= k1[i] < |t| && r1[i] == t[k1[i]] && k1[i] !in M
    {
      if i > 0 { assert k1[i] == kept[i - 1] && r1[i] == r[i - 1]; }
    }
  }

  lemma RisingAfterKept(pos: nat, kept: seq<nat>)
    requires Rising(kept) && (forall i :: 0 <= i < |kept| ==> pos < kept[i])
    ensures Rising([pos] + kept)
  {
    var k1 := [pos] + kept;
    forall i | 0 <= i < |k1| - 1 ensures k1[i] < k1[i + 1] {
      if i > 0 { assert k1[i] == kept[i - 1] && k1[i + 1] == kept[i]; }
    }
  }

  lemma GapsAfterKept(t: string, M: set<int>, w: nat, pos: nat, kept: seq<nat>)
    requires GapsMatch(M, w, kept) && EdgesMatch(t, M, w, pos + 1, kept)
    ensures GapsMatch(M, w, [pos] + kept)
  {
    var k1 := [pos] + kept;
    forall i | 0 <= i < |k1| - 1 && k1[i] + 1 < k1[i + 1]
      ensures k1[i] + 1 in M && k1[i + 1] - w in M
    {
      if i > 0 {
        assert k1[i] == kept[i - 1] && k1[i + 1] == kept[i];
      } else {
        assert pos + 1 < FirstKept(t, kept);
      }
    }
  }

  lemma EdgesAfterKept(t: string, M: set<int>, w: nat, pos: nat, kept: seq<nat>)
    requires pos < |t| && EdgesMatch(t, M, w, pos + 1, kept)
    ensures EdgesMatch(t, M, w, pos, [pos] + kept)
  {
    var k1 := [pos] + kept;
    assert FirstKept(t, k1) == pos;
    if kept != [] {
      assert k1[|k1| - 1] == kept[|kept| - 1];
    } else {
      assert k1[|k1| - 1] == pos;
    }
  }

  /** Every position of `t` from `pos` on that is not kept lies inside a
      match of length `w` starting at a position of `M`. */
  ghost predicate DeletedInMatches(t: string, M: set<int>, w: nat, pos: nat, kept: seq<nat>)
  {
    forall p :: pos <= p < |t| && p !in kept ==> exists m :: m in M && m <= p < m + w
  }

  /** The scan from `pos` on deletes only characters covered by a match. */
  lemma {:induction false} DeletedFrom(t: string, f: string, pos: nat)
    requires |f| > 0 && pos <= |t|
    ensures DeletedInMatches(t, Matches(t, f), |f|, pos, KeptFrom(t, f, pos))
    decreases |t| - pos
  {
    if pos < |t| {
      var M := Matches(t, f);
      if MatchAt(t, pos, f) {
        DeletedFrom(t, f, pos + |f|);
        assert pos in M;
      } else {
        DeletedFrom(t, f, pos + 1);
        assert KeptFrom(t, f, pos) == [pos] + KeptFrom(t, f, pos + 1);
      }
    }
  }

  /** Removing `f` keeps the other characters in order: no kept character
      starts a whole-word match of `f`, every deleted character lies inside
      one, and each deleted run starts with a match and ends where a match
      ends. */
  lemma RemoveWordKeeps(t: string, f: string)
    requires |f| > 0
    ensures Keeps(t, Matches(t, f), |f|, 0, RemoveWord(t, f), KeptFrom(t, f, 0))
    ensures DeletedInMatches(t, Matches(t, f), |f|, 0, KeptFrom(t, f, 0))
  {
    SubFromKeeps(t, f, 0);
    DeletedFrom(t, f, 0);
  }

  /** Where `f` does not occur, removing it changes nothing. */
  lemma {:induction false} SubFromAbsent(t: string, f: string, pos: nat)
    requires |f| > 0 && pos <= |t| && NoOccurrence(t, f)
    ensures SubFrom(t, f, pos) == t[pos..]
    decreases |t| - pos
  {
    if pos < |t| {
      SubFromAbsent(t, f, pos + 1);
      assert t[pos..] == [t[pos]] + t[pos + 1..];
    }
  }

  lemma RemoveWordAbsent(t: string, f: string)
    requires |f| > 0 && NoOccurrence(t, f)
    ensures RemoveWord(t, f) == t
  {
    SubFromAbsent(t, f, 0);
  }

  /** Adjacent kept positions with no gap between them form a block. */
  lemma {:induction false} BlockOffsets(kept: seq<nat>, j: nat, m: nat, a: nat)
    requires j + m <= |kept| && a < m
    requires forall i :: j <= i < j + m - 1 ==> kept[i] + 1 == kept[i + 1]
    ensures kept[j + a] == kept[j] + a
  {
    if a > 0 {
      BlockOffsets(kept, j, m, a - 1);
      assert kept[j + a - 1] + 1 == kept[j + a];
    }
  }

  /** Deleting the matches of `f` never creates a whole-word occurrence of a
      pattern `g`: a new one would either have to straddle a deleted run,
      whose two neighbours are non-word characters and would sit side by side
      inside `g`, or already be present in `t` with the same boundaries. */
  lemma NoNewOccurrence(t: string, f: string, g: string, r: string, kept: seq<nat>)
    requires |f| > 0 && WholeWord(g) && Keeps(t, Matches(t, f), |f|, 0, r, kept)
    requires g == f || NoOccurrence(t, g)
    ensures NoOccurrence(r, g)
  {
    forall j | 0 <= j < |r| ensures !MatchAt(r, j, g) {
      OccurrenceFromOriginal(t, f, g, r, kept, j);
    }
  }

  /** Every match position of `M` is a whole-word match of length `w`. */
  ghost predicate Bounded(t: string, M: set<int>, w: nat)
  {
    forall x :: x in M ==>
      && 0 <= x && x + w <= |t|
      && (x == 0 || !IsWordChar(t[x - 1]))
      && (x + w == |t| || !IsWordChar(t[x + w]))
  }

  lemma MatchesBounded(t: string, f: string)
    ensures Bounded(t, Matches(t, f), |f|)
  {
  }

  /** A whole-word occurrence of `g` in `r`, ignoring case, character by character. */
  lemma OccurrenceChars(r: string, j: nat, g: string)
    requires WholeWord(g) && MatchAt(r, j, g)
    ensures forall k :: 0 <= k < |g| ==> Lower(r[j + k]) == Lower(g[k])
    ensures forall i :: j <= i < j + |g| - 1 ==> IsWordChar(r[i]) || IsWordChar(r[i + 1])
  {
    forall k | 0 <= k < |g| ensures Lower(r[j + k]) == Lower(g[k]) {
      SameIgnoringCaseAt(r[j..j + |g|], g, k);
    }
    forall i | j <= i < j + |g| - 1 ensures IsWordChar(r[i]) || IsWordChar(r[i + 1]) {
      var k := i - j;
      assert Lower(r[j + k]) == Lower(g[k]) && Lower(r[j + (k + 1)]) == Lower(g[k + 1]);
    }
  }

  /** No deleted run lies inside an occurrence of a whole word: the two kept
      characters around it would both be non-word characters. */
  lemma NoGapInOccurrence(t: string, M: set<int>, w: nat, pos: nat, r: string, kept: seq<nat>, j: nat, g: string)
    requires Keeps(t, M, w, pos, r, kept) && Bounded(t, M, w)
    requires j + |g| <= |r|
    requires forall i :: j <= i < j + |g| - 1 ==> IsWordChar(r[i]) || IsWordChar(r[i + 1])
    ensures forall i :: j <= i < j + |g| - 1 ==> kept[i] + 1 == kept[i + 1]
  {
    forall i | j <= i < j + |g| - 1 ensures kept[i] + 1 == kept[i + 1] {
      assert kept[i] < kept[i + 1];
      if kept[i] + 1 < kept[i + 1] {
        assert false;
      }
    }
  }

  /** An occurrence in `r` kept in one block is an occurrence in `t` at the
      block's first position. */
  lemma BlockIsOccurrence(t: string, M: set<int>, w: nat, r: string, kept: seq<nat>, j: nat, g: string)
    requires Keeps(t, M, w, 0, r, kept) && Bounded(t, M, w)
    requires WholeWord(g) && MatchAt(r, j, g)
    requires forall k :: 0 <= k < |g| ==> Lower(r[j + k]) == Lower(g[k])
    requires forall i :: j <= i < j + |g| - 1 ==> kept[i] + 1 == kept[i + 1]
    ensures MatchAt(t, kept[j], g)
  {
    var m, p := |g|, kept[j];
    BlockChars(t, M, r, kept, j, m);
    forall k | 0 <= k < m ensures Lower(t[p + k]) == Lower(g[k]) {
      assert kept[j + k] == p + k && t[kept[j + k]] == r[j + k];
    }
    CaseOfSlice(t, p, g);
    BlockStart(t, M, w, r, kept, j);
    BlockEnd(t, M, w, r, kept, j, m);
  }

  /** A block of `m` kept positions without gaps is a slice of `t` holding
      the same characters as the block of `r`. */
  lemma BlockChars(t: string, M: set<int>, r: string, kept: seq<nat>, j: nat, m: nat)
    requires KeptChars(t, M, 0, r, kept)
    requires 0 < m && j + m <= |r|
    requires forall i :: j <= i < j + m - 1 ==> kept[i] + 1 == kept[i + 1]
    ensures kept[j] + m <= |t|
    ensures forall i :: j <= i < j + m ==> kept[i] == kept[j] + (i - j) && t[kept[i]] == r[i]
  {
    forall i | j <= i < j + m ensures kept[i] == kept[j] + (i - j) {
      BlockOffsets(kept, j, m, i - j);
    }
    assert kept[j + m - 1] < |t|;
  }

  /** The slice of `t` at `p` spells `g` up to case. */
  lemma CaseOfSlice(t: string, p: nat, g: string)
    requires p + |g| <= |t|
    requires forall k :: 0 <= k < |g| ==> Lower(t[p + k]) == Lower(g[k])
    ensures SameIgnoringCase(t[p..p + |g|], g)
  {
    var a := t[p..p + |g|];
    assert forall k :: 0 <= k < |g| ==> a[k] == t[p + k];
    SameIgnoringCaseFromChars(a, g);
  }

  /** The boundary before a kept block is the one `r` has. */
  lemma BlockStart(t: string, M: set<int>, w: nat, r: string, kept: seq<nat>, j: nat)
    requires Keeps(t, M, w, 0, r, kept) && Bounded(t, M, w)
    requires j < |r| && IsWordChar(r[j]) && (j == 0 || !IsWordChar(r[j - 1]))
    ensures kept[j] == 0 || !IsWordChar(t[kept[j] - 1])
  {
    var p := kept[j];
    if j == 0 {
      if p > 0 {
        assert false;
      }
    } else if kept[j - 1] + 1 < p {
      assert false;
    } else {
      assert kept[j - 1] < p;
      assert t[p - 1] == r[j - 1];
    }
  }

  /** The boundary after a kept block is the one `r` has. */
  lemma BlockEnd(t: string, M: set<int>, w: nat, r: string, kept: seq<nat>, j: nat, m: nat)
    requires Keeps(t, M, w, 0, r, kept) && Bounded(t, M, w)
    requires 0 < m && j + m <= |r| && IsWordChar(r[j + m - 1]) && (j + m == |r| || !IsWordChar(r[j + m]))
    requires kept[j + m - 1] == kept[j] + m - 1
    ensures kept[j] + m == |t| || !IsWordChar(t[kept[j] + m])
  {
    var last := j + m - 1;
    var e := kept[last];
    if j + m == |r| {
      if e + 1 < |t| {
        assert false;
      }
    } else if e + 1 < kept[last + 1] {
      assert false;
    } else {
      assert e < kept[last + 1];
      assert t[e + 1] == r[j + m];
    }
  }

  /** A whole-word occurrence of `g` in what `re.sub` left is one already in
      `t`, at a kept position where `f` does not match. */
  lemma OccurrenceFromOriginal(t: string, f: string, g: string, r: string, kept: seq<nat>, j: nat)
    requires |f| > 0 && WholeWord(g) && Keeps(t, Matches(t, f), |f|, 0, r, kept) && j < |r|
    ensures MatchAt(r, j, g) ==> kept[j] < |t| && MatchAt(t, kept[j], g) && kept[j] !in Matches(t, f)
  {
    if MatchAt(r, j, g) {
      var M := Matches(t, f);
      MatchesBounded(t, f);
      OccurrenceChars(r, j, g);
      NoGapInOccurrence(t, M, |f|, 0, r, kept, j, g);
      BlockIsOccurrence(t, M, |f|, r, kept, j, g);
    }
  }

  /** After one `re.sub`, the removed word no longer occurs. */
  lemma RemoveWordClears(t: string, f: string)
    requires WholeWord(f)
    ensures NoOccurrence(RemoveWord(t, f), f)
  {
    SubFromKeeps(t, f, 0);
    NoNewOccurrence(t, f, f, RemoveWord(t, f), KeptFrom(t, f, 0));
  }

  /** ... and a word already gone does not come back. */
  lemma RemoveWordPreserves(t: string, f: string, g: string)
    requires |f| > 0 && WholeWord(g) && NoOccurrence(t, g)
    ensures NoOccurrence(RemoveWord(t, f), g)
  {
    SubFromKeeps(t, f, 0);
    NoNewOccurrence(t, f, g, RemoveWord(t, f), KeptFrom(t, f, 0));
  }

  /** The loop's effect after the first `|fillers|` iterations. */
  function RemoveAll(t: string, fillers: seq<string>): string
    requires forall k :: 0 <= k < |fillers| ==> WholeWord(fillers[k])
  {
    if fillers == [] then t
    else
      assert WholeWord(fillers[|fillers| - 1]);
      RemoveWord(RemoveAll(t, fillers[..|fillers| - 1]), fillers[|fillers| - 1])
  }

  /** Whatever the order of the fillers, none of them is left as a whole word. */
  lemma {:induction false} RemoveAllClears(t: string, fillers: seq<string>)
    requires forall k :: 0 <= k < |fillers| ==> WholeWord(fillers[k])
    ensures forall k :: 0 <= k < |fillers| ==> NoOccurrence(RemoveAll(t, fillers), fillers[k])
  {
    if fillers != [] {
      var n := |fillers| - 1;
      var before := RemoveAll(t, fillers[..n]);
      RemoveAllClears(t, fillers[..n]);
      RemoveWordClears(before, fillers[n]);
      forall k | 0 <= k < n ensures NoOccurrence(RemoveAll(t, fillers), fillers[k]) {
        assert fillers[..n][k] == fillers[k];
        RemoveWordPreserves(before, fillers[n], fillers[k]);
      }
    }
  }

  /** The text once every filler in `FILLER_WORDS` is removed. */
  function RemoveFillers(text: string): string
  {
    FillersAreWholeWords();
    RemoveAll(text, FILLER_WORDS)
  }

  /** `_remove_filler_words`: one `re.sub` per filler, reassigning the text. */
  method RemoveFillerWords(text: string) returns (r: string)
    ensures r == RemoveFillers(text)
    ensures forall k :: 0 <= k < |FILLER_WORDS| ==> NoOccurrence(r, FILLER_WORDS[k])
  {
    FillersAreWholeWords();
    r := RemoveEach(text, FILLER_WORDS);
  }

  /** The loop of `_remove_filler_words`, over any list of whole words. */
  method RemoveEach(text: string, fillers: seq<string>) returns (r: string)
    requires forall k :: 0 <= k < |fillers| ==> WholeWord(fillers[k])
    ensures r == RemoveAll(text, fillers)
    ensures forall k :: 0 <= k < |fillers| ==> NoOccurrence(r, fillers[k])
  {
    r := text;
    var i := 0;
    while i < |fillers|
      invariant 0 <= i <= |fillers|
      invariant r == RemoveAll(text, fillers[..i])
    {
      assert fillers[..i + 1][..i] == fillers[..i];
      r := RemoveWord(r, fillers[i]);
      i := i + 1;
    }
    assert fillers[..i] == fillers;
    RemoveAllClears(text, fillers);
  }
}
