/** Whitespace normalisation of the auto-formatter
    (`AutoFormatterProcessor._clean_whitespace`): three regular-expression
    substitutions and a strip, each written as the left-to-right scan the
    regular-expression engine makes. */
module Whitespace {
  import opened Common

  /** The class `[.,!?;:]`. */
  predicate IsPunct(c: char)
  {
    c == '.' || c == ',' || c == '!' || c == '?' || c == ';' || c == ':'
  }

  /** The class `[A-Za-z]`. */
  predicate IsAsciiLetter(c: char)
  {
    'a' <= c <= 'z' || 'A' <= c <= 'Z'
  }

  /** No two whitespace characters are adjacent. */
  predicate NoDoubleSpace(s: string)
  {
    forall i :: 0 <= i < |s| - 1 ==> !IsSpace(s[i]) || !IsSpace(s[i + 1])
  }

  /** No whitespace character sits right before one of `.,!?;:`. */
  predicate NoSpaceBeforePunct(s: string)
  {
    forall i :: 0 <= i < |s| - 1 ==> !IsSpace(s[i]) || !IsPunct(s[i + 1])
  }

  /** No `.,!?;:` is directly followed by an ASCII letter. */
  predicate NoPunctLetter(s: string)
  {
    forall i :: 0 <= i < |s| - 1 ==> !IsPunct(s[i]) || !IsAsciiLetter(s[i + 1])
  }

  /** The only whitespace character left is the plain space. */
  predicate SpacesAreBlanks(s: string)
  {
    forall i :: 0 <= i < |s| ==> IsSpace(s[i]) ==> s[i] == ' '
  }

  /** `re.sub(r"\s+", " ", t)`: every maximal run of whitespace becomes one
      space (written here as the run's last character turning into `' '`
      and the others being dropped). */
  function CollapseSpaces(t: string): (r: string)
    ensures r == [] <==> t == []
    ensures t != [] ==> r[0] == (if IsSpace(t[0]) then ' ' else t[0])
  {
    if t == [] then []
    else if IsSpace(t[0]) && |t| > 1 && IsSpace(t[1]) then CollapseSpaces(t[1..])
    else [if IsSpace(t[0]) then ' ' else t[0]] + CollapseSpaces(t[1..])
  }

  /** Whitespace is followed, after the rest of its run, by one of `.,!?;:`. */
  predicate PunctAfterRun(s: string)
  {
    LStrip(s) != [] && IsPunct(LStrip(s)[0])
  }

  /** `re.sub(r"\s+([.,!?;:])", r"\1", t)`: a whitespace run followed by
      `.,!?;:` is deleted (written as dropping each whitespace character
      whose run ends at such a character). */
  function DropSpaceBeforePunct(t: string): (r: string)
    ensures t != [] && !IsSpace(t[0]) ==> r != [] && r[0] == t[0]
  {
    if t == [] then []
    else if IsSpace(t[0]) && PunctAfterRun(t[1..]) then DropSpaceBeforePunct(t[1..])
    else [t[0]] + DropSpaceBeforePunct(t[1..])
  }

  /** `re.sub(r"([.,!?;:])([A-Za-z])", r"\1 \2", t)`: a space goes between
      punctuation and a letter that directly follows it. */
  function SpaceAfterPunct(t: string): (r: string)
    ensures t != [] ==> r != [] && r[0] == t[0]
  {
    if t == [] then []
    else if |t| > 1 && IsPunct(t[0]) && IsAsciiLetter(t[1]) then [t[0], ' ', t[1]] + SpaceAfterPunct(t[2..])
    else [t[0]] + SpaceAfterPunct(t[1..])
  }

  // ----- putting one character in front -----

  lemma ConsNoDoubleSpace(c: char, rest: string)
    requires NoDoubleSpace(rest) && (rest == [] || !IsSpace(c) || !IsSpace(rest[0]))
    ensures NoDoubleSpace([c] + rest)
  {
    var s := [c] + rest;
    forall i | 0 <= i < |s| - 1 ensures !IsSpace(s[i]) || !IsSpace(s[i + 1]) {
      if i > 0 { assert s[i] == rest[i - 1] && s[i + 1] == rest[i]; }
    }
  }

  lemma ConsNoSpaceBeforePunct(c: char, rest: string)
    requires NoSpaceBeforePunct(rest) && (rest == [] || !IsSpace(c) || !IsPunct(rest[0]))
    ensures NoSpaceBeforePunct([c] + rest)
  {
    var s := [c] + rest;
    forall i | 0 <= i < |s| - 1 ensures !IsSpace(s[i]) || !IsPunct(s[i + 1]) {
      if i > 0 { assert s[i] == rest[i - 1] && s[i + 1] == rest[i]; }
    }
  }

  lemma ConsNoPunctLetter(c: char, rest: string)
    requires NoPunctLetter(rest) && (rest == [] || !IsPunct(c) || !IsAsciiLetter(rest[0]))
    ensures NoPunctLetter([c] + rest)
  {
    var s := [c] + rest;
    forall i | 0 <= i < |s| - 1 ensures !IsPunct(s[i]) || !IsAsciiLetter(s[i + 1]) {
      if i > 0 { assert s[i] == rest[i - 1] && s[i + 1] == rest[i]; }
    }
  }

  lemma ConsSpacesAreBlanks(c: char, rest: string)
    requires SpacesAreBlanks(rest) && (IsSpace(c) ==> c == ' ')
    ensures SpacesAreBlanks([c] + rest)
  {
    var s := [c] + rest;
    forall i | 0 <= i < |s| ensures IsSpace(s[i]) ==> s[i] == ' ' {
      if i > 0 { assert s[i] == rest[i - 1]; }
    }
  }

  lemma NonSpaceCons(c: char, rest: string)
    ensures NonSpace([c] + rest) == (if IsSpace(c) then [] else [c]) + NonSpace(rest)
  {
    assert ([c] + rest)[1..] == rest;
  }

  /** The adjacent-pair properties survive taking a slice. */
  lemma PairsOfSlice(s: string, a: nat, u: string)
    requires a + |u| <= |s| && u == s[a..a + |u|]
    ensures NoDoubleSpace(s) ==> NoDoubleSpace(u)
    ensures NoSpaceBeforePunct(s) ==> NoSpaceBeforePunct(u)
    ensures NoPunctLetter(s) ==> NoPunctLetter(u)
    ensures SpacesAreBlanks(s) ==> SpacesAreBlanks(u)
  {
    assert forall i :: 0 <= i < |u| ==> u[i] == s[a + i];
  }

  lemma Tail(s: string)
    requires s != []
    ensures NoDoubleSpace(s) ==> NoDoubleSpace(s[1..])
    ensures NoSpaceBeforePunct(s) ==> NoSpaceBeforePunct(s[1..])
    ensures SpacesAreBlanks(s) ==> SpacesAreBlanks(s[1..])
  {
    PairsOfSlice(s, 1, s[1..]);
  }

  // ----- collapsing runs -----

  /** After collapsing, whitespace is single plain spaces, and only
      whitespace went away. */
  lemma {:induction false} CollapseSpacesSpec(t: string)
    ensures var r := CollapseSpaces(t);
      NoDoubleSpace(r) && SpacesAreBlanks(r) && NonSpace(r) == NonSpace(t)
  {
    if t != [] {
      var rest := CollapseSpaces(t[1..]);
      CollapseSpacesSpec(t[1..]);
      NonSpaceCons(t[0], t[1..]);
      assert t == [t[0]] + t[1..];
      if !(IsSpace(t[0]) && |t| > 1 && IsSpace(t[1])) {
        var c := if IsSpace(t[0]) then ' ' else t[0];
        ConsNoDoubleSpace(c, rest);
        ConsSpacesAreBlanks(c, rest);
        NonSpaceCons(c, rest);
      }
    }
  }

  // ----- dropping whitespace before punctuation -----

  /** What follows a kept whitespace character is not punctuation. */
  lemma DropAfterKeptSpace(s: string)
    requires s != [] && !PunctAfterRun(s)
    ensures DropSpaceBeforePunct(s) != []
    ensures !IsPunct(DropSpaceBeforePunct(s)[0])
  {
    if IsSpace(s[0]) {
      assert LStrip(s) == LStrip(s[1..]);
      assert !PunctAfterRun(s[1..]);
      assert DropSpaceBeforePunct(s)[0] == s[0];
    } else {
      assert LStrip(s) == s;
      assert !IsPunct(s[0]);
    }
  }

  /** No whitespace is left before punctuation, and single plain spaces
      stay single plain spaces. */
  lemma {:induction false} DropSpaceBeforePunctPairs(t: string)
    ensures var r := DropSpaceBeforePunct(t);
      && NoSpaceBeforePunct(r)
      && (SpacesAreBlanks(t) ==> SpacesAreBlanks(r))
      && (NoDoubleSpace(t) ==> NoDoubleSpace(r))
  {
    if t != [] {
      var rest := DropSpaceBeforePunct(t[1..]);
      DropSpaceBeforePunctPairs(t[1..]);
      Tail(t);
      if !(IsSpace(t[0]) && PunctAfterRun(t[1..])) {
        if IsSpace(t[0]) && |t| > 1 { DropAfterKeptSpace(t[1..]); }
        ConsNoSpaceBeforePunct(t[0], rest);
        if SpacesAreBlanks(t) { ConsSpacesAreBlanks(t[0], rest); }
        if NoDoubleSpace(t) { ConsNoDoubleSpace(t[0], rest); }
      }
    }
  }

  /** Only whitespace goes away. */
  lemma {:induction false} DropSpaceBeforePunctNonSpace(t: string)
    ensures NonSpace(DropSpaceBeforePunct(t)) == NonSpace(t)
  {
    if t != [] {
      var d := DropSpaceBeforePunct(t[1..]);
      DropSpaceBeforePunctNonSpace(t[1..]);
      assert [t[0]] + t[1..] == t;
      if IsSpace(t[0]) {
        SpaceCons(t[0], t[1..]);
        if !PunctAfterRun(t[1..]) {
          assert DropSpaceBeforePunct(t) == [t[0]] + d;
          SpaceCons(t[0], d);
        }
      } else {
        assert DropSpaceBeforePunct(t) == [t[0]] + d;
        SolidCons(t[0], t[1..]);
        SolidCons(t[0], d);
      }
    }
  }

  // ----- a space after punctuation -----

  /** No punctuation is directly followed by a letter, and the other
      adjacent-pair properties of the input survive. */
  lemma {:induction false} SpaceAfterPunctPairs(t: string)
    ensures var r := SpaceAfterPunct(t);
      && NoPunctLetter(r)
      && (SpacesAreBlanks(t) ==> SpacesAreBlanks(r))
      && (NoDoubleSpace(t) ==> NoDoubleSpace(r))
      && (NoSpaceBeforePunct(t) ==> NoSpaceBeforePunct(r))
  {
    if t != [] {
      Tail(t);
      if |t| > 1 && IsPunct(t[0]) && IsAsciiLetter(t[1]) {
        SpaceAfterPunctPairs(t[2..]);
        Tail(t[1..]);
        assert t[1..][1..] == t[2..];
        InsertedSpace(t[0], t[1], SpaceAfterPunct(t[2..]));
      } else {
        var rest := SpaceAfterPunct(t[1..]);
        SpaceAfterPunctPairs(t[1..]);
        ConsNoPunctLetter(t[0], rest);
        if SpacesAreBlanks(t) { ConsSpacesAreBlanks(t[0], rest); }
        if NoDoubleSpace(t) { ConsNoDoubleSpace(t[0], rest); }
        if NoSpaceBeforePunct(t) { ConsNoSpaceBeforePunct(t[0], rest); }
      }
    }
  }

  /** Only whitespace is added. */
  lemma {:induction false} SpaceAfterPunctNonSpace(t: string)
    ensures NonSpace(SpaceAfterPunct(t)) == NonSpace(t)
  {
    if t != [] {
      NonSpaceCons(t[0], t[1..]);
      assert t == [t[0]] + t[1..];
      if |t| > 1 && IsPunct(t[0]) && IsAsciiLetter(t[1]) {
        SpaceAfterPunctNonSpace(t[2..]);
        assert t[1..] == [t[1]] + t[2..];
        NonSpaceCons(t[1], t[2..]);
        InsertedNonSpace(t[0], t[1], SpaceAfterPunct(t[2..]));
      } else {
        SpaceAfterPunctNonSpace(t[1..]);
        NonSpaceCons(t[0], SpaceAfterPunct(t[1..]));
      }
    }
  }

  /** The replacement `p + " " + l`, put in front of the rest, keeps the
      adjacent-pair properties the rest has and adds no non-whitespace. */
  lemma InsertedSpace(p: char, l: char, rest: string)
    requires IsPunct(p) && IsAsciiLetter(l)
    ensures NoPunctLetter(rest) ==> NoPunctLetter([p, ' ', l] + rest)
    ensures SpacesAreBlanks(rest) ==> SpacesAreBlanks([p, ' ', l] + rest)
    ensures NoDoubleSpace(rest) ==> NoDoubleSpace([p, ' ', l] + rest)
    ensures NoSpaceBeforePunct(rest) ==> NoSpaceBeforePunct([p, ' ', l] + rest)
  {
    assert [p, ' ', l] + rest == [p] + ([' '] + ([l] + rest));
    if NoPunctLetter(rest) { InsertedNoPunctLetter(p, l, rest); }
    if SpacesAreBlanks(rest) { InsertedSpacesAreBlanks(p, l, rest); }
    if NoDoubleSpace(rest) { InsertedNoDoubleSpace(p, l, rest); }
    if NoSpaceBeforePunct(rest) { InsertedNoSpaceBeforePunct(p, l, rest); }
  }

  lemma InsertedNonSpace(p: char, l: char, rest: string)
    requires IsPunct(p) && IsAsciiLetter(l)
    ensures NonSpace([p, ' ', l] + rest) == [p, l] + NonSpace(rest)
  {
    var r1 := [l] + rest;
    var r2 := [' '] + r1;
    assert [p, ' ', l] + rest == [p] + r2;
    NonSpaceCons(l, rest);
    NonSpaceCons(' ', r1);
    NonSpaceCons(p, r2);
  }

  lemma InsertedNoPunctLetter(p: char, l: char, rest: string)
    requires IsPunct(p) && IsAsciiLetter(l) && NoPunctLetter(rest)
    ensures NoPunctLetter([p] + ([' '] + ([l] + rest)))
  {
    ConsNoPunctLetter(l, rest);
    ConsNoPunctLetter(' ', [l] + rest);
    ConsNoPunctLetter(p, [' '] + ([l] + rest));
  }

  lemma InsertedSpacesAreBlanks(p: char, l: char, rest: string)
    requires IsPunct(p) && IsAsciiLetter(l) && SpacesAreBlanks(rest)
    ensures SpacesAreBlanks([p] + ([' '] + ([l] + rest)))
  {
    ConsSpacesAreBlanks(l, rest);
    ConsSpacesAreBlanks(' ', [l] + rest);
    ConsSpacesAreBlanks(p, [' '] + ([l] + rest));
  }

  lemma InsertedNoDoubleSpace(p: char, l: char, rest: string)
    requires IsPunct(p) && IsAsciiLetter(l) && NoDoubleSpace(rest)
    ensures NoDoubleSpace([p] + ([' '] + ([l] + rest)))
  {
    ConsNoDoubleSpace(l, rest);
    ConsNoDoubleSpace(' ', [l] + rest);
    ConsNoDoubleSpace(p, [' '] + ([l] + rest));
  }

  lemma InsertedNoSpaceBeforePunct(p: char, l: char, rest: string)
    requires IsPunct(p) && IsAsciiLetter(l) && NoSpaceBeforePunct(rest)
    ensures NoSpaceBeforePunct([p] + ([' '] + ([l] + rest)))
  {
    ConsNoSpaceBeforePunct(l, rest);
    ConsNoSpaceBeforePunct(' ', [l] + rest);
    ConsNoSpaceBeforePunct(p, [' '] + ([l] + rest));
  }

  // ----- where whitespace stands -----

  /** For each non-whitespace character of `s`, in order, whether
      whitespace comes directly before it; `p` says whether whitespace
      came before `s` itself. */
  function SpaceMarks(s: string, p: bool): (r: seq<bool>)
    ensures |r| == |NonSpace(s)|
  {
    if s == [] then []
    else if IsSpace(s[0]) then SpaceMarks(s[1..], true)
    else [p] + SpaceMarks(s[1..], false)
  }

  lemma MarksCons(c: char, rest: string, p: bool)
    ensures SpaceMarks([c] + rest, p)
      == if IsSpace(c) then SpaceMarks(rest, true) else [p] + SpaceMarks(rest, false)
  {
    assert ([c] + rest)[1..] == rest;
  }

  lemma MarksSolidCons(c: char, rest: string, p: bool)
    requires !IsSpace(c)
    ensures SpaceMarks([c] + rest, p) == [p] + SpaceMarks(rest, false)
  {
    assert ([c] + rest)[1..] == rest;
  }

  lemma MarksBlankCons(rest: string, p: bool)
    ensures SpaceMarks([' '] + rest, p) == SpaceMarks(rest, true)
  {
    assert ([' '] + rest)[1..] == rest;
  }

  lemma SolidCons(c: char, rest: string)
    requires !IsSpace(c)
    ensures NonSpace([c] + rest) == [c] + NonSpace(rest)
  {
    assert ([c] + rest)[1..] == rest;
  }

  /** The first mark says whether whitespace came before the first
      non-whitespace character, which is the first one `lstrip` keeps. */
  lemma {:induction false} MarksHead(s: string, p: bool)
    requires NonSpace(s) != []
    ensures SpaceMarks(s, p)[0] == (p || IsSpace(s[0]))
    ensures LStrip(s) != [] && NonSpace(s)[0] == LStrip(s)[0]
  {
    if IsSpace(s[0]) {
      MarksHead(s[1..], true);
    }
  }

  /** Only the first mark depends on what came before. */
  lemma MarksTail(s: string, p: bool, q: bool)
    ensures forall k :: 1 <= k < |NonSpace(s)| ==> SpaceMarks(s, p)[k] == SpaceMarks(s, q)[k]
  {
  }

  lemma MarksOfBlank(s: string, p: bool)
    requires IsBlank(s)
    ensures SpaceMarks(s, p) == []
  {
    NonSpaceOfBlank(s);
  }

  /** Whitespace in front only sets the first mark. */
  lemma {:induction false} MarksBlankFront(x: string, y: string, p: bool)
    requires IsBlank(x)
    ensures SpaceMarks(x + y, p) == SpaceMarks(y, p || x != [])
  {
    if x == [] {
      assert x + y == y;
    } else {
      assert (x + y)[1..] == x[1..] + y;
      MarksBlankFront(x[1..], y, true);
    }
  }

  /** Whitespace at the back changes no mark. */
  lemma {:induction false} MarksBlankBack(x: string, y: string, p: bool)
    requires IsBlank(y)
    ensures SpaceMarks(x + y, p) == SpaceMarks(x, p)
  {
    if x == [] {
      assert x + y == y;
      MarksOfBlank(y, p);
    } else {
      assert (x + y)[1..] == x[1..] + y;
      MarksBlankBack(x[1..], y, IsSpace(x[0]));
    }
  }

  /** Collapsing whitespace runs keeps every mark. */
  lemma {:induction false} MarksCollapse(t: string, p: bool)
    ensures SpaceMarks(CollapseSpaces(t), p) == SpaceMarks(t, p)
  {
    if t != [] {
      var c := CollapseSpaces(t[1..]);
      if IsSpace(t[0]) && |t| > 1 && IsSpace(t[1]) {
        MarksCollapse(t[1..], p);
        assert SpaceMarks(t[1..], p) == SpaceMarks(t[1..][1..], true);
      } else {
        var h := if IsSpace(t[0]) then ' ' else t[0];
        MarksCollapse(t[1..], IsSpace(t[0]));
        MarksCons(h, c, p);
      }
    }
  }

  /** `d` is `m` with the marks of `.,!?;:` in `n` cleared, except a first
      mark `p` carried in from before. */
  predicate DroppedMarks(n: string, m: seq<bool>, d: seq<bool>, p: bool)
  {
    |m| == |n| && |d| == |n|
    && forall k {:trigger d[k]} :: 0 <= k < |n| ==> d[k] == (m[k] && (!IsPunct(n[k]) || (k == 0 && p)))
  }

  lemma DroppedAt(n: string, m: seq<bool>, d: seq<bool>, p: bool, j: nat)
    requires DroppedMarks(n, m, d, p) && j < |n|
    ensures d[j] == (m[j] && (!IsPunct(n[j]) || (j == 0 && p)))
  {
  }

  /** Deleting whitespace before `.,!?;:` clears the marks of those
      characters, except a first mark carried in from before. */
  lemma {:induction false} MarksDrop(t: string, p: bool)
    ensures NonSpace(DropSpaceBeforePunct(t)) == NonSpace(t)
    ensures DroppedMarks(NonSpace(t), SpaceMarks(t, p), SpaceMarks(DropSpaceBeforePunct(t), p), p)
  {
    DropSpaceBeforePunctNonSpace(t);
    if t != [] {
      var u := t[1..];
      var du := DropSpaceBeforePunct(u);
      assert t == [t[0]] + u;
      if IsSpace(t[0]) {
        MarksSpaceCons(t[0], u, p);
        SpaceCons(t[0], u);
        if PunctAfterRun(u) {
          assert DropSpaceBeforePunct(t) == du;
          MarksDrop(u, p);
          if NonSpace(u) != [] {
            MarksHead(u, p);
            MarksHead(u, true);
          }
          MarksTail(u, p, true);
          DroppedSkip(NonSpace(u), SpaceMarks(u, p), SpaceMarks(u, true), SpaceMarks(du, p), p);
        } else {
          assert DropSpaceBeforePunct(t) == [t[0]] + du;
          MarksDrop(u, true);
          MarksSpaceCons(t[0], du, p);
          if NonSpace(u) != [] { MarksHead(u, true); }
          DroppedKeptSpace(NonSpace(u), SpaceMarks(u, true), SpaceMarks(du, true), p);
        }
      } else {
        assert DropSpaceBeforePunct(t) == [t[0]] + du;
        MarksDrop(u, false);
        MarksSolidCons(t[0], u, p);
        MarksSolidCons(t[0], du, p);
        SolidCons(t[0], u);
        DroppedKeep(t[0], NonSpace(u), SpaceMarks(u, false), SpaceMarks(du, false), p);
      }
    }
  }

  lemma MarksSpaceCons(c: char, rest: string, p: bool)
    requires IsSpace(c)
    ensures SpaceMarks([c] + rest, p) == SpaceMarks(rest, true)
  {
    assert ([c] + rest)[1..] == rest;
  }

  lemma SpaceCons(c: char, rest: string)
    requires IsSpace(c)
    ensures NonSpace([c] + rest) == NonSpace(rest)
  {
    assert ([c] + rest)[1..] == rest;
  }

  /** A dropped whitespace character in front of `.,!?;:`. */
  lemma DroppedSkip(n: string, mp: seq<bool>, mt: seq<bool>, d: seq<bool>, p: bool)
    requires DroppedMarks(n, mp, d, p) && |mt| == |n|
    requires forall k :: 1 <= k < |n| ==> mp[k] == mt[k]
    requires n != [] ==> IsPunct(n[0]) && mt[0] && (p ==> mp[0])
    ensures DroppedMarks(n, mt, d, p)
  {
    forall k | 0 <= k < |n|
      ensures d[k] == (mt[k] && (!IsPunct(n[k]) || (k == 0 && p)))
    {
      DroppedAt(n, mp, d, p, k);
    }
  }

  /** A kept whitespace character: what follows it is not `.,!?;:`. */
  lemma DroppedKeptSpace(n: string, m: seq<bool>, d: seq<bool>, p: bool)
    requires DroppedMarks(n, m, d, true)
    requires n != [] ==> !IsPunct(n[0]) && m[0]
    ensures DroppedMarks(n, m, d, p)
  {
    forall k | 0 <= k < |n|
      ensures d[k] == (m[k] && (!IsPunct(n[k]) || (k == 0 && p)))
    {
      DroppedAt(n, m, d, true, k);
    }
  }

  /** A kept non-whitespace character. */
  lemma DroppedKeep(c: char, n: string, m: seq<bool>, d: seq<bool>, p: bool)
    requires DroppedMarks(n, m, d, false)
    ensures DroppedMarks([c] + n, [p] + m, [p] + d, p)
  {
    var n', m', d' := [c] + n, [p] + m, [p] + d;
    forall k | 1 <= k < |n'|
      ensures d'[k] == (m'[k] && !IsPunct(n'[k]))
    {
      assert d'[k] == d[k - 1] && m'[k] == m[k - 1] && n'[k] == n[k - 1];
      DroppedAt(n, m, d, false, k - 1);
    }
  }

  /** `a` is `m` with the mark of every letter right after `.,!?;:` in
      `n` set. */
  predicate InsertedMarks(n: string, m: seq<bool>, a: seq<bool>)
  {
    |m| == |n| && |a| == |n|
    && forall k {:trigger a[k]} :: 0 <= k < |n| ==> a[k] == (m[k] || (k > 0 && IsPunct(n[k - 1]) && IsAsciiLetter(n[k])))
  }

  lemma InsertedAt(n: string, m: seq<bool>, a: seq<bool>, j: nat)
    requires InsertedMarks(n, m, a) && j < |n|
    ensures a[j] == (m[j] || (j > 0 && IsPunct(n[j - 1]) && IsAsciiLetter(n[j])))
  {
  }

  /** Putting a space between punctuation and a letter sets the letter's
      mark and leaves the others. */
  lemma {:induction false} MarksSpaceAfterPunct(t: string, p: bool)
    ensures NonSpace(SpaceAfterPunct(t)) == NonSpace(t)
    ensures InsertedMarks(NonSpace(t), SpaceMarks(t, p), SpaceMarks(SpaceAfterPunct(t), p))
  {
    SpaceAfterPunctNonSpace(t);
    if t != [] {
      if |t| > 1 && IsPunct(t[0]) && IsAsciiLetter(t[1]) {
        MarksSpaceAfterPunct(t[2..], false);
        InsertedAtFront(t, p);
      } else if IsSpace(t[0]) {
        MarksSpaceAfterPunct(t[1..], true);
        CopiedSpaceAtFront(t, p);
      } else {
        MarksSpaceAfterPunct(t[1..], false);
        CopiedSolidAtFront(t, p);
      }
    }
  }

  /** The step of `MarksSpaceAfterPunct` that puts a space in. */
  lemma InsertedAtFront(t: string, p: bool)
    requires |t| > 1 && IsPunct(t[0]) && IsAsciiLetter(t[1])
    requires InsertedMarks(NonSpace(t[2..]), SpaceMarks(t[2..], false), SpaceMarks(SpaceAfterPunct(t[2..]), false))
    ensures InsertedMarks(NonSpace(t), SpaceMarks(t, p), SpaceMarks(SpaceAfterPunct(t), p))
  {
    var v := t[2..];
    var sv := SpaceAfterPunct(v);
    ClassesAreSolid(t[0], t[1]);
    assert t == [t[0]] + ([t[1]] + v);
    assert SpaceAfterPunct(t) == [t[0]] + ([' '] + ([t[1]] + sv));
    InsertedSpaceShape(t[0], t[1], v, sv, p);
    InsertedMarksStep(t[0], t[1], NonSpace(v), SpaceMarks(v, false), SpaceMarks(sv, false), p);
  }

  /** The step of `MarksSpaceAfterPunct` that copies a whitespace character. */
  lemma CopiedSpaceAtFront(t: string, p: bool)
    requires t != [] && IsSpace(t[0])
    requires InsertedMarks(NonSpace(t[1..]), SpaceMarks(t[1..], true), SpaceMarks(SpaceAfterPunct(t[1..]), true))
    ensures InsertedMarks(NonSpace(t), SpaceMarks(t, p), SpaceMarks(SpaceAfterPunct(t), p))
  {
    var u := t[1..];
    assert t == [t[0]] + u;
    assert SpaceAfterPunct(t) == [t[0]] + SpaceAfterPunct(u);
    MarksSpaceCons(t[0], u, p);
    MarksSpaceCons(t[0], SpaceAfterPunct(u), p);
    SpaceCons(t[0], u);
  }

  /** The step of `MarksSpaceAfterPunct` that copies any other character. */
  lemma CopiedSolidAtFront(t: string, p: bool)
    requires t != [] && !IsSpace(t[0]) && !(|t| > 1 && IsPunct(t[0]) && IsAsciiLetter(t[1]))
    requires InsertedMarks(NonSpace(t[1..]), SpaceMarks(t[1..], false), SpaceMarks(SpaceAfterPunct(t[1..]), false))
    ensures InsertedMarks(NonSpace(t), SpaceMarks(t, p), SpaceMarks(SpaceAfterPunct(t), p))
  {
    var u := t[1..];
    var su := SpaceAfterPunct(u);
    assert t == [t[0]] + u;
    assert SpaceAfterPunct(t) == [t[0]] + su;
    MarksSolidCons(t[0], u, p);
    MarksSolidCons(t[0], su, p);
    SolidCons(t[0], u);
    if NonSpace(u) != [] { MarksHead(u, false); }
    InsertedMarksKeep(t[0], NonSpace(u), SpaceMarks(u, false), SpaceMarks(su, false), p);
  }

  /** Neither `.,!?;:` nor an ASCII letter is whitespace. */
  lemma ClassesAreSolid(c: char, l: char)
    requires IsPunct(c) && IsAsciiLetter(l)
    ensures !IsSpace(c) && !IsSpace(l) && !IsPunct(l)
  {
  }

  /** The non-whitespace and the marks of `c l v`, and the marks of
      `c ' ' l w`. */
  lemma InsertedSpaceShape(c: char, l: char, v: string, w: string, p: bool)
    requires !IsSpace(c) && !IsSpace(l)
    ensures NonSpace([c] + ([l] + v)) == [c, l] + NonSpace(v)
    ensures SpaceMarks([c] + ([l] + v), p) == [p, false] + SpaceMarks(v, false)
    ensures SpaceMarks([c] + ([' '] + ([l] + w)), p) == [p, true] + SpaceMarks(w, false)
  {
    SolidPairNonSpace(c, l, v);
    SolidPairMarks(c, l, v, p);
    SpacedPairMarks(c, l, w, p);
  }

  lemma SolidPairNonSpace(c: char, l: char, v: string)
    requires !IsSpace(c) && !IsSpace(l)
    ensures NonSpace([c] + ([l] + v)) == [c, l] + NonSpace(v)
  {
    SolidCons(l, v);
    SolidCons(c, [l] + v);
  }

  lemma SolidPairMarks(c: char, l: char, v: string, p: bool)
    requires !IsSpace(c) && !IsSpace(l)
    ensures SpaceMarks([c] + ([l] + v), p) == [p, false] + SpaceMarks(v, false)
  {
    MarksSolidCons(l, v, false);
    MarksSolidCons(c, [l] + v, p);
  }

  lemma SpacedPairMarks(c: char, l: char, w: string, p: bool)
    requires !IsSpace(c) && !IsSpace(l)
    ensures SpaceMarks([c] + ([' '] + ([l] + w)), p) == [p, true] + SpaceMarks(w, false)
  {
    MarksSolidCons(l, w, true);
    MarksBlankCons([l] + w, false);
    MarksSolidCons(c, [' '] + ([l] + w), p);
  }

  lemma InsertedMarksStep(c: char, l: char, n: string, m: seq<bool>, a: seq<bool>, p: bool)
    requires IsPunct(c) && IsAsciiLetter(l) && InsertedMarks(n, m, a)
    ensures InsertedMarks([c, l] + n, [p, false] + m, [p, true] + a)
  {
    var n', m', a' := [c, l] + n, [p, false] + m, [p, true] + a;
    forall k | 2 <= k < |n'|
      ensures a'[k] == (m'[k] || (IsPunct(n'[k - 1]) && IsAsciiLetter(n'[k])))
    {
      assert a'[k] == a[k - 2] && m'[k] == m[k - 2] && n'[k] == n[k - 2];
      assert n'[k - 1] == if k == 2 then l else n[k - 3];
      InsertedAt(n, m, a, k - 2);
    }
  }

  lemma InsertedMarksKeep(c: char, n: string, m: seq<bool>, a: seq<bool>, p: bool)
    requires InsertedMarks(n, m, a)
    requires n != [] && IsPunct(c) && IsAsciiLetter(n[0]) ==> m[0]
    ensures InsertedMarks([c] + n, [p] + m, [p] + a)
  {
    var n', m', a' := [c] + n, [p] + m, [p] + a;
    forall k | 1 <= k < |n'|
      ensures a'[k] == (m'[k] || (IsPunct(n'[k - 1]) && IsAsciiLetter(n'[k])))
    {
      assert a'[k] == a[k - 1] && m'[k] == m[k - 1] && n'[k] == n[k - 1] && n'[k - 1] == if k == 1 then c else n[k - 2];
      InsertedAt(n, m, a, k - 1);
    }
  }

  /** `r` has the marks `m` has, except perhaps the first. */
  predicate TailMarks(n: string, m: seq<bool>, r: seq<bool>)
  {
    |m| == |n| && |r| == |n| && forall k {:trigger r[k]} :: 1 <= k < |n| ==> r[k] == m[k]
  }

  /** Stripping changes only the first mark. */
  lemma MarksStrip(s: string)
    ensures NonSpace(Strip(s)) == NonSpace(s)
    ensures TailMarks(NonSpace(s), SpaceMarks(s, false), SpaceMarks(Strip(s), false))
  {
    var a, r := StripStart(s), Strip(s);
    var b := a + |r|;
    SliceSplit(s, a, b);
    NonSpaceStrip(s);
    MarksAroundBlanks(s[..a], r, s[b..]);
    MarksTail(r, false, a > 0);
  }

  /** Whitespace on both sides only sets the first mark. */
  lemma MarksAroundBlanks(x: string, r: string, y: string)
    requires IsBlank(x) && IsBlank(y)
    ensures SpaceMarks((x + r) + y, false) == SpaceMarks(r, x != [])
  {
    assert (x + r) + y == x + (r + y);
    MarksBlankFront(x, r + y, false);
    MarksBlankBack(r, y, x != []);
  }

  /** Between the `k-1`-th and `k`-th non-whitespace characters `n` of
      the input, whose marks are `m`, the result has whitespace (mark
      `r[k]`) exactly when the input had some and the `k`-th is not one of
      `.,!?;:`, or when the `k-1`-th is one of `.,!?;:` and the `k`-th a
      letter. */
  predicate FinalMarks(n: string, m: seq<bool>, r: seq<bool>)
  {
    |m| == |n| && |r| == |n|
    && forall k {:trigger r[k]} :: 0 < k < |n| ==> r[k] == ((m[k] && !IsPunct(n[k])) || (IsPunct(n[k - 1]) && IsAsciiLetter(n[k])))
  }

  lemma ComposeMarks(n: string, mt: seq<bool>, md: seq<bool>, ms: seq<bool>, mr: seq<bool>)
    requires DroppedMarks(n, mt, md, false) && InsertedMarks(n, md, ms) && TailMarks(n, ms, mr)
    ensures FinalMarks(n, mt, mr)
  {
    forall k | 0 < k < |n|
      ensures mr[k] == ((mt[k] && !IsPunct(n[k])) || (IsPunct(n[k - 1]) && IsAsciiLetter(n[k])))
    {
      assert mr[k] == ms[k];
      assert md[k] == (mt[k] && !IsPunct(n[k]));
    }
  }

  /** The marks of the cleaned text, from those of the input. */
  lemma CleanWhitespaceMarks(t: string)
    ensures FinalMarks(NonSpace(t), SpaceMarks(t, false), SpaceMarks(CleanWhitespace(t), false))
  {
    var c := CollapseSpaces(t);
    var d := DropSpaceBeforePunct(c);
    var s := SpaceAfterPunct(d);
    CollapseSpacesSpec(t);
    MarksCollapse(t, false);
    MarksDrop(c, false);
    MarksSpaceAfterPunct(d, false);
    MarksStrip(s);
    ComposeMarks(NonSpace(t), SpaceMarks(t, false), SpaceMarks(d, false), SpaceMarks(s, false), SpaceMarks(Strip(s), false));
  }

  /** `_clean_whitespace` */
  function CleanWhitespace(t: string): (r: string)
  {
    Strip(SpaceAfterPunct(DropSpaceBeforePunct(CollapseSpaces(t))))
  }

  /** The result has no whitespace at either end, no two whitespace
      characters in a row, none right before `.,!?;:`, no `.,!?;:` directly
      followed by a letter, no whitespace but the plain space, and the same
      non-whitespace characters in the same order; it is empty exactly when
      the input is blank; and between two consecutive non-whitespace
      characters it has a space exactly where `FinalMarks` says. */
  lemma CleanWhitespaceSpec(t: string)
    ensures var r := CleanWhitespace(t);
      && NoEdgeSpace(r) && NoDoubleSpace(r) && NoSpaceBeforePunct(r) && NoPunctLetter(r)
      && SpacesAreBlanks(r) && NonSpace(r) == NonSpace(t)
      && (r == [] <==> IsBlank(t))
      && FinalMarks(NonSpace(t), SpaceMarks(t, false), SpaceMarks(r, false))
  {
    CleanWhitespaceMarks(t);
    var c := CollapseSpaces(t);
    var d := DropSpaceBeforePunct(c);
    var s := SpaceAfterPunct(d);
    CollapseSpacesSpec(t);
    DropSpaceBeforePunctPairs(c);
    DropSpaceBeforePunctNonSpace(c);
    SpaceAfterPunctPairs(d);
    SpaceAfterPunctNonSpace(d);
    StripPairs(s);
    NonSpaceStrip(s);
    BlankIffNoNonSpace(t);
    BlankIffNoNonSpace(s);
  }

  /** Stripping keeps the adjacent-pair properties. */
  lemma StripPairs(s: string)
    ensures NoDoubleSpace(s) ==> NoDoubleSpace(Strip(s))
    ensures NoSpaceBeforePunct(s) ==> NoSpaceBeforePunct(Strip(s))
    ensures NoPunctLetter(s) ==> NoPunctLetter(Strip(s))
    ensures SpacesAreBlanks(s) ==> SpacesAreBlanks(Strip(s))
  {
    var k, r := StripStart(s), Strip(s);
    PairsOfSlice(s, k, r);
  }

  /** The properties `CleanWhitespaceSpec` lists single out the result:
      any string that has them is `CleanWhitespace(t)`. */
  lemma CleanWhitespaceUnique(t: string, r: string)
    requires NoEdgeSpace(r) && NoDoubleSpace(r) && SpacesAreBlanks(r) && NonSpace(r) == NonSpace(t)
    requires FinalMarks(NonSpace(t), SpaceMarks(t, false), SpaceMarks(r, false))
    ensures r == CleanWhitespace(t)
  {
    CleanWhitespaceSpec(t);
    SameShape(NonSpace(t), SpaceMarks(t, false), r, CleanWhitespace(t));
  }

  /** Two strings with the same non-whitespace and the same final marks,
      each trimmed, with single plain spaces, are equal. */
  lemma SameShape(n: string, m: seq<bool>, r: string, c: string)
    requires NoEdgeSpace(r) && NoDoubleSpace(r) && SpacesAreBlanks(r) && NonSpace(r) == n
    requires NoEdgeSpace(c) && NoDoubleSpace(c) && SpacesAreBlanks(c) && NonSpace(c) == n
    requires FinalMarks(n, m, SpaceMarks(r, false)) && FinalMarks(n, m, SpaceMarks(c, false))
    ensures r == c
  {
    if n != [] {
      MarksHead(r, false);
      MarksHead(c, false);
    }
    SameFinalMarks(n, m, SpaceMarks(r, false), SpaceMarks(c, false));
    Determined(r, c, false);
  }

  lemma SameFinalMarks(n: string, m: seq<bool>, a: seq<bool>, b: seq<bool>)
    requires FinalMarks(n, m, a) && FinalMarks(n, m, b)
    requires n != [] ==> !a[0] && !b[0]
    ensures a == b
  {
    forall k | 0 < k < |n| ensures a[k] == b[k] {
      FinalAt(n, m, a, k);
      FinalAt(n, m, b, k);
    }
  }

  lemma FinalAt(n: string, m: seq<bool>, r: seq<bool>, k: nat)
    requires FinalMarks(n, m, r) && 0 < k < |n|
    ensures r[k] == ((m[k] && !IsPunct(n[k])) || (IsPunct(n[k - 1]) && IsAsciiLetter(n[k])))
  {
  }

  /** No two whitespace characters in a row, only plain spaces, none at
      the end, and none at the start when `p` says whitespace came before. */
  predicate Shaped(s: string, p: bool)
  {
    NoDoubleSpace(s) && SpacesAreBlanks(s) && (s == [] || !IsSpace(s[|s| - 1]))
    && (p ==> s == [] || !IsSpace(s[0]))
  }

  lemma ShapedTail(s: string, p: bool)
    requires Shaped(s, p) && s != []
    ensures Shaped(s[1..], IsSpace(s[0]))
  {
    Tail(s);
  }

  /** A shaped string is fixed by its non-whitespace and its marks. */
  lemma {:induction false} Determined(a: string, b: string, p: bool)
    requires Shaped(a, p) && Shaped(b, p)
    requires NonSpace(a) == NonSpace(b) && SpaceMarks(a, p) == SpaceMarks(b, p)
    ensures a == b
    decreases |a|
  {
    if a == [] || b == [] {
      OnlyEmptyBlank(a);
      OnlyEmptyBlank(b);
    } else {
      ShapedTail(a, p);
      ShapedTail(b, p);
      if IsSpace(a[0]) && !IsSpace(b[0]) {
        SpaceAgainstSolid(a, b);
      } else if !IsSpace(a[0]) && IsSpace(b[0]) {
        SpaceAgainstSolid(b, a);
      } else if IsSpace(a[0]) {
        SpaceHeads(a, b, p);
        Determined(a[1..], b[1..], true);
        assert a == [a[0]] + a[1..] && b == [b[0]] + b[1..];
      } else {
        SolidHeads(a, b, p);
        Determined(a[1..], b[1..], false);
        assert a == [a[0]] + a[1..] && b == [b[0]] + b[1..];
      }
    }
  }

  lemma SpaceHeads(a: string, b: string, p: bool)
    requires a != [] && b != [] && IsSpace(a[0]) && IsSpace(b[0])
    requires SpacesAreBlanks(a) && SpacesAreBlanks(b)
    requires NonSpace(a) == NonSpace(b) && SpaceMarks(a, p) == SpaceMarks(b, p)
    ensures a[0] == b[0] && NonSpace(a[1..]) == NonSpace(b[1..])
    ensures SpaceMarks(a[1..], true) == SpaceMarks(b[1..], true)
  {
    assert a == [a[0]] + a[1..] && b == [b[0]] + b[1..];
    MarksSpaceCons(a[0], a[1..], p);
    MarksSpaceCons(b[0], b[1..], p);
    SpaceCons(a[0], a[1..]);
    SpaceCons(b[0], b[1..]);
  }

  lemma SolidHeads(a: string, b: string, p: bool)
    requires a != [] && b != [] && !IsSpace(a[0]) && !IsSpace(b[0])
    requires NonSpace(a) == NonSpace(b) && SpaceMarks(a, p) == SpaceMarks(b, p)
    ensures a[0] == b[0] && NonSpace(a[1..]) == NonSpace(b[1..])
    ensures SpaceMarks(a[1..], false) == SpaceMarks(b[1..], false)
  {
    assert a == [a[0]] + a[1..] && b == [b[0]] + b[1..];
    MarksSolidCons(a[0], a[1..], p);
    MarksSolidCons(b[0], b[1..], p);
    SolidCons(a[0], a[1..]);
    SolidCons(b[0], b[1..]);
    assert a[0] == NonSpace(a)[0];
    assert NonSpace(a[1..]) == NonSpace(a)[1..];
    assert SpaceMarks(a[1..], false) == SpaceMarks(a, p)[1..];
  }

  /** A string without trailing whitespace has non-whitespace unless it
      is empty. */
  lemma OnlyEmptyBlank(s: string)
    requires s == [] || !IsSpace(s[|s| - 1])
    ensures NonSpace(s) == [] ==> s == []
  {
    BlankIffNoNonSpace(s);
  }

  /** Marks tell a shaped string starting with whitespace from one
      starting without. */
  lemma SpaceAgainstSolid(a: string, b: string)
    requires a != [] && b != [] && IsSpace(a[0]) && !IsSpace(b[0])
    requires NoDoubleSpace(a) && !IsSpace(a[|a| - 1])
    ensures SpaceMarks(a, false) != SpaceMarks(b, false)
  {
    LeadingSpaceMark(a);
    assert b == [b[0]] + b[1..];
    MarksSolidCons(b[0], b[1..], false);
  }

  lemma LeadingSpaceMark(a: string)
    requires a != [] && IsSpace(a[0]) && NoDoubleSpace(a) && !IsSpace(a[|a| - 1])
    ensures SpaceMarks(a, false) != [] && SpaceMarks(a, false)[0]
  {
    var a' := a[1..];
    assert a == [a[0]] + a';
    assert a' != [] && !IsSpace(a'[0]);
    MarksSpaceCons(a[0], a', false);
    SolidCons(a'[0], a'[1..]);
    assert a' == [a'[0]] + a'[1..];
    MarksSolidCons(a'[0], a'[1..], true);
  }

  lemma {:induction false} BlankIffNoNonSpace(s: string)
    ensures IsBlank(s) <==> NonSpace(s) == []
  {
    if s != [] {
      BlankIffNoNonSpace(s[1..]);
      assert IsBlank(s) <==> IsSpace(s[0]) && IsBlank(s[1..]);
    }
  }
}
