/** Values and string helpers shared by every part of the model. */
module Common {

  datatype Option<+T> = None | Some(value: T)

  datatype Result<+T, +E> = Ok(value: T) | Err(error: E)

  /** The characters Python's `str.isspace()` accepts; the regular-expression
      class `\s` of a `str` pattern matches the same set. */
  predicate IsSpace(c: char)
  {
    c == ' ' || ('\t' <= c <= '\r') || ('\U{1C}' <= c <= '\U{1F}')
    || c == '\U{85}' || c == '\U{A0}' || c == '\U{1680}'
    || ('\U{2000}' <= c <= '\U{200A}') || c == '\U{2028}' || c == '\U{2029}'
    || c == '\U{202F}' || c == '\U{205F}' || c == '\U{3000}'
  }

  /** `not s.strip()`: the string is empty or holds only whitespace. */
  predicate IsBlank(s: string)
  {
    forall i :: 0 <= i < |s| ==> IsSpace(s[i])
  }

  /** Neither the first nor the last character is whitespace. */
  predicate NoEdgeSpace(s: string)
  {
    s == [] || (!IsSpace(s[0]) && !IsSpace(s[|s| - 1]))
  }

  /** The characters of `s` that are not whitespace, in order. */
  function NonSpace(s: string): string
  {
    if s == [] then []
    else (if IsSpace(s[0]) then [] else [s[0]]) + NonSpace(s[1..])
  }

  /** `s.lstrip()` */
  function LStrip(s: string): (r: string)
    ensures |r| <= |s| && r == s[|s| - |r|..]
    ensures r == [] || !IsSpace(r[0])
    ensures IsBlank(s[..|s| - |r|])
  {
    if s != [] && IsSpace(s[0]) then
      var r := LStrip(s[1..]);
      assert s[..|s| - |r|] == [s[0]] + s[1..][..|s| - 1 - |r|];
      r
    else s
  }

  /** `s.rstrip()` */
  function RStrip(s: string): (r: string)
    ensures |r| <= |s| && r == s[..|r|]
    ensures r == [] || !IsSpace(r[|r| - 1])
    ensures IsBlank(s[|r|..])
  {
    if s != [] && IsSpace(s[|s| - 1]) then
      var r := RStrip(s[..|s| - 1]);
      assert s[|r|..] == s[..|s| - 1][|r|..] + [s[|s| - 1]];
      r
    else s
  }

  /** How many leading characters `s.strip()` removes. */
  function StripStart(s: string): nat
  {
    |s| - |LStrip(s)|
  }

  /** `s.strip()`: the slice of `s` left after removing leading and
      trailing whitespace. */
  function Strip(s: string): (r: string)
    ensures StrippedAt(s, StripStart(s), r)
  {
    var l := LStrip(s);
    var r := RStrip(l);
    StripSlices(s, |s| - |l|, l, r);
    r
  }

  /** `r` is the slice of `s` from `k`, with no whitespace at either end
      and only whitespace around it; it is empty exactly when `s` is
      blank. */
  predicate StrippedAt(s: string, k: nat, r: string)
  {
    && k + |r| <= |s| && r == s[k..k + |r|]
    && NoEdgeSpace(r)
    && IsBlank(s[..k]) && IsBlank(s[k + |r|..])
    && (r == [] <==> IsBlank(s))
  }

  /** The facts `Strip` promises, from those `LStrip` and `RStrip` give. */
  lemma StripSlices(s: string, k: nat, l: string, r: string)
    requires k <= |s| && l == s[k..] && IsBlank(s[..k]) && (l == [] || !IsSpace(l[0]))
    requires |r| <= |l| && r == l[..|r|] && IsBlank(l[|r|..]) && (r == [] || !IsSpace(r[|r| - 1]))
    ensures StrippedAt(s, k, r)
  {
    assert s[k + |r|..] == l[|r|..];
    if r == [] {
      assert l[|r|..] == l;
      assert s[..k] == s;
    } else {
      assert s[k] == r[0];
    }
  }

  /** Stripping twice is stripping once. */
  lemma StripIdempotent(s: string)
    ensures Strip(Strip(s)) == Strip(s)
  {
    var r := Strip(s);
    assert StrippedAt(s, StripStart(s), r);
    StripOfTrimmed(r);
  }

  /** A string with no whitespace at either end is its own strip. */
  lemma StripOfTrimmed(s: string)
    requires NoEdgeSpace(s)
    ensures Strip(s) == s
  {
    if s != [] {
      assert LStrip(s) == s;
      assert RStrip(s) == s;
    }
  }

  lemma {:induction false} NonSpaceAppend(a: string, b: string)
    ensures NonSpace(a + b) == NonSpace(a) + NonSpace(b)
  {
    if a == [] {
      assert a + b == b;
    } else {
      assert (a + b)[1..] == a[1..] + b;
      NonSpaceAppend(a[1..], b);
    }
  }

  lemma {:induction false} NonSpaceOfBlank(s: string)
    requires IsBlank(s)
    ensures NonSpace(s) == []
  {
    if s != [] { NonSpaceOfBlank(s[1..]); }
  }

  /** Stripping removes whitespace only. */
  lemma NonSpaceStrip(s: string)
    ensures NonSpace(Strip(s)) == NonSpace(s)
  {
    var k, r := StripStart(s), Strip(s);
    var j := k + |r|;
    SliceSplit(s, k, j);
    NonSpaceBlankEdges(s[..k], s[k..j], s[j..]);
  }

  /** A string is its three consecutive slices. */
  lemma SliceSplit<T>(s: seq<T>, i: nat, j: nat)
    requires i <= j <= |s|
    ensures s == (s[..i] + s[i..j]) + s[j..]
  {
  }

  /** Whitespace around a string adds nothing to its non-whitespace. */
  lemma NonSpaceBlankEdges(front: string, mid: string, back: string)
    requires IsBlank(front) && IsBlank(back)
    ensures NonSpace((front + mid) + back) == NonSpace(mid)
  {
    NonSpaceOfBlank(front);
    NonSpaceOfBlank(back);
    NonSpaceAppend(front, mid);
    NonSpaceAppend(front + mid, back);
  }

  /** `"".join(parts)` */
  function Concat(parts: seq<string>): (r: string)
  {
    if parts == [] then [] else parts[0] + Concat(parts[1..])
  }

  /** Concatenation seen from the first element. */
  lemma HeadConcat<T>(p: seq<T>, x: seq<T>)
    requires p != []
    ensures p + x == [p[0]] + (p[1..] + x)
  {
  }

  lemma ConcatCons(x: string, rest: seq<string>)
    ensures Concat([x] + rest) == x + Concat(rest)
  {
    assert ([x] + rest)[1..] == rest;
  }

  lemma {:induction false} ConcatAppend(a: seq<string>, b: seq<string>)
    ensures Concat(a + b) == Concat(a) + Concat(b)
  {
    if a == [] {
      assert a + b == b;
    } else {
      assert (a + b)[1..] == a[1..] + b;
      ConcatAppend(a[1..], b);
    }
  }

  /** `s[::-1]` */
  function Reversed<T>(s: seq<T>): (r: seq<T>)
    ensures |r| == |s|
    ensures forall i :: 0 <= i < |s| ==> r[i] == s[|s| - 1 - i]
  {
    seq(|s|, i requires 0 <= i < |s| => s[|s| - 1 - i])
  }

  /** Reversing keeps the elements and their multiplicities. */
  lemma {:induction false} ReversedMultiset<T>(s: seq<T>)
    ensures multiset(Reversed(s)) == multiset(s)
  {
    if s != [] {
      ReversedMultiset(s[1..]);
      assert Reversed(s) == Reversed(s[1..]) + [s[0]];
      assert s == [s[0]] + s[1..];
    }
  }
}
