/**
 Model of `trim(str, ch)` from src/logic/helper.ts: strip every leading and
 trailing occurrence of one character.

 A string is a sequence of Dafny `char`s, which are Unicode scalar values. For
 text in the Basic Multilingual Plane that is one `char` per UTF-16 code unit,
 as JavaScript indexes strings. The source compares `str[i] === ch`, where
 `str[i]` is a one-unit string, so a `ch` that is empty or longer than one unit
 never matches anything.
 */
module Trim {

  /** `str[i] === ch` in the source. */
  predicate IsCh(c: char, ch: string) {
    |ch| == 1 && ch[0] == c
  }

  /** `str[i] === ch` holds exactly when `ch` is the one-character string `str[i]`. */
  lemma IsChMeans(c: char, ch: string)
    ensures IsCh(c, ch) <==> ch == [c]
  {
  }

  /** Reference definition: drop matching characters from the front, one at a time. */
  function StripLeading(s: string, ch: string): (r: string)
    ensures |r| <= |s|
  {
    if s != [] && IsCh(s[0], ch) then StripLeading(s[1..], ch) else s
  }

  /** Reference definition: drop matching characters from the back, one at a time. */
  function StripTrailing(s: string, ch: string): (r: string)
    ensures |r| <= |s|
  {
    if s != [] && IsCh(s[|s| - 1], ch) then StripTrailing(s[..|s| - 1], ch) else s
  }

  /** What `trim` returns: both ends stripped. */
  function Trimmed(s: string, ch: string): string {
    StripTrailing(StripLeading(s, ch), ch)
  }

  /**
   `trim`: two index loops narrow the window `[start, end)`, then the window is
   cut out (or `str` itself is returned when nothing was removed).
   */
  method Trim(str: string, ch: string) returns (r: string)
    ensures r == Trimmed(str, ch)
  {
    var start := 0;
    var end := |str|;

    while start < end && IsCh(str[start], ch)
      invariant 0 <= start <= end == |str|
      invariant StripLeading(str[start..], ch) == StripLeading(str, ch)
    {
      assert str[start..][1..] == str[start + 1..];
      start := start + 1;
    }
    assert str[start..] == StripLeading(str, ch);
    assert str[start..end] == str[start..];

    while end > start && IsCh(str[end - 1], ch)
      invariant start <= end <= |str|
      invariant StripTrailing(str[start..end], ch) == StripTrailing(str[start..], ch)
    {
      assert str[start..end][..end - 1 - start] == str[start..end - 1];
      end := end - 1;
    }
    assert str[start..end] == Trimmed(str, ch);

    if start > 0 || end < |str| {
      r := str[start..end];
    } else {
      assert str[start..end] == str;
      r := str;
    }
  }

  /** Everything `StripLeading` removes is `ch`, and what it keeps does not start with `ch`. */
  lemma {:induction false} StripLeadingRemoved(s: string, ch: string)
    ensures StripLeading(s, ch) == s[|s| - |StripLeading(s, ch)|..]
    ensures forall k :: 0 <= k < |s| - |StripLeading(s, ch)| ==> IsCh(s[k], ch)
    ensures StripLeading(s, ch) != [] ==> !IsCh(StripLeading(s, ch)[0], ch)
  {
    if s != [] && IsCh(s[0], ch) {
      StripLeadingRemoved(s[1..], ch);
      forall k | 1 <= k < |s| - |StripLeading(s, ch)| ensures IsCh(s[k], ch) {
        assert s[k] == s[1..][k - 1];
      }
    }
  }

  /** Everything `StripTrailing` removes is `ch`, and what it keeps does not end with `ch`. */
  lemma {:induction false} StripTrailingRemoved(s: string, ch: string)
    ensures StripTrailing(s, ch) == s[..|StripTrailing(s, ch)|]
    ensures forall k :: |StripTrailing(s, ch)| <= k < |s| ==> IsCh(s[k], ch)
    ensures StripTrailing(s, ch) != [] ==> !IsCh(StripTrailing(s, ch)[|StripTrailing(s, ch)| - 1], ch)
  {
    if s != [] && IsCh(s[|s| - 1], ch) {
      StripTrailingRemoved(s[..|s| - 1], ch);
      forall k | |StripTrailing(s, ch)| <= k < |s| - 1 ensures IsCh(s[k], ch) {
        assert s[k] == s[..|s| - 1][k];
      }
    }
  }

  /**
   The result is the contiguous window `s[i..j]`; everything cut off on either
   side is `ch`, and a non-empty result neither starts nor ends with `ch`.
   */
  lemma TrimmedIsWindow(s: string, ch: string)
    ensures exists i, j ::
      (0 <= i <= j <= |s| && Trimmed(s, ch) == s[i..j] &&
       (forall k :: 0 <= k < i ==> IsCh(s[k], ch)) &&
       (forall k :: j <= k < |s| ==> IsCh(s[k], ch)))
    ensures Trimmed(s, ch) != [] ==>
      !IsCh(Trimmed(s, ch)[0], ch) && !IsCh(Trimmed(s, ch)[|Trimmed(s, ch)| - 1], ch)
  {
    var l := StripLeading(s, ch);
    var t := StripTrailing(l, ch);
    StripLeadingRemoved(s, ch);
    StripTrailingRemoved(l, ch);
    var i := |s| - |l|;
    var j := i + |t|;
    assert t == s[i..j];
    forall k | j <= k < |s| ensures IsCh(s[k], ch) {
      assert s[k] == l[k - i];
    }
    if t != [] {
      assert t[0] == l[0];
    }
  }

  /** `trim` hands back its input exactly when neither end is `ch`. */
  lemma TrimmedUnchanged(s: string, ch: string)
    ensures Trimmed(s, ch) == s <==> (s == [] || (!IsCh(s[0], ch) && !IsCh(s[|s| - 1], ch)))
  {
    TrimmedIsWindow(s, ch);
  }

  /** `trim` returns the empty string exactly when every character is `ch`. */
  lemma TrimmedEmpty(s: string, ch: string)
    ensures Trimmed(s, ch) == [] <==> forall k :: 0 <= k < |s| ==> IsCh(s[k], ch)
  {
    var l := StripLeading(s, ch);
    StripLeadingRemoved(s, ch);
    StripTrailingRemoved(l, ch);
  }

  /** Trimming twice is trimming once. */
  lemma TrimmedIdempotent(s: string, ch: string)
    ensures Trimmed(Trimmed(s, ch), ch) == Trimmed(s, ch)
  {
    TrimmedIsWindow(s, ch);
    TrimmedUnchanged(Trimmed(s, ch), ch);
  }

  /** A `ch` that is not exactly one character never matches, so nothing is trimmed. */
  lemma TrimmedOtherLength(s: string, ch: string)
    requires |ch| != 1
    ensures Trimmed(s, ch) == s
  {
    TrimmedUnchanged(s, ch);
  }
}
