/**
 JavaScript's `String.prototype.split` and `Array.prototype.join` for a
 one-character separator, as used by the locale rewrite in
 src/logic/helper.ts, with the facts about them that the rewrite needs.
 */
module Strings {

  /** `parts.join(sep)`: the parts with one `sep` between neighbours; `[]` joins to "". */
  function Join(parts: seq<string>, sep: char): string {
    if |parts| == 0 then []
    else if |parts| == 1 then parts[0]
    else parts[0] + [sep] + Join(parts[1..], sep)
  }

  /**
   The joined string is the parts in order: it has one more character per
   separator than the parts have in total, it starts with the first part, and
   a second part begins after one `sep`.
   */
  lemma {:induction false} JoinLayout(parts: seq<string>, sep: char)
    requires |parts| >= 1
    ensures |Join(parts, sep)| == TotalLength(parts) + |parts| - 1
    ensures parts[0] <= Join(parts, sep)
    ensures |parts| >= 2 ==> Join(parts, sep)[|parts[0]|] == sep
  {
    if |parts| >= 2 {
      JoinLayout(parts[1..], sep);
    }
  }

  /** The total length of the parts. */
  function TotalLength(parts: seq<string>): nat {
    if parts == [] then 0 else |parts[0]| + TotalLength(parts[1..])
  }

  /**
   `s.split(sep)`: the maximal pieces of `s` between separators. There is always
   at least one piece ("" splits to [""]), no piece holds `sep`, and joining
   the pieces again gives back `s`.
   */
  function Split(s: string, sep: char): (parts: seq<string>)
    ensures |parts| >= 1
    ensures forall i :: 0 <= i < |parts| ==> sep !in parts[i]
    ensures Join(parts, sep) == s
  {
    if s == [] then [[]]
    else
      var rest := Split(s[1..], sep);
      if s[0] == sep then
        assert s == [sep] + s[1..];
        [[]] + rest
      else
        assert s == [s[0]] + s[1..];
        assert ([[s[0]] + rest[0]] + rest[1..])[1..] == rest[1..];
        [[s[0]] + rest[0]] + rest[1..]
  }

  /** Where the last piece of `s` starts: just after the last `sep`, or 0 when there is none. */
  function LastPieceStart(s: string, sep: char): (k: nat)
    ensures k <= |s| && sep !in s[k..]
    ensures k > 0 ==> s[k - 1] == sep
  {
    if s == [] || s[|s| - 1] == sep then |s|
    else
      var k := LastPieceStart(s[..|s| - 1], sep);
      assert s[k..] == s[..|s| - 1][k..] + [s[|s| - 1]];
      k
  }

  /** The position of the first `c` in `s`. */
  function FirstIndex(s: string, c: char): (i: nat)
    requires c in s
    ensures i < |s| && s[i] == c && c !in s[..i]
  {
    if s[0] == c then 0
    else
      assert c in s[1..] by { assert s == [s[0]] + s[1..]; }
      1 + FirstIndex(s[1..], c)
  }

  /** Splitting what was joined gives back the parts, when none of them holds the separator. */
  lemma {:induction false} SplitJoin(parts: seq<string>, sep: char)
    requires |parts| >= 1
    requires forall i :: 0 <= i < |parts| ==> sep !in parts[i]
    ensures Split(Join(parts, sep), sep) == parts
  {
    if |parts| == 1 {
      SplitPieceFree(parts[0], sep);
    } else {
      SplitJoin(parts[1..], sep);
      SplitAfterPiece(parts[0], Join(parts[1..], sep), sep);
      assert parts == [parts[0]] + parts[1..];
    }
  }

  /** A string without the separator splits into itself. */
  lemma SplitPieceFree(p: string, sep: char)
    requires sep !in p
    ensures Split(p, sep) == [p]
  {
    if p != [] {
      assert sep !in p[1..];
      SplitPieceFree(p[1..], sep);
      assert [p[0]] + p[1..] == p;
    }
  }

  /** A separator-free head followed by the separator splits off as the first piece. */
  lemma {:induction false} SplitAfterPiece(p: string, rest: string, sep: char)
    requires sep !in p
    ensures Split(p + [sep] + rest, sep) == [p] + Split(rest, sep)
  {
    var s := p + [sep] + rest;
    if p == [] {
      assert s[1..] == rest;
    } else {
      assert s[1..] == p[1..] + [sep] + rest;
      assert sep !in p[1..];
      SplitAfterPiece(p[1..], rest, sep);
      assert [p[0]] + p[1..] == p;
    }
  }

  /** Joining one more part appends the separator and the part. */
  lemma {:induction false} JoinSnoc(parts: seq<string>, x: string, sep: char)
    requires |parts| >= 1
    ensures Join(parts + [x], sep) == Join(parts, sep) + [sep] + x
  {
    if |parts| > 1 {
      JoinSnoc(parts[1..], x, sep);
      assert (parts + [x])[1..] == parts[1..] + [x];
    }
  }

  /**
   The last piece of `s` is the text after its last separator, and replacing the
   last piece and joining again replaces exactly that text.
   */
  lemma LastPiece(s: string, sep: char, x: string, parts: seq<string>, k: nat)
    requires parts == Split(s, sep) && k == LastPieceStart(s, sep)
    ensures parts[|parts| - 1] == s[k..]
    ensures Join(parts[|parts| - 1 := x], sep) == s[..k] + x
  {
    var last := |parts| - 1;
    if last > 0 {
      var front := parts[..last];
      var a := Join(front, sep);
      assert s == a + [sep] + parts[last] by {
        assert parts == front + [parts[last]];
        JoinSnoc(front, parts[last], sep);
      }
      assert k == |a| + 1 by {
        assert s[|a| + 1..] == parts[last];
        LastPieceStartAt(s, sep, |a| + 1);
      }
      assert Join(parts[last := x], sep) == a + [sep] + x by {
        assert parts[last := x] == front + [x];
        JoinSnoc(front, x, sep);
      }
      assert s[..k] == a + [sep];
    } else {
      assert s == parts[0];
      assert k == 0 by {
        LastPieceStartBound(s, sep, 0);
      }
      assert parts[last := x] == [x];
    }
  }

  /** Replacing the text after the last separator by separator-free `x` replaces the last piece. */
  lemma ReplaceLastPiece(s: string, sep: char, x: string, parts: seq<string>, k: nat)
    requires parts == Split(s, sep) && k == LastPieceStart(s, sep) && sep !in x
    ensures Split(s[..k] + x, sep) == parts[|parts| - 1 := x]
  {
    LastPiece(s, sep, x, parts, k);
    SplitJoin(parts[|parts| - 1 := x], sep);
  }

  /**
   A string with the separator splits into at least two pieces: the text before
   its first separator, then pieces that join to the text after it.
   */
  lemma FirstPiece(s: string, sep: char)
    requires sep in s
    ensures var parts := Split(s, sep);
      |parts| >= 2 && parts[0] == s[..FirstIndex(s, sep)] &&
      Join(parts[1..], sep) == s[FirstIndex(s, sep) + 1..]
  {
    var parts := Split(s, sep);
    var e := FirstIndex(s, sep);
    assert s == parts[0] + [sep] + Join(parts[1..], sep);
  }

  /** A string splits into a single piece exactly when it holds no separator. */
  lemma SplitSingle(s: string, sep: char)
    ensures |Split(s, sep)| == 1 <==> sep !in s
  {
    if sep in s {
      FirstPiece(s, sep);
    } else {
      SplitPieceFree(s, sep);
    }
  }

  /** No separator after position `j` means the last piece starts at or before `j`. */
  lemma LastPieceStartBound(s: string, sep: char, j: nat)
    requires j <= |s| && sep !in s[j..]
    ensures LastPieceStart(s, sep) <= j
  {
  }

  /** The last piece starts right after a separator that has none after it. */
  lemma LastPieceStartAt(s: string, sep: char, k: nat)
    requires 0 < k <= |s| && s[k - 1] == sep && sep !in s[k..]
    ensures LastPieceStart(s, sep) == k
  {
    var k' := LastPieceStart(s, sep);
    forall i | k' <= i < |s| ensures s[i] != sep {
      assert s[i] == s[k'..][i - k'];
    }
    forall i | k <= i < |s| ensures s[i] != sep {
      assert s[i] == s[k..][i - k];
    }
  }

  /** The first `c` is the one with no `c` before it. */
  lemma FirstIndexAt(s: string, c: char, i: nat)
    requires i < |s| && s[i] == c && c !in s[..i]
    ensures FirstIndex(s, c) == i
  {
    var i' := FirstIndex(s, c);
    forall j | 0 <= j < i' ensures s[j] != c {
      assert s[j] == s[..i'][j];
    }
    forall j | 0 <= j < i ensures s[j] != c {
      assert s[j] == s[..i][j];
    }
  }
}
