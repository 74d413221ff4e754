/**
 * The ECMAScript string operations the extension's scripts rely on, over
 * `string` (a sequence of Unicode scalar values, where JavaScript has UTF-16
 * code units): `trim`, `toLowerCase` on ASCII letters, `includes` with the
 * `indexOf` search it rests on, and `split` with a non-empty separator.
 */
module Text {
  import opened Results

  /** Whether `trim()` strips `c`: the WhiteSpace and LineTerminator code points
      of ECMAScript (tab, line tabulation, form feed, space, no-break space,
      zero-width no-break space, every space separator, LF, CR, LS and PS). */
  predicate IsTrimmable(c: char) {
    || c == '\t' || c == '\n' || c == '\U{000B}' || c == '\U{000C}' || c == '\r'
    || c == ' ' || c == '\U{00A0}' || c == '\U{1680}'
    || ('\U{2000}' <= c <= '\U{200A}')
    || c == '\U{2028}' || c == '\U{2029}' || c == '\U{202F}' || c == '\U{205F}'
    || c == '\U{3000}' || c == '\U{FEFF}'
  }

  predicate AllTrimmable(s: string) {
    forall i :: 0 <= i < |s| ==> IsTrimmable(s[i])
  }

  // ---------------------------------------------------------------------
  // Occurrences of a pattern
  // ---------------------------------------------------------------------

  /** `pat` occurs in `s` starting at index `i`. */
  predicate OccursAt(s: string, pat: string, i: int) {
    0 <= i && i + |pat| <= |s| && s[i..i + |pat|] == pat
  }

  ghost predicate Occurs(s: string, pat: string) {
    exists i :: OccursAt(s, pat, i)
  }

  /** An occurrence inside a prefix of `s` is an occurrence in `s`. */
  lemma OccursInPrefix(s: string, pat: string, n: nat, j: int)
    requires n <= |s| && OccursAt(s[..n], pat, j)
    ensures OccursAt(s, pat, j)
  {
    assert s[..n][j..j + |pat|] == s[j..j + |pat|];
  }

  /** Occurrences in a suffix of `s` are occurrences in `s`, shifted. */
  lemma OccursInSuffix(s: string, pat: string, n: nat, j: int)
    requires n <= |s|
    ensures OccursAt(s[n..], pat, j) <==> j >= 0 && OccursAt(s, pat, n + j)
  {
    if 0 <= j && j + |pat| <= |s| - n {
      assert s[n..][j..j + |pat|] == s[n + j..n + j + |pat|];
    }
  }

  /** A single-character pattern occurs exactly when the character does. */
  lemma CharOccurs(s: string, c: char)
    ensures Occurs(s, [c]) <==> c in s
  {
    if c in s {
      var i :| 0 <= i < |s| && s[i] == c;
      assert s[i..i + 1] == [c];
      assert OccursAt(s, [c], i);
    }
    if Occurs(s, [c]) {
      var i :| OccursAt(s, [c], i);
      assert s[i] == s[i..i + 1][0];
    }
  }

  /** `s.indexOf(pat, from)`: the first occurrence at or after `from`, if any. */
  function IndexOfFrom(s: string, pat: string, from: nat): (r: Option<nat>)
    decreases |s| - from
    ensures r.Some? ==> from <= r.value && OccursAt(s, pat, r.value)
    ensures r.Some? ==> forall j :: from <= j < r.value ==> !OccursAt(s, pat, j)
    ensures r.None? ==> forall j :: from <= j ==> !OccursAt(s, pat, j)
  {
    if from + |pat| > |s| then None
    else if s[from..from + |pat|] == pat then Some(from)
    else IndexOfFrom(s, pat, from + 1)
  }

  /** `s.indexOf(pat)`: the first occurrence of `pat` in `s`. */
  function IndexOf(s: string, pat: string): (r: Option<nat>)
    ensures r.None? <==> !Occurs(s, pat)
    ensures r.Some? ==> OccursAt(s, pat, r.value)
    ensures r.Some? ==> forall j :: 0 <= j < r.value ==> !OccursAt(s, pat, j)
  {
    IndexOfFrom(s, pat, 0)
  }

  /** `s.includes(pat)`; every string includes the empty string. */
  function Includes(s: string, pat: string): (b: bool)
    ensures pat == "" ==> b
  {
    assert pat == "" ==> OccursAt(s, pat, 0) by {
      if pat == "" { assert s[0..0] == pat; }
    }
    IndexOf(s, pat).Some?
  }

  /** `includes` answers whether the pattern occurs. */
  lemma IncludesOccurs(s: string, pat: string)
    ensures Includes(s, pat) <==> Occurs(s, pat)
  {
  }

  // ---------------------------------------------------------------------
  // split
  // ---------------------------------------------------------------------

  /** `p` is what `s.split(sep)[0]` is: the prefix of `s` that ends where the
      first occurrence of `sep` starts, or all of `s` when there is none. */
  ghost predicate IsFirstPiece(s: string, sep: string, p: string) {
    && |p| <= |s| && p == s[..|p|]
    && (forall j :: 0 <= j < |p| ==> !OccursAt(s, sep, j))
    && (|p| == |s| || OccursAt(s, sep, |p|))
  }

  /** The description of the first piece determines it. */
  lemma FirstPieceUnique(s: string, sep: string, p: string, q: string)
    requires IsFirstPiece(s, sep, p) && IsFirstPiece(s, sep, q)
    ensures p == q
  {
  }

  /** The first piece holds no separator. */
  lemma FirstPieceHasNoSeparator(s: string, sep: string, p: string)
    requires sep != "" && IsFirstPiece(s, sep, p)
    ensures !Occurs(p, sep)
  {
    forall j ensures !OccursAt(p, sep, j) {
      if OccursAt(p, sep, j) {
        OccursInPrefix(s, sep, |p|, j);
      }
    }
  }

  /** A character that does not start a separator extends the first piece
      of what follows it. */
  lemma PieceExtends(s: string, sep: string, rest: string)
    requires |s| >= |sep| && s[..|sep|] != sep
    requires IsFirstPiece(s[1..], sep, rest)
    ensures IsFirstPiece(s, sep, [s[0]] + rest)
  {
    var p := [s[0]] + rest;
    assert p == s[..|p|];
    assert s[0..|sep|] == s[..|sep|];
    forall j | 0 <= j <= |rest| ensures OccursAt(s[1..], sep, j) <==> OccursAt(s, sep, j + 1) {
      OccursInSuffix(s, sep, 1, j);
    }
    forall j | 0 <= j < |p| ensures !OccursAt(s, sep, j) {
      if j > 0 {
        assert !OccursAt(s[1..], sep, j - 1);
      }
    }
  }

  /** The piece of `s` before its first separator, scanning left to right:
      a separator starting at the current position ends the piece, any other
      character joins it. */
  function Piece(s: string, sep: string): (p: string)
    requires sep != ""
    decreases |s|
    ensures IsFirstPiece(s, sep, p)
  {
    if |s| < |sep| then s
    else if s[..|sep|] == sep then ""
    else
      var rest := Piece(s[1..], sep);
      PieceExtends(s, sep, rest);
      [s[0]] + rest
  }

  /** `s.split(sep)` for a non-empty separator: the first piece, then the
      pieces of what follows its separator. */
  function Split(s: string, sep: string): (parts: seq<string>)
    requires sep != ""
    decreases |s|
    ensures |parts| >= 1 && parts[0] == Piece(s, sep)
    ensures |parts| == 1 <==> |parts[0]| == |s|
  {
    var p := Piece(s, sep);
    if |p| == |s| then [s] else [p] + Split(s[|p| + |sep|..], sep)
  }

  /** There is a single piece exactly when `sep` does not occur. */
  lemma SplitsExactlyAtSeparators(s: string, sep: string)
    requires sep != ""
    ensures |Split(s, sep)| == 1 <==> !Occurs(s, sep)
  {
    var p := Split(s, sep)[0];
    if |p| == |s| {
      forall j ensures !OccursAt(s, sep, j) {
        if 0 <= j < |p| {
          assert !OccursAt(s, sep, j);
        }
      }
    } else {
      assert OccursAt(s, sep, |p|);
    }
  }

  /** After the first piece and the separator, the pieces are those of the rest. */
  lemma SplitStep(s: string, sep: string)
    requires sep != "" && |Piece(s, sep)| < |s|
    ensures Split(s, sep) == [Piece(s, sep)] + Split(s[|Piece(s, sep)| + |sep|..], sep)
  {
  }

  /** Cutting `s` around an occurrence of `pat` and gluing it back is the identity. */
  lemma Reassemble(s: string, pat: string, i: int)
    requires OccursAt(s, pat, i)
    ensures s[..i] + pat + s[i + |pat|..] == s
  {
    assert s == s[..i] + s[i..i + |pat|] + s[i + |pat|..];
  }

  /** The inverse of `Split`: the pieces glued back with the separator. */
  function Join(parts: seq<string>, sep: string): string
    requires |parts| >= 1
  {
    if |parts| == 1 then parts[0] else parts[0] + sep + Join(parts[1..], sep)
  }

  /** Splitting loses nothing: joining the pieces rebuilds the string. */
  lemma {:induction false} JoinSplit(s: string, sep: string)
    requires sep != ""
    decreases |s|
    ensures Join(Split(s, sep), sep) == s
  {
    var p := Piece(s, sep);
    if |p| < |s| {
      SplitStep(s, sep);
      JoinSplit(s[|p| + |sep|..], sep);
      Reassemble(s, sep, |p|);
    }
  }

  /** When the first occurrence of `sep` is the one right after `head`,
      `head` is the first piece and the rest splits on its own. */
  lemma SplitAfterHead(head: string, sep: string, rest: string)
    requires sep != ""
    requires forall j :: 0 <= j < |head| ==> !OccursAt(head + sep + rest, sep, j)
    ensures Split(head + sep + rest, sep) == [head] + Split(rest, sep)
  {
    var s := head + sep + rest;
    assert s[..|head|] == head && s[|head|..|head| + |sep|] == sep;
    FirstPieceUnique(s, sep, head, Piece(s, sep));
    SplitStep(s, sep);
    assert s[|head| + |sep|..] == rest;
  }

  // ---------------------------------------------------------------------
  // trim
  // ---------------------------------------------------------------------

  /** A text that already starts and ends with visible characters is its
      own trim, and only such a text (or the empty one) is. */
  lemma TrimFixedPoints(s: string)
    ensures Trim(s) == s <==> s == [] || (!IsTrimmable(s[0]) && !IsTrimmable(s[|s| - 1]))
  {
  }

  /** Drops the leading trimmable characters. */
  function TrimStart(s: string): (r: string)
    decreases |s|
    ensures |r| <= |s| && r == s[|s| - |r|..]
    ensures forall i :: 0 <= i < |s| - |r| ==> IsTrimmable(s[i])
    ensures r == [] || !IsTrimmable(r[0])
  {
    if s != [] && IsTrimmable(s[0]) then TrimStart(s[1..]) else s
  }

  /** Nothing is left of `s` exactly when all of it is trimmable. */
  lemma TrimStartEmpty(s: string)
    ensures TrimStart(s) == [] <==> AllTrimmable(s)
  {
    var t := TrimStart(s);
    if t != [] {
      assert s[|s| - |t|] == t[0];
    }
  }

  /** Drops the trailing trimmable characters. */
  function TrimEnd(s: string): (r: string)
    decreases |s|
    ensures |r| <= |s| && r == s[..|r|]
    ensures forall i :: |r| <= i < |s| ==> IsTrimmable(s[i])
    ensures r == [] || !IsTrimmable(r[|r| - 1])
  {
    if s != [] && IsTrimmable(s[|s| - 1]) then TrimEnd(s[..|s| - 1]) else s
  }

  /** Dropping the trailing whitespace of a string that starts with a visible
      character keeps that character. */
  lemma TrimEndKeepsStart(t: string)
    requires t == [] || !IsTrimmable(t[0])
    ensures TrimEnd(t) == [] <==> t == []
    ensures t != [] ==> TrimEnd(t)[0] == t[0]
  {
  }

  /** A prefix of a suffix of `s` occurs in `s` where the suffix starts. */
  lemma PrefixOfSuffix(s: string, t: string, r: string)
    requires |t| <= |s| && t == s[|s| - |t|..]
    requires |r| <= |t| && r == t[..|r|]
    ensures OccursAt(s, r, |s| - |t|)
  {
    var k := |s| - |t|;
    assert s[k..k + |r|] == s[k..][..|r|];
  }

  /** `s.trim()`: the contiguous part of `s` left once whitespace and line
      terminators are removed from both ends. */
  function Trim(s: string): (r: string)
    ensures r == [] <==> AllTrimmable(s)
    ensures r != [] ==> !IsTrimmable(r[0]) && !IsTrimmable(r[|r| - 1])
    ensures Occurs(s, r)
  {
    var t := TrimStart(s);
    TrimStartEmpty(s);
    TrimEndKeepsStart(t);
    PrefixOfSuffix(s, t, TrimEnd(t));
    TrimEnd(t)
  }

  /** `r` is `s` with exactly `k` characters removed in front and the rest
      of the removed characters behind, all of them trimmable. */
  ghost predicate StripsTo(s: string, r: string, k: int) {
    && 0 <= k && k + |r| <= |s| && r == s[k..k + |r|]
    && AllTrimmable(s[..k]) && AllTrimmable(s[k + |r|..])
  }

  /** `trim` removes whitespace and line terminators only: what lies before
      and after the result in `s` is all trimmable. */
  lemma TrimRemovesOnlyEnds(s: string)
    ensures exists k :: StripsTo(s, Trim(s), k)
  {
    var t := TrimStart(s);
    var r := TrimEnd(t);
    var k := |s| - |t|;
    assert Trim(s) == r;
    assert r == s[k..k + |r|] by {
      assert t == s[k..];
      assert r == t[..|r|];
    }
    assert AllTrimmable(s[..k]) by {
      forall i | 0 <= i < k ensures IsTrimmable(s[..k][i]) {
        assert s[..k][i] == s[i];
      }
    }
    assert AllTrimmable(s[k + |r|..]) by {
      assert s[k + |r|..] == t[|r|..];
      forall i | 0 <= i < |t| - |r| ensures IsTrimmable(t[|r|..][i]) {
        assert t[|r|..][i] == t[|r| + i];
      }
    }
    assert StripsTo(s, r, k);
  }

  /** Leading trimmable characters up to a visible one are exactly what
      `TrimStart` drops. */
  lemma {:induction false} TrimStartSkips(s: string, k: nat)
    requires k <= |s| && AllTrimmable(s[..k]) && (k == |s| || !IsTrimmable(s[k]))
    decreases k
    ensures TrimStart(s) == s[k..]
  {
    if k > 0 {
      assert IsTrimmable(s[..k][0]);
      var v := s[1..][..k - 1];
      forall i | 0 <= i < |v| ensures IsTrimmable(v[i]) {
        assert v[i] == s[..k][i + 1];
      }
      TrimStartSkips(s[1..], k - 1);
      assert s[1..][k - 1..] == s[k..];
    }
  }

  /** Trailing trimmable characters after a visible one are exactly what
      `TrimEnd` drops. */
  lemma {:induction false} TrimEndSkips(s: string, n: nat)
    requires n <= |s| && AllTrimmable(s[n..]) && (n == 0 || !IsTrimmable(s[n - 1]))
    decreases |s| - n
    ensures TrimEnd(s) == s[..n]
  {
    if n < |s| {
      var u := s[..|s| - 1];
      assert IsTrimmable(s[n..][|s| - 1 - n]);
      forall i | 0 <= i < |u| - n ensures IsTrimmable(u[n..][i]) {
        assert u[n..][i] == s[n..][i];
      }
      TrimEndSkips(u, n);
      assert u[..n] == s[..n];
    }
  }

  /** `trim` is the only way to strip trimmable characters from the ends of
      `s` that leaves visible characters at both ends (or nothing). */
  lemma TrimUnique(s: string, r: string, k: int)
    requires StripsTo(s, r, k)
    requires r == [] || (!IsTrimmable(r[0]) && !IsTrimmable(r[|r| - 1]))
    ensures Trim(s) == r
  {
    if r == [] {
      forall i | 0 <= i < |s| ensures IsTrimmable(s[i]) {
        if i < k { assert s[i] == s[..k][i]; } else { assert s[i] == s[k..][i - k]; }
      }
    } else {
      assert s[k] == r[0];
      TrimStartSkips(s, k);
      var t := s[k..];
      assert t[..|r|] == r && t[|r|..] == s[k + |r|..];
      TrimEndSkips(t, |r|);
    }
  }

  /** Trimming a string that already has no whitespace at its ends is a no-op;
      in particular trimming is idempotent. */
  lemma TrimIdempotent(s: string)
    ensures Trim(Trim(s)) == Trim(s)
  {
    var r := Trim(s);
    if r != [] {
      assert TrimStart(r) == r;
      assert TrimEnd(r) == r;
    }
  }

  // ---------------------------------------------------------------------
  // toLowerCase (ASCII letters)
  // ---------------------------------------------------------------------

  function LowerChar(c: char): char {
    if 'A' <= c <= 'Z' then (c as int + 32) as char else c
  }

  function UpperChar(c: char): char {
    if 'a' <= c <= 'z' then (c as int - 32) as char else c
  }

  /** `s.toLowerCase()`, folding the ASCII letters. */
  function ToLower(s: string): string {
    seq(|s|, i requires 0 <= i < |s| => LowerChar(s[i]))
  }

  /** `s.toUpperCase()`, folding the ASCII letters. */
  function ToUpper(s: string): string {
    seq(|s|, i requires 0 <= i < |s| => UpperChar(s[i]))
  }

  /** Lower-casing forgets the case a string was written in. */
  lemma LowerForgetsCase(s: string)
    ensures ToLower(ToUpper(s)) == ToLower(s)
    ensures ToLower(ToLower(s)) == ToLower(s)
  {
  }
}
