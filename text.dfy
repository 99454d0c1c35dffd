/**
 * The JavaScript string operations the source relies on, stated as functions:
 * `trim`, `split` and `join` with a string separator, `indexOf`, literal
 * replace-all (what `s.replace(new RegExp(p, "g"), v)` does when `p` has no
 * regular-expression metacharacters and `v` no `$`), decimal rendering of
 * numbers.
 */
module Text {
  import opened Wrappers

  /** The line terminators of ECMAScript (what `.` in a regular expression does not match). */
  predicate IsLineTerminator(c: char) {
    c == '\n' || c == '\r' || c == '\U{2028}' || c == '\U{2029}'
  }

  /** ECMAScript white space and line terminators: what `String.prototype.trim` removes. */
  predicate IsWhitespace(c: char) {
    || IsLineTerminator(c)
    || c == '\t' || c == '\U{000B}' || c == '\U{000C}' || c == ' '
    || c == '\U{00A0}' || c == '\U{FEFF}' || c == '\U{1680}'
    || ('\U{2000}' <= c <= '\U{200A}')
    || c == '\U{202F}' || c == '\U{205F}' || c == '\U{3000}'
  }

  /** `s.trimStart()`: the longest suffix of `s` that does not begin with white space. */
  function TrimStart(s: string): (r: string)
    ensures |r| <= |s| && r == s[|s| - |r|..]
    ensures r == [] || !IsWhitespace(r[0])
    ensures forall i | 0 <= i < |s| - |r| :: IsWhitespace(s[i])
  {
    if s != [] && IsWhitespace(s[0]) then TrimStart(s[1..]) else s
  }

  /** `s.trimEnd()`: the longest prefix of `s` that does not end with white space. */
  function TrimEnd(s: string): (r: string)
    ensures |r| <= |s| && r == s[..|r|]
    ensures r == [] || !IsWhitespace(r[|r| - 1])
    ensures forall i | |r| <= i < |s| :: IsWhitespace(s[i])
  {
    if s != [] && IsWhitespace(s[|s| - 1]) then TrimEnd(s[..|s| - 1]) else s
  }

  /** `s.trim()`. */
  function Trim(s: string): string {
    TrimEnd(TrimStart(s))
  }

  /** A string neither starting nor ending with white space is its own trim, and only such a string is. */
  lemma TrimFixpoint(s: string)
    ensures Trim(s) == s <==> (s == [] || (!IsWhitespace(s[0]) && !IsWhitespace(s[|s| - 1])))
  {
    if s != [] && !IsWhitespace(s[0]) && !IsWhitespace(s[|s| - 1]) {
      assert TrimStart(s) == s;
    }
  }

  /** The trim of `s` is empty exactly when every character of `s` is white space. */
  lemma TrimBlank(s: string)
    ensures Trim(s) == [] <==> forall i | 0 <= i < |s| :: IsWhitespace(s[i])
  {
  }

  /** Trimming twice is trimming once. */
  lemma TrimIdempotent(s: string)
    ensures Trim(Trim(s)) == Trim(s)
  {
    var t := Trim(s);
    if t != [] {
      assert t[0] == TrimStart(s)[0];
    }
    TrimFixpoint(t);
  }

  /** The trim of `s` is a piece of `s`: it holds no character `s` does not. */
  lemma TrimWithin(s: string)
    ensures forall c :: c in Trim(s) ==> c in s
  {
    var r := TrimStart(s);
    var t := Trim(s);
    forall c | c in t
      ensures c in s
    {
      var i :| 0 <= i < |t| && t[i] == c;
      assert s[|s| - |r| + i] == c;
    }
  }

  /** `p` occurs in `s` starting at index `i`. */
  predicate OccursAt(s: string, p: string, i: int) {
    0 <= i && i + |p| <= |s| && s[i..i + |p|] == p
  }

  /** `s.includes(p)`. */
  predicate Contains(s: string, p: string) {
    exists i | 0 <= i <= |s| - |p| :: OccursAt(s, p, i)
  }

  /** `s.indexOf(c)`: the first index holding `c`, or -1. */
  function IndexOfChar(s: string, c: char): (k: int)
    ensures -1 <= k < |s|
    ensures k == -1 <==> c !in s
    ensures k >= 0 ==> s[k] == c && c !in s[..k]
  {
    if s == [] then -1
    else if s[0] == c then 0
    else
      var k := IndexOfChar(s[1..], c);
      if k == -1 then -1 else k + 1
  }

  /** The first index holding `c` is the one before which `c` does not occur. */
  lemma IndexOfCharAt(s: string, c: char, n: nat)
    requires n < |s| && s[n] == c && c !in s[..n]
    ensures IndexOfChar(s, c) == n
  {
    var i := IndexOfChar(s, c);
    forall j | 0 <= j < n
      ensures s[j] != c
    {
      assert s[j] == s[..n][j];
    }
    forall j | 0 <= j < i
      ensures s[j] != c
    {
      assert s[j] == s[..i][j];
    }
  }

  /** `s.split(sep)` for a non-empty separator: the pieces between successive leftmost occurrences. */
  function Split(s: string, sep: string): (parts: seq<string>)
    requires |sep| > 0
    ensures |parts| >= 1
    decreases |s|
  {
    if |s| < |sep| then [s]
    else if s[..|sep|] == sep then [""] + Split(s[|sep|..], sep)
    else
      var rest := Split(s[1..], sep);
      [[s[0]] + rest[0]] + rest[1..]
  }

  /** `parts.join(sep)`. */
  function Join(parts: seq<string>, sep: string): string {
    if |parts| == 0 then ""
    else if |parts| == 1 then parts[0]
    else parts[0] + sep + Join(parts[1..], sep)
  }

  /** Literal replace-all: every leftmost, non-overlapping occurrence of `pat` in `s` becomes `v`. */
  function ReplaceAll(s: string, pat: string, v: string): string
    requires |pat| > 0
    decreases |s|
  {
    if |s| < |pat| then s
    else if s[..|pat|] == pat then v + ReplaceAll(s[|pat|..], pat, v)
    else [s[0]] + ReplaceAll(s[1..], pat, v)
  }

  lemma JoinConsFirst(c: char, parts: seq<string>, sep: string)
    requires |parts| >= 1
    ensures Join([[c] + parts[0]] + parts[1..], sep) == [c] + Join(parts, sep)
  {
    var q := [[c] + parts[0]] + parts[1..];
    if |parts| > 1 {
      assert q[1..] == parts[1..];
    }
  }

  /** Replacing every occurrence of `pat` by `v` is splitting at `pat` and joining with `v`. */
  lemma {:induction false} ReplaceAllIsSplitJoin(s: string, pat: string, v: string)
    requires |pat| > 0
    ensures ReplaceAll(s, pat, v) == Join(Split(s, pat), v)
    decreases |s|
  {
    if |s| < |pat| {
    } else if s[..|pat|] == pat {
      ReplaceAllIsSplitJoin(s[|pat|..], pat, v);
      var rest := Split(s[|pat|..], pat);
      assert ([""] + rest)[1..] == rest;
    } else {
      ReplaceAllIsSplitJoin(s[1..], pat, v);
      JoinConsFirst(s[0], Split(s[1..], pat), v);
    }
  }

  /** Joining the pieces of a split with the separator gives back the string. */
  lemma {:induction false} JoinSplit(s: string, sep: string)
    requires |sep| > 0
    ensures Join(Split(s, sep), sep) == s
    decreases |s|
  {
    if |s| < |sep| {
    } else if s[..|sep|] == sep {
      var rest := Split(s[|sep|..], sep);
      assert Split(s, sep) == [""] + rest;
      JoinSplit(s[|sep|..], sep);
      JoinConsEmpty(rest, sep);
      assert s == sep + s[|sep|..];
    } else {
      var rest := Split(s[1..], sep);
      assert Split(s, sep) == [[s[0]] + rest[0]] + rest[1..];
      JoinSplit(s[1..], sep);
      JoinConsFirst(s[0], rest, sep);
      assert s == [s[0]] + s[1..];
    }
  }

  lemma JoinConsEmpty(parts: seq<string>, sep: string)
    requires |parts| >= 1
    ensures Join([""] + parts, sep) == sep + Join(parts, sep)
  {
    assert ([""] + parts)[1..] == parts;
  }

  /** The first piece of a split is a prefix of the string. */
  lemma SplitFirstIsPrefix(s: string, sep: string)
    requires |sep| > 0
    ensures |Split(s, sep)[0]| <= |s| && s[..|Split(s, sep)[0]|] == Split(s, sep)[0]
  {
    JoinSplit(s, sep);
    var parts := Split(s, sep);
    if |parts| > 1 {
      assert s == parts[0] + (sep + Join(parts[1..], sep));
    }
  }

  /** No piece of a split contains the separator: every occurrence was cut out. */
  lemma {:induction false} SplitPiecesAreFree(s: string, sep: string)
    requires |sep| > 0
    ensures forall k | 0 <= k < |Split(s, sep)| :: !Contains(Split(s, sep)[k], sep)
    decreases |s|
  {
    if |s| < |sep| {
    } else if s[..|sep|] == sep {
      SplitPiecesAreFree(s[|sep|..], sep);
      var rest := Split(s[|sep|..], sep);
      assert Split(s, sep) == [""] + rest;
    } else {
      SplitPiecesAreFree(s[1..], sep);
      var rest := Split(s[1..], sep);
      var first := [s[0]] + rest[0];
      SplitFirstIsPrefix(s[1..], sep);
      assert first == s[..|first|];
      PrependKeepsFree(s, rest[0], sep);
      assert Split(s, sep) == [first] + rest[1..];
      forall k | 0 <= k < |Split(s, sep)|
        ensures !Contains(Split(s, sep)[k], sep)
      {
        if k > 0 {
          assert Split(s, sep)[k] == rest[k];
        }
      }
    }
  }

  /** A prefix of `s` that is its first character followed by a separator-free piece is itself separator-free, when `s` does not start with the separator. */
  lemma PrependKeepsFree(s: string, piece: string, sep: string)
    requires |sep| > 0 && s != [] && !OccursAt(s, sep, 0)
    requires |[s[0]] + piece| <= |s| && [s[0]] + piece == s[..|[s[0]] + piece|]
    requires !Contains(piece, sep)
    ensures !Contains([s[0]] + piece, sep)
  {
    var first := [s[0]] + piece;
    forall i | 0 <= i <= |first| - |sep| && OccursAt(first, sep, i)
      ensures false
    {
      if i != 0 {
        assert piece[i - 1..i - 1 + |sep|] == first[i..i + |sep|];
        assert OccursAt(piece, sep, i - 1);
      }
    }
  }

  /** A string with no occurrence of the separator splits into itself alone. */
  lemma {:induction false} SplitAbsent(s: string, sep: string)
    requires |sep| > 0
    requires !Contains(s, sep)
    ensures Split(s, sep) == [s]
    decreases |s|
  {
    if |s| < |sep| {
    } else {
      assert !OccursAt(s, sep, 0);
      forall i | 0 <= i <= |s[1..]| - |sep| && OccursAt(s[1..], sep, i)
        ensures false
      {
        assert s[1..][i..i + |sep|] == s[i + 1..i + 1 + |sep|];
        assert OccursAt(s, sep, i + 1);
      }
      SplitAbsent(s[1..], sep);
      assert [s[0]] + s[1..] == s;
    }
  }

  /** Replacing a pattern that does not occur changes nothing. */
  lemma ReplaceAllAbsent(s: string, pat: string, v: string)
    requires |pat| > 0
    requires !Contains(s, pat)
    ensures ReplaceAll(s, pat, v) == s
  {
    ReplaceAllIsSplitJoin(s, pat, v);
    SplitAbsent(s, pat);
  }

  /** Splitting at a one-character separator, before which stands a piece free of it, cuts right there. */
  lemma {:induction false} SplitAfterPiece(a: string, c: char, t: string)
    requires c !in a
    ensures Split(a + [c] + t, [c]) == [a] + Split(t, [c])
    decreases |a|
  {
    var s := a + [c] + t;
    if a == [] {
      assert s[..1] == [c];
      assert s[1..] == t;
    } else {
      assert s[0] == a[0] && s[..1] != [c];
      assert s[1..] == a[1..] + [c] + t;
      SplitAfterPiece(a[1..], c, t);
      assert [a[0]] + a[1..] == a;
    }
  }

  /** Splitting a join at a one-character separator that no piece contains gives the pieces back. */
  lemma {:induction false} SplitJoin(parts: seq<string>, c: char)
    requires |parts| >= 1
    requires forall k | 0 <= k < |parts| :: c !in parts[k]
    ensures Split(Join(parts, [c]), [c]) == parts
    decreases |parts|
  {
    if |parts| == 1 {
      var s := parts[0];
      forall i | 0 <= i < |s|
        ensures !OccursAt(s, [c], i)
      {
        assert s[i..i + 1] == [s[i]];
      }
      SplitAbsent(s, [c]);
    } else {
      SplitJoin(parts[1..], c);
      assert Join(parts, [c]) == parts[0] + [c] + Join(parts[1..], [c]);
      SplitAfterPiece(parts[0], c, Join(parts[1..], [c]));
      assert [parts[0]] + parts[1..] == parts;
    }
  }

  /** A value interpolated into a template literal: `undefined` when absent. */
  function Interpolated(s: Option<string>): string {
    s.GetOr("undefined")
  }

  /** `\d` of a JavaScript regular expression (no `u` flag): an ASCII digit. */
  predicate IsAsciiDigit(c: char) {
    '0' <= c <= '9'
  }

  function DigitChar(d: nat): char
    requires d < 10
  {
    "0123456789"[d]
  }

  /** The decimal digits of `n`, most significant first, no leading zero. */
  function NatToString(n: nat): (r: string)
    ensures |r| >= 1
    decreases n
  {
    if n < 10 then [DigitChar(n)] else NatToString(n / 10) + [DigitChar(n % 10)]
  }

  /** `String(n)` for an integer. */
  function IntToString(n: int): string {
    if n < 0 then "-" + NatToString(-n) else NatToString(n)
  }
}
