/**
 * The URL shown under each request in the request list (RequestList.tsx):
 * `extractAfterDoubleBraces` drops a leading `{{name}}` placeholder, so that
 * `{{API_URL}}/users` is listed as `/users`.
 */
module RequestList {
  import opened Wrappers
  import opened Text

  /**
   * `input` starts with `{{`, then `n >= 1` characters none of which is `}`,
   * then `}}`: the part `^{{[^}]+}}` of the pattern `/^{{[^}]+}}(.*)$/`.
   */
  predicate PlaceholderPrefix(s: string, n: int) {
    && 1 <= n && n + 4 <= |s|
    && s[0] == '{' && s[1] == '{'
    && (forall i | 2 <= i < n + 2 :: s[i] != '}')
    && s[n + 2] == '}' && s[n + 3] == '}'
  }

  /** The whole pattern: `(.*)$` holds the rest, and `.` matches no line terminator. */
  predicate MatchesAt(s: string, n: int) {
    PlaceholderPrefix(s, n) && forall i | n + 4 <= i < |s| :: !IsLineTerminator(s[i])
  }

  predicate HasLineTerminator(s: string) {
    exists i | 0 <= i < |s| :: IsLineTerminator(s[i])
  }

  /** `input.match(regex)`, as its group 1: the run of non-`}` characters ends at the first `}`. */
  function Capture(s: string): (r: Option<string>)
    ensures r.Some? ==> |r.value| + 4 <= |s| && r.value == s[|s| - |r.value|..]
  {
    if |s| < 2 || s[0] != '{' || s[1] != '{' then None
    else
      var k := IndexOfChar(s[2..], '}');
      if k < 1 || k + 3 >= |s| || s[k + 3] != '}' then None
      else
        var rest := s[k + 4..];
        if HasLineTerminator(rest) then None else Some(rest)
  }

  /** The matcher agrees with the pattern: it matches exactly when some split does, and then its group is that split's rest. */
  lemma CaptureMatches(s: string)
    ensures Capture(s).Some? <==> exists n :: MatchesAt(s, n)
    ensures forall n :: MatchesAt(s, n) ==> Capture(s) == Some(s[n + 4..])
  {
    forall n | MatchesAt(s, n)
      ensures Capture(s) == Some(s[n + 4..])
    {
      MatchedAtFirstBrace(s, n);
    }
    if Capture(s).Some? {
      var k := IndexOfChar(s[2..], '}');
      forall i | 2 <= i < k + 2
        ensures s[i] != '}'
      {
        assert s[i] == s[2..][..k][i - 2];
      }
      assert s[k + 4..] == Capture(s).value;
      forall i | k + 4 <= i < |s|
        ensures !IsLineTerminator(s[i])
      {
        assert s[i] == s[k + 4..][i - (k + 4)];
      }
      assert MatchesAt(s, k);
    }
  }

  /** A split that matches ends its run at the first `}`, so the matcher finds it. */
  lemma MatchedAtFirstBrace(s: string, n: int)
    requires MatchesAt(s, n)
    ensures Capture(s) == Some(s[n + 4..])
  {
    var t := s[2..];
    forall c | c in t[..n]
      ensures c != '}'
    {
      var i :| 0 <= i < n && t[..n][i] == c;
      assert c == s[i + 2];
    }
    IndexOfCharAt(t, '}', n);
    var rest := s[n + 4..];
    forall i | 0 <= i < |rest|
      ensures !IsLineTerminator(rest[i])
    {
      assert rest[i] == s[n + 4 + i];
    }
  }

  /** A string starts with at most one placeholder: the run before `}}` is fixed by the first `}`. */
  lemma PrefixUnique(s: string, n: int, m: int)
    requires PlaceholderPrefix(s, n) && PlaceholderPrefix(s, m)
    ensures n == m
  {
    assert s[n + 2] == '}' && s[m + 2] == '}';
  }

  /**
   * `extractAfterDoubleBraces`: the rest after a leading placeholder, unless
   * there is no such placeholder or the rest is blank; the result is the
   * input itself or a proper suffix of it.
   */
  function ExtractAfterDoubleBraces(input: string): (r: string)
    ensures r == input || (|r| < |input| && r == input[|input| - |r|..])
  {
    match Capture(input)
    case None => input
    case Some(rest) => if Trim(rest) == [] then input else rest
  }

  /**
   * The input changes exactly when it matches the pattern with a rest that is
   * not blank, and then the rest is what is shown.
   */
  lemma ExtractCases(input: string)
    ensures ExtractAfterDoubleBraces(input) != input <==>
      exists n :: MatchesAt(input, n) && Trim(input[n + 4..]) != []
    ensures forall n :: MatchesAt(input, n) && Trim(input[n + 4..]) != [] ==>
      ExtractAfterDoubleBraces(input) == input[n + 4..]
  {
    CaptureMatches(input);
    if Capture(input).Some? {
      var rest := Capture(input).value;
      assert ExtractAfterDoubleBraces(input) == if Trim(rest) == [] then input else rest;
    } else {
      assert ExtractAfterDoubleBraces(input) == input;
    }
  }

  /** An input that does not start with a placeholder is shown as it is. */
  lemma ExtractNoPlaceholder(input: string)
    requires forall n :: !PlaceholderPrefix(input, n)
    ensures ExtractAfterDoubleBraces(input) == input
  {
    ExtractCases(input);
  }

  /** `{{name}}` followed by a rest that is not blank and holds no line break shows the rest, later placeholders in it kept. */
  lemma ExtractAfterPlaceholder(name: string, tail: string)
    requires name != [] && '}' !in name
    requires !HasLineTerminator(tail) && Trim(tail) != []
    ensures ExtractAfterDoubleBraces("{{" + name + "}}" + tail) == tail
  {
    var s := "{{" + name + "}}" + tail;
    PlaceholderThenTail(name, tail);
    MatchedAtFirstBrace(s, |name|);
    assert Capture(s) == Some(tail);
  }

  /** `{{name}}` followed by a rest without line breaks matches the pattern, with that rest as its group. */
  lemma PlaceholderThenTail(name: string, tail: string)
    requires name != [] && '}' !in name && !HasLineTerminator(tail)
    ensures var s := "{{" + name + "}}" + tail;
      MatchesAt(s, |name|) && s[|name| + 4..] == tail
  {
    var s := "{{" + name + "}}" + tail;
    var n := |name|;
    forall i | 2 <= i < n + 2
      ensures s[i] != '}'
    {
      assert s[i] == name[i - 2];
    }
    forall i | n + 4 <= i < |s|
      ensures !IsLineTerminator(s[i])
    {
      assert s[i] == tail[i - (n + 4)];
    }
    assert s[n + 4..] == tail;
  }

  /** A placeholder followed only by white space is shown whole. */
  lemma ExtractBlankRest(input: string, n: int)
    requires PlaceholderPrefix(input, n) && Trim(input[n + 4..]) == []
    ensures ExtractAfterDoubleBraces(input) == input
  {
    if Capture(input).Some? {
      CaptureAt(input, n);
    }
  }

  /** When the input starts with `{{name}}` and the matcher succeeds, its group is the rest after that placeholder. */
  lemma CaptureAt(s: string, n: int)
    requires PlaceholderPrefix(s, n) && Capture(s).Some?
    ensures Capture(s) == Some(s[n + 4..])
  {
    CaptureMatches(s);
    var m :| MatchesAt(s, m);
    PrefixUnique(s, n, m);
  }

  /** A line break anywhere after the placeholder defeats `(.*)$`, so the input is shown whole. */
  lemma ExtractLineBreak(input: string, n: int, i: int)
    requires PlaceholderPrefix(input, n)
    requires n + 4 <= i < |input| && IsLineTerminator(input[i])
    ensures ExtractAfterDoubleBraces(input) == input
  {
    ExtractCases(input);
    forall m | PlaceholderPrefix(input, m)
      ensures !MatchesAt(input, m)
    {
      PrefixUnique(input, n, m);
    }
  }
}
