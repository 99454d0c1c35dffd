/**
 * `substituteVariables` (identical copies in CollectionRunnerModal.tsx and
 * RequestEditor.tsx): for each environment entry in order, every `{{key}}` in
 * the text becomes the entry's value.
 *
 * The source builds `new RegExp("{{" + key + "}}", "g")` and calls
 * `String.replace` with the value. That is literal replace-all only when the
 * key has no regular-expression metacharacter and is not of the form
 * `\d+(,\d*)?` (which the braces turn into a quantifier), and the value has
 * no `$` (which `replace` would read as `$&`, `$1`, ...); the model states
 * those conditions as the precondition of `SubstituteVariables`.
 */
module Substitution {
  import opened Text
  import opened Model

  /** The placeholder text of a variable: `{{key}}`. */
  function Placeholder(key: string): string {
    "{{" + key + "}}"
  }

  /** A character with a meaning inside a JavaScript regular expression. */
  predicate IsRegexMeta(c: char) {
    c in "\\^$.|?*+()[]{}"
  }

  predicate AllDigits(s: string) {
    forall i | 0 <= i < |s| :: IsAsciiDigit(s[i])
  }

  /**
   * A key of the form `\d+(,\d*)?`. Between the two braces of `{{key}}` it
   * reads as a braced quantifier: `{{1}}` is `{` repeated once and then `}`,
   * so it matches `{}`, and `{{2,1}}` is a syntax error.
   */
  predicate QuantifierKey(key: string) {
    || (key != [] && AllDigits(key))
    || exists n | 0 < n < |key| :: key[n] == ',' && AllDigits(key[..n]) && AllDigits(key[n + 1..])
  }

  /**
   * A key that `new RegExp` matches literally: it holds no metacharacter, and
   * the braces around it do not make a quantifier of it.
   */
  predicate LiteralKey(key: string) {
    && (forall i | 0 <= i < |key| :: !IsRegexMeta(key[i]))
    && !QuantifierKey(key)
  }

  /** A key without metacharacters whose first character is not a digit is a literal key. */
  lemma LiteralWhenNotDigitLed(key: string)
    requires key != [] && !IsAsciiDigit(key[0])
    requires forall i | 0 <= i < |key| :: !IsRegexMeta(key[i])
    ensures LiteralKey(key)
  {
    forall n | 0 < n < |key|
      ensures !AllDigits(key[..n])
    {
      assert key[..n][0] == key[0];
    }
  }

  /** The keys `1`, `0` and `2,1` are not matched literally; `API_URL` is. */
  lemma QuantifierKeys()
    ensures !LiteralKey("1") && !LiteralKey("0") && !LiteralKey("2,1")
    ensures LiteralKey("API_URL")
  {
    var k := "2,1";
    assert k[1] == ',' && AllDigits(k[..1]) && AllDigits(k[2..]);
    LiteralWhenNotDigitLed("API_URL");
  }

  /** A replacement that `String.replace` inserts literally. */
  predicate LiteralValue(value: string) {
    '$' !in value
  }

  /** Every entry of the environment is substituted literally. */
  predicate LiteralEnv(env: Env) {
    forall k | 0 <= k < |env| :: LiteralKey(env[k].0) && LiteralValue(env[k].1)
  }

  /** One step of the fold: every `{{key}}` of the entry becomes its value. */
  function ApplyEntry(text: string, entry: (string, string)): string {
    ReplaceAll(text, Placeholder(entry.0), entry.1)
  }

  /** The whole fold over the environment's entries, first entry first. */
  function Substitute(text: string, env: Env): string
    decreases |env|
  {
    if env == [] then text else Substitute(ApplyEntry(text, env[0]), env[1..])
  }

  /** The source's loop over `Object.entries(env)`, reassigning `result`. */
  method SubstituteVariables(text: string, env: Env) returns (result: string)
    requires LiteralEnv(env)
    ensures result == Substitute(text, env)
  {
    result := text;
    for i := 0 to |env|
      invariant Substitute(result, env[i..]) == Substitute(text, env)
    {
      assert env[i..][1..] == env[i + 1..];
      result := ApplyEntry(result, env[i]);
    }
    assert env[|env|..] == [];
  }

  /**
   * One entry's effect: cutting the text at every `{{key}}` gives pieces that
   * hold no `{{key}}` and that the placeholder joins back into the text; the
   * result joins the same pieces with the value instead.
   */
  lemma ApplyEntryReplacesEvery(text: string, key: string, value: string)
    ensures var pieces := Split(text, Placeholder(key));
      && Join(pieces, Placeholder(key)) == text
      && (forall k | 0 <= k < |pieces| :: !Contains(pieces[k], Placeholder(key)))
      && ApplyEntry(text, (key, value)) == Join(pieces, value)
  {
    JoinSplit(text, Placeholder(key));
    SplitPiecesAreFree(text, Placeholder(key));
    ReplaceAllIsSplitJoin(text, Placeholder(key), value);
  }

  /** Entries are applied in order: substituting with `e1 + e2` is substituting with `e1`, then with `e2`. */
  lemma {:induction false} SubstituteAppend(text: string, e1: Env, e2: Env)
    ensures Substitute(text, e1 + e2) == Substitute(Substitute(text, e1), e2)
    decreases |e1|
  {
    if e1 == [] {
      assert e1 + e2 == e2;
    } else {
      assert (e1 + e2)[0] == e1[0];
      assert (e1 + e2)[1..] == e1[1..] + e2;
      SubstituteAppend(ApplyEntry(text, e1[0]), e1[1..], e2);
    }
  }

  /** A text holding none of the environment's placeholders is left unchanged; with no entries, always. */
  lemma {:induction false} SubstituteUnaffected(text: string, env: Env)
    requires forall k | 0 <= k < |env| :: !Contains(text, Placeholder(env[k].0))
    ensures Substitute(text, env) == text
    decreases |env|
  {
    if env != [] {
      ReplaceAllAbsent(text, Placeholder(env[0].0), env[0].1);
      assert forall k | 0 <= k < |env[1..]| :: env[1..][k] == env[k + 1];
      SubstituteUnaffected(text, env[1..]);
    }
  }

  /** The editor's test case: with `API_URL=http://localhost:3000`, `{{API_URL}}/users` resolves to `http://localhost:3000/users`. */
  lemma SubstituteApiUrl()
    ensures Substitute("{{API_URL}}/users", [("API_URL", "http://localhost:3000")]) == "http://localhost:3000/users"
  {
    var s := "{{API_URL}}/users";
    var p := Placeholder("API_URL");
    assert s[..|p|] == p;
    assert s[|p|..] == "/users";
    assert ApplyEntry(s, ("API_URL", "http://localhost:3000")) == "http://localhost:3000/users";
  }
}
