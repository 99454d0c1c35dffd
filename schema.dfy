/**
 * schemaUtils.ts: `validateSchema` checks a response against a JSON Schema
 * with Ajv and condenses Ajv's error list into one line per distinct
 * (masked path, message) pair; `generateSchemaFromData` infers a schema from
 * a sample value.
 *
 * Ajv itself is an oracle: given the parsed schema and the data it either
 * fails to compile the schema (it throws) or answers valid / invalid with its
 * list of errors, each a `dataPath` and an optional `message`.
 */
module SchemaUtils {
  import opened Wrappers
  import opened Json
  import opened Text

  // ---------------------------------------------------------------------
  // Index masking: `dataPath.replace(/\[\d+\]/g, '[*]')`
  // ---------------------------------------------------------------------

  /** The length of the run of digits that `s` starts with. */
  function DigitsPrefix(s: string): (d: nat)
    ensures d <= |s|
    ensures forall i | 0 <= i < d :: IsAsciiDigit(s[i])
    ensures d == |s| || !IsAsciiDigit(s[d])
  {
    if s != [] && IsAsciiDigit(s[0]) then 1 + DigitsPrefix(s[1..]) else 0
  }

  /** An index segment `[` digits `]` starts at position `i` of `s`. */
  predicate IndexSegmentAt(s: string, i: int) {
    && 0 <= i < |s| && s[i] == '['
    && var d := DigitsPrefix(s[i + 1..]);
       d > 0 && i + 1 + d < |s| && s[i + 1 + d] == ']'
  }

  predicate HasIndexSegment(s: string) {
    exists i | 0 <= i < |s| :: IndexSegmentAt(s, i)
  }

  /** Every index segment, leftmost first, becomes `[*]`; every other character is copied. */
  function MaskIndices(s: string): (r: string)
    ensures |r| <= |s|
    decreases |s|
  {
    if s == [] then []
    else if IndexSegmentAt(s, 0) then "[*]" + MaskIndices(s[DigitsPrefix(s[1..]) + 2..])
    else [s[0]] + MaskIndices(s[1..])
  }

  /** An index segment of a suffix is one of the whole string, shifted. */
  lemma SegmentInSuffix(p: string, x: string, i: int)
    requires 0 <= i
    ensures IndexSegmentAt(p + x, |p| + i) <==> IndexSegmentAt(x, i)
  {
    if 0 <= i < |x| {
      assert (p + x)[|p| + i + 1..] == x[i + 1..];
    }
  }

  /** A string that starts with digits keeps them: masking begins after the run. */
  lemma {:induction false} MaskKeepsDigits(t: string)
    ensures MaskIndices(t) == t[..DigitsPrefix(t)] + MaskIndices(t[DigitsPrefix(t)..])
    decreases |t|
  {
    var d := DigitsPrefix(t);
    if d > 0 {
      var u := t[1..];
      assert DigitsPrefix(u) == d - 1;
      MaskKeepsDigits(u);
      MaskCopiesFirst(t);
      var mt, mu, mr := MaskIndices(t), MaskIndices(u), MaskIndices(t[d..]);
      assert u[d - 1..] == t[d..];
      assert mu == u[..d - 1] + mr;
      assert mt == [t[0]] + mu;
      Prepend(t, d, mt, mu, mr);
    } else {
      assert t[..0] == [] && t[0..] == t;
    }
  }

  /** Masking a string that does not start with `]` gives one that does not either. */
  lemma MaskKeepsNoClose(u: string)
    requires |u| > 0 && u[0] != ']'
    ensures |MaskIndices(u)| > 0 && MaskIndices(u)[0] != ']'
  {
  }

  /** Masking leaves no index segment behind. */
  lemma {:induction false} MaskLeavesNoSegment(s: string)
    ensures !HasIndexSegment(MaskIndices(s))
    decreases |s|
  {
    if s == [] {
    } else if IndexSegmentAt(s, 0) {
      var rest := s[DigitsPrefix(s[1..]) + 2..];
      MaskLeavesNoSegment(rest);
      StarThenNoSegment(MaskIndices(rest));
    } else {
      MaskLeavesNoSegment(s[1..]);
      CopiedThenNoSegment(s);
    }
  }

  /** `[*]` followed by a string without index segments has none. */
  lemma StarThenNoSegment(x: string)
    requires !HasIndexSegment(x)
    ensures !HasIndexSegment("[*]" + x)
  {
    var m := "[*]" + x;
    forall i | 0 <= i < |m|
      ensures !IndexSegmentAt(m, i)
    {
      if i >= 3 {
        SegmentInSuffix("[*]", x, i - 3);
      } else {
        assert m[i] != '[' || DigitsPrefix(m[i + 1..]) == 0;
      }
    }
  }

  /** A copied first character followed by a masked rest without index segments gives none. */
  lemma CopiedThenNoSegment(s: string)
    requires s != [] && !IndexSegmentAt(s, 0)
    requires !HasIndexSegment(MaskIndices(s[1..]))
    ensures !HasIndexSegment(MaskIndices(s))
  {
    var r := MaskIndices(s[1..]);
    MaskCopiesFirst(s);
    CopiedFirstStartsNoSegment(s);
    NoSegmentAfterFirst(s[0], r);
  }

  /** A character that starts no index segment, followed by a string without any, gives none. */
  lemma NoSegmentAfterFirst(c: char, r: string)
    requires !HasIndexSegment(r)
    requires !IndexSegmentAt([c] + r, 0)
    ensures !HasIndexSegment([c] + r)
  {
    var m := [c] + r;
    forall i | 1 <= i < |m|
      ensures !IndexSegmentAt(m, i)
    {
      SegmentInSuffix([c], r, i - 1);
    }
  }

  /** A first character copied by masking does not start an index segment of the result. */
  lemma CopiedFirstStartsNoSegment(s: string)
    requires s != [] && !IndexSegmentAt(s, 0)
    ensures !IndexSegmentAt([s[0]] + MaskIndices(s[1..]), 0)
  {
    var t := s[1..];
    var m := [s[0]] + MaskIndices(t);
    if s[0] == '[' {
      MaskKeepsDigits(t);
      var d := DigitsPrefix(t);
      assert m[1..] == MaskIndices(t);
      assert MaskIndices(t)[..d] == t[..d];
      assert MaskIndices(t)[d..] == MaskIndices(t[d..]);
      DigitsOfPrefix(MaskIndices(t), t, d);
      if d > 0 && 1 + d < |m| {
        assert d < |t|;
        assert t[d] != ']';
        MaskKeepsNoClose(t[d..]);
        assert m[1 + d] == MaskIndices(t[d..])[0];
      }
    }
  }

  /** Two strings sharing their first `d` characters, all digits, and disagreeing on the digit-ness of the next, have the same digit run. */
  lemma {:induction false} DigitsOfPrefix(a: string, b: string, d: nat)
    requires d <= |a| && d <= |b| && a[..d] == b[..d]
    requires d == DigitsPrefix(b)
    requires d == |a| || d == |b| || IsAsciiDigit(a[d]) == IsAsciiDigit(b[d])
    requires d < |b| || d == |a| || !IsAsciiDigit(a[d])
    ensures DigitsPrefix(a) == d
    decreases d
  {
    if d > 0 {
      assert a[0] == a[..d][0] == b[..d][0] == b[0];
      assert a[1..][..d - 1] == a[..d][1..] && b[1..][..d - 1] == b[..d][1..];
      DigitsOfPrefix(a[1..], b[1..], d - 1);
    }
  }

  /** Masking a string that has an index segment changes it. */
  lemma {:induction false} MaskChangesSegment(s: string)
    requires HasIndexSegment(s)
    ensures MaskIndices(s) != s
    decreases |s|
  {
    if !IndexSegmentAt(s, 0) {
      SegmentInRest(s);
      MaskChangesSegment(s[1..]);
      ChangedAfterCopy(s);
    } else {
      ChangedAtSegment(s);
    }
  }

  /** An index segment that does not start the string lies in its rest. */
  lemma SegmentInRest(s: string)
    requires HasIndexSegment(s) && !IndexSegmentAt(s, 0)
    ensures HasIndexSegment(s[1..])
  {
    var i :| 0 <= i < |s| && IndexSegmentAt(s, i);
    assert [s[0]] + s[1..] == s;
    SegmentInSuffix([s[0]], s[1..], i - 1);
    assert IndexSegmentAt(s[1..], i - 1);
  }

  /** A copied first character in front of a changed rest gives a changed string. */
  lemma ChangedAfterCopy(s: string)
    requires s != [] && !IndexSegmentAt(s, 0)
    requires MaskIndices(s[1..]) != s[1..]
    ensures MaskIndices(s) != s
  {
    MaskCopiesFirst(s);
    var m, mt := MaskIndices(s), MaskIndices(s[1..]);
    assert m[1..] == mt;
  }

  /** A segment at the start is changed: its first digit becomes `*`. */
  lemma ChangedAtSegment(s: string)
    requires IndexSegmentAt(s, 0)
    ensures MaskIndices(s) != s
  {
    MaskSegmentAtStart(s);
    var m, mr := MaskIndices(s), MaskIndices(s[DigitsPrefix(s[1..]) + 2..]);
    assert m == "[*]" + mr;
    assert m[1] == '*';
    assert IsAsciiDigit(s[1..][0]);
  }

  /** A path is left as it is exactly when it has no index segment. */
  lemma {:induction false} MaskUnchanged(s: string)
    ensures MaskIndices(s) == s <==> !HasIndexSegment(s)
    decreases |s|
  {
    if HasIndexSegment(s) {
      MaskChangesSegment(s);
    } else if s != [] {
      forall i | 0 <= i < |s[1..]|
        ensures !IndexSegmentAt(s[1..], i)
      {
        SegmentInSuffix([s[0]], s[1..], i);
        assert [s[0]] + s[1..] == s;
      }
      MaskUnchanged(s[1..]);
    }
  }

  /**
   * What the global replace does: the text before the leftmost index segment
   * is copied, that segment becomes `[*]`, and masking continues after it.
   */
  lemma MaskFirstSegment(s: string, i: nat)
    requires IndexSegmentAt(s, i)
    requires forall k | 0 <= k < i :: !IndexSegmentAt(s, k)
    ensures var j := i + DigitsPrefix(s[i + 1..]) + 2;
      j <= |s| && MaskIndices(s) == s[..i] + "[*]" + MaskIndices(s[j..])
  {
    MaskCopiesPrefix(s, i);
    MaskSegmentInSuffix(s, i);
    var d := DigitsPrefix(s[i + 1..]);
    var a := MaskIndices(s);
    var b := MaskIndices(s[i..]);
    var c := MaskIndices(s[i + d + 2..]);
    assert a == s[..i] + b;
    assert b == "[*]" + c;
    assert i + d + 2 <= |s|;
    MaskGlue(s, i, d);
  }

  /** The copied prefix followed by the masked segment and the masked rest. */
  lemma MaskGlue(s: string, i: nat, d: nat)
    requires i + d + 2 <= |s|
    requires MaskIndices(s) == s[..i] + MaskIndices(s[i..])
    requires MaskIndices(s[i..]) == "[*]" + MaskIndices(s[i + d + 2..])
    ensures MaskIndices(s) == s[..i] + "[*]" + MaskIndices(s[i + d + 2..])
  {
  }

  /** The suffix that starts with an index segment masks to `[*]` followed by the masked text after it. */
  lemma MaskSegmentInSuffix(s: string, i: nat)
    requires IndexSegmentAt(s, i)
    ensures i + DigitsPrefix(s[i + 1..]) + 2 <= |s|
    ensures MaskIndices(s[i..]) == "[*]" + MaskIndices(s[i + DigitsPrefix(s[i + 1..]) + 2..])
  {
    var u := s[i..];
    var d := DigitsPrefix(s[i + 1..]);
    assert u[1..] == s[i + 1..];
    assert IndexSegmentAt(u, 0);
    MaskSegmentAtStart(u);
    assert u[d + 2..] == s[i + d + 2..];
  }


  /** Characters before the leftmost index segment are copied unchanged. */
  lemma {:induction false} MaskCopiesPrefix(s: string, i: nat)
    requires i <= |s|
    requires forall k | 0 <= k < i :: !IndexSegmentAt(s, k)
    ensures MaskIndices(s) == s[..i] + MaskIndices(s[i..])
    decreases i
  {
    if i > 0 {
      var t := s[1..];
      NoSegmentInSuffix(s, i);
      MaskCopiesPrefix(t, i - 1);
      MaskCopiesFirst(s);
      assert t[i - 1..] == s[i..];
      Prepend(s, i, MaskIndices(s), MaskIndices(t), MaskIndices(s[i..]));
    }
  }

  lemma MaskSegmentAtStart(s: string)
    requires IndexSegmentAt(s, 0)
    ensures var j := DigitsPrefix(s[1..]) + 2;
      j <= |s| && MaskIndices(s) == "[*]" + MaskIndices(s[j..])
  {
  }

  /** A first character that starts no index segment is copied. */
  lemma MaskCopiesFirst(s: string)
    requires s != [] && !IndexSegmentAt(s, 0)
    ensures MaskIndices(s) == [s[0]] + MaskIndices(s[1..])
  {
  }

  /** Dropping a first character moves every earlier non-segment position one place left. */
  lemma NoSegmentInSuffix(s: string, i: nat)
    requires 0 < i <= |s|
    requires forall k | 0 <= k < i :: !IndexSegmentAt(s, k)
    ensures forall k | 0 <= k < i - 1 :: !IndexSegmentAt(s[1..], k)
  {
    var t := s[1..];
    assert [s[0]] + t == s;
    forall k | 0 <= k < i - 1
      ensures !IndexSegmentAt(t, k)
    {
      SegmentInSuffix([s[0]], t, k);
    }
  }

  lemma Prepend(s: string, i: nat, ms: string, mt: string, r: string)
    requires 0 < i <= |s|
    requires ms == [s[0]] + mt
    requires mt == s[1..][..i - 1] + r
    ensures ms == s[..i] + r
  {
    assert s[..i] == [s[0]] + s[1..][..i - 1];
  }

  /** Masking twice is masking once. */
  lemma MaskIdempotent(s: string)
    ensures MaskIndices(MaskIndices(s)) == MaskIndices(s)
  {
    MaskLeavesNoSegment(s);
    MaskUnchanged(MaskIndices(s));
  }

  /** Ajv's path of a field of the first item of an array: `[0].id` becomes `[*].id`. */
  lemma MaskFirstItem()
    ensures MaskIndices("[0].id") == "[*].id"
  {
    var s := "[0].id";
    assert DigitsPrefix(s[1..]) == 1 by {
      assert s[1..][1..] == "].id";
    }
    assert IndexSegmentAt(s, 0);
    assert s[3..] == ".id";
    assert MaskIndices(".id") == ".id" by {
      assert !IndexSegmentAt(".id", 0);
      assert !IndexSegmentAt("id", 0);
      assert !IndexSegmentAt("d", 0);
    }
  }

  // ---------------------------------------------------------------------
  // Ajv, as an oracle
  // ---------------------------------------------------------------------

  /** One of `validate.errors`: where in the data (Ajv's `dataPath`) and what. */
  datatype AjvError = AjvError(dataPath: string, message: Option<string>)

  /** What `ajv.compile(schema)` followed by `validate(data)` gives: a compile exception, or a verdict with the error list. */
  datatype AjvVerdict = CompileFailed(message: string) | Checked(valid: bool, errors: seq<AjvError>)

  type Ajv = (Json, Json) -> AjvVerdict

  // ---------------------------------------------------------------------
  // Error grouping
  // ---------------------------------------------------------------------

  /** One entry of `errorGroups`. */
  datatype ErrorGroup = ErrorGroup(count: nat, message: string, originalPath: string, maskedPath: string)

  /** `errorGroups`, its entries in insertion order (every key holds a space, so none is an array index and insertion order is kept). */
  type Groups = seq<(string, ErrorGroup)>

  /** `${maskedPath} ${err.message}`: an absent message prints as `undefined`. */
  function ErrKey(e: AjvError): string {
    MaskIndices(e.dataPath) + " " + Interpolated(e.message)
  }

  /** The entry created for the first error of a key, before its count is incremented. */
  function NewGroup(e: AjvError): ErrorGroup {
    ErrorGroup(0, e.message.GetOr(""), e.dataPath, MaskIndices(e.dataPath))
  }

  /** The position of `key` among the entries, or `|gs|` when it has none. */
  function FindKey(gs: Groups, key: string): (k: nat)
    ensures k <= |gs|
    ensures k < |gs| ==> gs[k].0 == key
    ensures forall j | 0 <= j < k :: gs[j].0 != key
  {
    if gs == [] then 0
    else if gs[0].0 == key then 0
    else 1 + FindKey(gs[1..], key)
  }

  /** One `forEach` step: create the key's entry if it is missing, then increment its count. */
  function AddError(gs: Groups, e: AjvError): Groups {
    var key := ErrKey(e);
    var k := FindKey(gs, key);
    if k == |gs| then gs + [(key, NewGroup(e).(count := 1))]
    else gs[k := (key, gs[k].1.(count := gs[k].1.count + 1))]
  }

  /** The groups after the whole `forEach`, errors taken in order. */
  function Grouped(errs: seq<AjvError>): Groups {
    if errs == [] then [] else AddError(Grouped(errs[..|errs| - 1]), errs[|errs| - 1])
  }

  /** The `forEach` over `validate.errors`, inserting into and incrementing `errorGroups` in place. */
  method GroupErrors(errs: seq<AjvError>) returns (groups: Groups)
    ensures groups == Grouped(errs)
  {
    groups := [];
    for i := 0 to |errs|
      invariant groups == Grouped(errs[..i])
    {
      var err := errs[i];
      var maskedPath := MaskIndices(err.dataPath);
      var key := maskedPath + " " + Interpolated(err.message);
      var k := FindKey(groups, key);
      if k == |groups| {
        groups := groups + [(key, ErrorGroup(0, err.message.GetOr(""), err.dataPath, maskedPath))];
      }
      groups := groups[k := (key, groups[k].1.(count := groups[k].1.count + 1))];
      assert errs[..i + 1][..i] == errs[..i];
    }
    assert errs[..|errs|] == errs;
  }

  /** The number of errors with key `key`. */
  function CountKey(errs: seq<AjvError>, key: string): nat {
    if errs == [] then 0
    else CountKey(errs[..|errs| - 1], key) + (if ErrKey(errs[|errs| - 1]) == key then 1 else 0)
  }

  /** The index of the first error with key `key`, or `|errs|` when there is none. */
  function FirstIndexOf(errs: seq<AjvError>, key: string): (j: nat)
    ensures j <= |errs|
    ensures j < |errs| ==> ErrKey(errs[j]) == key
    ensures forall i | 0 <= i < j :: ErrKey(errs[i]) != key
  {
    if errs == [] then 0
    else if ErrKey(errs[0]) == key then 0
    else 1 + FirstIndexOf(errs[1..], key)
  }

  /** What the group of `key` holds: the first such error's message and paths, and the number of such errors. */
  function GroupOf(errs: seq<AjvError>, key: string): ErrorGroup
    requires FirstIndexOf(errs, key) < |errs|
  {
    NewGroup(errs[FirstIndexOf(errs, key)]).(count := CountKey(errs, key))
  }

  /** The group list, explained: one entry per distinct key, in order of first occurrence, each as `GroupOf` says. */
  predicate GroupsExplain(gs: Groups, errs: seq<AjvError>) {
    DistinctKeys(gs) && GroupsMatch(gs, errs) && GroupsCover(gs, errs) && GroupsInOrder(gs, errs)
  }

  /** Every entry is its key's group. */
  predicate GroupsMatch(gs: Groups, errs: seq<AjvError>) {
    forall k | 0 <= k < |gs| :: FirstIndexOf(errs, gs[k].0) < |errs| && gs[k].1 == GroupOf(errs, gs[k].0)
  }

  /** Every error's key has an entry. */
  predicate GroupsCover(gs: Groups, errs: seq<AjvError>) {
    forall j | 0 <= j < |errs| :: FindKey(gs, ErrKey(errs[j])) < |gs|
  }

  /** The entries are in order of their keys' first occurrence. */
  predicate GroupsInOrder(gs: Groups, errs: seq<AjvError>) {
    forall a, b | 0 <= a < b < |gs| :: FirstIndexOf(errs, gs[a].0) < FirstIndexOf(errs, gs[b].0)
  }

  lemma {:induction false} FirstIndexOfAppend(errs: seq<AjvError>, e: AjvError, key: string)
    ensures FirstIndexOf(errs + [e], key) ==
      if FirstIndexOf(errs, key) < |errs| then FirstIndexOf(errs, key)
      else if ErrKey(e) == key then |errs| else |errs| + 1
  {
    if errs != [] {
      assert (errs + [e])[1..] == errs[1..] + [e];
      FirstIndexOfAppend(errs[1..], e, key);
    }
  }

  /** Grouping the errors one by one produces exactly the explained group list. */
  lemma {:induction false} GroupedExplained(errs: seq<AjvError>)
    ensures GroupsExplain(Grouped(errs), errs)
  {
    if errs != [] {
      var init := errs[..|errs| - 1];
      var e := errs[|errs| - 1];
      assert errs == init + [e];
      GroupedExplained(init);
      AddErrorExplained(Grouped(init), init, e);
    }
  }

  /** How one more error moves first indices and counts. */
  lemma {:induction false} AppendFacts(init: seq<AjvError>, e: AjvError, x: string)
    ensures FirstIndexOf(init + [e], x) == if FirstIndexOf(init, x) < |init| then FirstIndexOf(init, x)
      else if ErrKey(e) == x then |init| else |init| + 1
    ensures CountKey(init + [e], x) == CountKey(init, x) + (if ErrKey(e) == x then 1 else 0)
    ensures forall j | 0 <= j < |init| :: (init + [e])[j] == init[j]
  {
    FirstIndexOfAppend(init, e, x);
    assert (init + [e])[..|init|] == init;
  }

  /** One `forEach` step keeps the group list explained. */
  lemma {:induction false} AddErrorExplained(gs: Groups, init: seq<AjvError>, e: AjvError)
    requires GroupsExplain(gs, init)
    ensures GroupsExplain(AddError(gs, e), init + [e])
  {
    var key := ErrKey(e);
    var k := FindKey(gs, key);
    if k == |gs| {
      AddNewKeyExplained(gs, init, e);
    } else {
      AddKnownKeyExplained(gs, init, e, k);
    }
  }

  lemma {:induction false} AddNewKeyExplained(gs: Groups, init: seq<AjvError>, e: AjvError)
    requires GroupsExplain(gs, init)
    requires FindKey(gs, ErrKey(e)) == |gs|
    ensures GroupsExplain(AddError(gs, e), init + [e])
  {
    var key := ErrKey(e);
    assert AddError(gs, e) == gs + [(key, NewGroup(e).(count := 1))];
    forall j | 0 <= j < |init|
      ensures ErrKey(init[j]) != key
    {
      assert FindKey(gs, ErrKey(init[j])) < |gs|;
    }
    assert FirstIndexOf(init, key) == |init|;
    CountKeyZero(init, key);
    NewKeyMatch(gs, init, e);
    NewKeyCover(gs, init, e);
    NewKeyInOrder(gs, init, e);
  }

  lemma {:induction false} NewKeyMatch(gs: Groups, init: seq<AjvError>, e: AjvError)
    requires GroupsMatch(gs, init)
    requires FirstIndexOf(init, ErrKey(e)) == |init| && CountKey(init, ErrKey(e)) == 0
    requires forall a | 0 <= a < |gs| :: gs[a].0 != ErrKey(e)
    ensures GroupsMatch(gs + [(ErrKey(e), NewGroup(e).(count := 1))], init + [e])
  {
    var gs' := gs + [(ErrKey(e), NewGroup(e).(count := 1))];
    forall a | 0 <= a < |gs'|
      ensures FirstIndexOf(init + [e], gs'[a].0) < |init + [e]| && gs'[a].1 == GroupOf(init + [e], gs'[a].0)
    {
      AppendFacts(init, e, gs'[a].0);
    }
  }

  lemma {:induction false} NewKeyCover(gs: Groups, init: seq<AjvError>, e: AjvError)
    requires GroupsCover(gs, init)
    ensures GroupsCover(gs + [(ErrKey(e), NewGroup(e).(count := 1))], init + [e])
  {
    var entry := (ErrKey(e), NewGroup(e).(count := 1));
    var errs := init + [e];
    forall j | 0 <= j < |errs|
      ensures FindKey(gs + [entry], ErrKey(errs[j])) < |gs| + 1
    {
      if j < |init| {
        assert errs[j] == init[j];
        FindKeyAppend(gs, ErrKey(init[j]), entry);
      } else {
        FindKeyAppend(gs, ErrKey(e), entry);
      }
    }
  }

  lemma {:induction false} NewKeyInOrder(gs: Groups, init: seq<AjvError>, e: AjvError)
    requires GroupsMatch(gs, init) && GroupsInOrder(gs, init)
    requires FirstIndexOf(init, ErrKey(e)) == |init|
    ensures GroupsInOrder(gs + [(ErrKey(e), NewGroup(e).(count := 1))], init + [e])
  {
    var gs' := gs + [(ErrKey(e), NewGroup(e).(count := 1))];
    forall a | 0 <= a < |gs'|
      ensures FirstIndexOf(init + [e], gs'[a].0) == if a < |gs| then FirstIndexOf(init, gs[a].0) else |init|
    {
      AppendFacts(init, e, gs'[a].0);
    }
  }

  lemma {:induction false} AddKnownKeyExplained(gs: Groups, init: seq<AjvError>, e: AjvError, k: nat)
    requires GroupsExplain(gs, init)
    requires k == FindKey(gs, ErrKey(e)) < |gs|
    ensures GroupsExplain(AddError(gs, e), init + [e])
  {
    assert AddError(gs, e) == gs[k := (ErrKey(e), gs[k].1.(count := gs[k].1.count + 1))];
    KnownKeyMatch(gs, init, e, k);
    KnownKeyCover(gs, init, e, k);
    KnownKeyInOrder(gs, init, e, k);
  }

  lemma {:induction false} KnownKeyMatch(gs: Groups, init: seq<AjvError>, e: AjvError, k: nat)
    requires GroupsMatch(gs, init) && DistinctKeys(gs)
    requires k < |gs| && gs[k].0 == ErrKey(e)
    ensures GroupsMatch(gs[k := (ErrKey(e), gs[k].1.(count := gs[k].1.count + 1))], init + [e])
  {
    var gs' := gs[k := (ErrKey(e), gs[k].1.(count := gs[k].1.count + 1))];
    forall a | 0 <= a < |gs'|
      ensures FirstIndexOf(init + [e], gs'[a].0) < |init + [e]| && gs'[a].1 == GroupOf(init + [e], gs'[a].0)
    {
      AppendFacts(init, e, gs[a].0);
    }
  }

  lemma {:induction false} KnownKeyCover(gs: Groups, init: seq<AjvError>, e: AjvError, k: nat)
    requires GroupsCover(gs, init)
    requires k == FindKey(gs, ErrKey(e)) < |gs|
    ensures GroupsCover(gs[k := (ErrKey(e), gs[k].1.(count := gs[k].1.count + 1))], init + [e])
  {
    var entry := (ErrKey(e), gs[k].1.(count := gs[k].1.count + 1));
    var errs := init + [e];
    forall j | 0 <= j < |errs|
      ensures FindKey(gs[k := entry], ErrKey(errs[j])) < |gs|
    {
      if j < |init| {
        assert errs[j] == init[j];
        FindKeyUpdate(gs, k, ErrKey(init[j]), entry);
      } else {
        FindKeyUpdate(gs, k, ErrKey(e), entry);
      }
    }
  }

  lemma {:induction false} KnownKeyInOrder(gs: Groups, init: seq<AjvError>, e: AjvError, k: nat)
    requires GroupsMatch(gs, init) && GroupsInOrder(gs, init)
    requires k < |gs| && gs[k].0 == ErrKey(e)
    ensures GroupsInOrder(gs[k := (ErrKey(e), gs[k].1.(count := gs[k].1.count + 1))], init + [e])
  {
    var gs' := gs[k := (ErrKey(e), gs[k].1.(count := gs[k].1.count + 1))];
    forall a | 0 <= a < |gs'|
      ensures FirstIndexOf(init + [e], gs'[a].0) == FirstIndexOf(init, gs[a].0)
    {
      AppendFacts(init, e, gs[a].0);
    }
  }

  /** When no error has a key, its count is zero. */
  lemma {:induction false} CountKeyZero(errs: seq<AjvError>, key: string)
    requires FirstIndexOf(errs, key) == |errs|
    ensures CountKey(errs, key) == 0
  {
    if errs != [] {
      var init := errs[..|errs| - 1];
      FirstIndexOfAppend(init, errs[|errs| - 1], key);
      assert init + [errs[|errs| - 1]] == errs;
      CountKeyZero(init, key);
    }
  }

  lemma FindKeyAppend(gs: Groups, x: string, entry: (string, ErrorGroup))
    requires FindKey(gs, x) < |gs| || entry.0 == x
    ensures FindKey(gs + [entry], x) < |gs| + 1
  {
    var k := FindKey(gs, x);
    if k < |gs| {
      FindKeyAt(gs + [entry], k, x);
    } else {
      FindKeyAt(gs + [entry], |gs|, x);
    }
  }

  lemma FindKeyUpdate(gs: Groups, k: nat, x: string, entry: (string, ErrorGroup))
    requires k < |gs| && entry.0 == gs[k].0
    requires FindKey(gs, x) < |gs|
    ensures FindKey(gs[k := entry], x) < |gs|
  {
    FindKeyAt(gs[k := entry], FindKey(gs, x), x);
  }

  /** Finding a key that sits at position `k` finds a position no later than `k`. */
  lemma {:induction false} FindKeyAt(gs: Groups, k: nat, x: string)
    requires k < |gs| && gs[k].0 == x
    ensures FindKey(gs, x) <= k
  {
    if k > 0 && gs[0].0 != x {
      assert gs[1..][k - 1] == gs[k];
      FindKeyAt(gs[1..], k - 1, x);
    }
  }

  /** The sum of the counts. */
  function TotalCount(gs: Groups): nat {
    if gs == [] then 0 else TotalCount(gs[..|gs| - 1]) + gs[|gs| - 1].1.count
  }

  lemma {:induction false} TotalCountUpdate(gs: Groups, k: nat, entry: (string, ErrorGroup))
    requires k < |gs|
    ensures TotalCount(gs[k := entry]) + gs[k].1.count == TotalCount(gs) + entry.1.count
  {
    var n := |gs| - 1;
    if k < n {
      assert gs[k := entry][..n] == gs[..n][k := entry];
      TotalCountUpdate(gs[..n], k, entry);
    } else {
      assert gs[k := entry][..n] == gs[..n];
    }
  }

  /** The counts add up to the number of errors: every error is counted exactly once. */
  lemma {:induction false} GroupedCountsSum(errs: seq<AjvError>)
    ensures TotalCount(Grouped(errs)) == |errs|
  {
    if errs != [] {
      var init := errs[..|errs| - 1];
      var e := errs[|errs| - 1];
      GroupedCountsSum(init);
      var gs := Grouped(init);
      var k := FindKey(gs, ErrKey(e));
      if k == |gs| {
        assert (gs + [(ErrKey(e), NewGroup(e).(count := 1))])[..|gs|] == gs;
      } else {
        TotalCountUpdate(gs, k, (ErrKey(e), gs[k].1.(count := gs[k].1.count + 1)));
      }
    }
  }

  /** The line of one group: by masked path with its count when it has several errors, otherwise by the original path. */
  function Render(g: ErrorGroup): string {
    if g.count > 1 then g.maskedPath + " " + g.message + " (x" + NatToString(g.count) + ")"
    else g.originalPath + " " + g.message
  }

  /** `Object.values(errorGroups).map(...)`. */
  function Rendered(gs: Groups): (lines: seq<string>)
    ensures |lines| == |gs| && forall k | 0 <= k < |gs| :: lines[k] == Render(gs[k].1)
  {
    seq(|gs|, k requires 0 <= k < |gs| => Render(gs[k].1))
  }

  // ---------------------------------------------------------------------
  // validateSchema
  // ---------------------------------------------------------------------

  datatype ValidationResult = ValidationResult(valid: bool, errors: seq<string>)

  /** `validateSchema(schemaStr, data)`: the outcome the source returns for every input. */
  function Validation(schemaText: string, data: Json, codec: Codec, ajv: Ajv): ValidationResult {
    match codec.parse(schemaText)
    case Err(m) => ValidationResult(false, ["Invalid Schema: " + m])
    case Ok(schema) =>
      match ajv(schema, data)
      case CompileFailed(m) => ValidationResult(false, ["Invalid Schema: " + m])
      case Checked(valid, errs) =>
        if valid then ValidationResult(true, [])
        else
          var lines := Rendered(Grouped(errs));
          ValidationResult(false, if |lines| > 0 then lines else ["Unknown error"])
  }

  /** `validateSchema`, with the grouping done by the in-place loop. */
  method ValidateSchema(schemaText: string, data: Json, codec: Codec, ajv: Ajv) returns (r: ValidationResult)
    ensures r == Validation(schemaText, data, codec, ajv)
  {
    var schema := codec.parse(schemaText);
    if schema.Err? {
      return ValidationResult(false, ["Invalid Schema: " + schema.message]);
    }
    var verdict := ajv(schema.value, data);
    if verdict.CompileFailed? {
      return ValidationResult(false, ["Invalid Schema: " + verdict.message]);
    }
    if verdict.valid {
      return ValidationResult(true, []);
    }
    var errorGroups := GroupErrors(verdict.errors);
    var errors := Rendered(errorGroups);
    r := ValidationResult(false, if |errors| > 0 then errors else ["Unknown error"]);
  }

  /**
   * The outcomes of a validation: valid exactly when the schema parses and
   * compiles and Ajv accepts the data, and then with no error line; a parse
   * or compile exception gives the single line `Invalid Schema: <message>`;
   * otherwise one line per group, or `Unknown error` when Ajv listed no error.
   */
  lemma ValidationOutcomes(schemaText: string, data: Json, codec: Codec, ajv: Ajv)
    ensures var r := Validation(schemaText, data, codec, ajv);
      && (r.valid <==> && codec.parse(schemaText).Ok?
                       && var verdict := ajv(codec.parse(schemaText).value, data);
                          verdict.Checked? && verdict.valid)
      && (r.valid ==> r == ValidationResult(true, []))
      && (!r.valid ==> |r.errors| >= 1)
      && (codec.parse(schemaText).Err? ==> r.errors == ["Invalid Schema: " + codec.parse(schemaText).message])
      && (codec.parse(schemaText).Ok? && ajv(codec.parse(schemaText).value, data).CompileFailed? ==>
            r.errors == ["Invalid Schema: " + ajv(codec.parse(schemaText).value, data).message])
  {
  }

  /**
   * Ajv rejected the data: with an empty error list the one line is
   * `Unknown error`; otherwise there is one line per distinct key, in order of
   * first occurrence, each rendered from that key's group.
   */
  lemma InvalidDataLines(schemaText: string, data: Json, codec: Codec, ajv: Ajv)
    requires codec.parse(schemaText).Ok?
    requires var verdict := ajv(codec.parse(schemaText).value, data); verdict.Checked? && !verdict.valid
    ensures var errs := ajv(codec.parse(schemaText).value, data).errors;
      var r := Validation(schemaText, data, codec, ajv);
      && !r.valid
      && (errs == [] ==> r.errors == ["Unknown error"])
      && (errs != [] ==> r.errors == Rendered(Grouped(errs)))
      && GroupsExplain(Grouped(errs), errs)
      && TotalCount(Grouped(errs)) == |errs|
  {
    var errs := ajv(codec.parse(schemaText).value, data).errors;
    GroupedExplained(errs);
    GroupedCountsSum(errs);
    if errs != [] {
      assert FindKey(Grouped(errs), ErrKey(errs[0])) < |Grouped(errs)|;
    }
  }

  /** A key with several errors renders by its masked path and count; a key with one error by the path Ajv gave. */
  lemma RenderCases(errs: seq<AjvError>, key: string)
    requires FirstIndexOf(errs, key) < |errs|
    ensures var e := errs[FirstIndexOf(errs, key)];
      && (CountKey(errs, key) > 1 ==>
            Render(GroupOf(errs, key))
              == MaskIndices(e.dataPath) + " " + e.message.GetOr("") + " (x" + NatToString(CountKey(errs, key)) + ")")
      && (CountKey(errs, key) <= 1 ==> Render(GroupOf(errs, key)) == e.dataPath + " " + e.message.GetOr(""))
  {
  }

  /** Three rows failing the same rule condense into one line. */
  lemma ThreeRowsOneLine()
    ensures var m := Some("should be number");
      Rendered(Grouped([AjvError("[0].id", m), AjvError("[1].id", m), AjvError("[2].id", m)]))
        == ["[*].id should be number (x3)"]
  {
    var m := Some("should be number");
    var e0, e1, e2 := AjvError("[0].id", m), AjvError("[1].id", m), AjvError("[2].id", m);
    SameKeys(e0, e1, e2);
    GroupedThree(e0, e1, e2);
    RenderThree(NewGroup(e0).(count := 3));
  }

  /** Three errors of one key make one entry, counted three times. */
  lemma GroupedThree(e0: AjvError, e1: AjvError, e2: AjvError)
    requires ErrKey(e1) == ErrKey(e0) && ErrKey(e2) == ErrKey(e0)
    ensures Grouped([e0, e1, e2]) == [(ErrKey(e0), NewGroup(e0).(count := 3))]
  {
    var g := NewGroup(e0).(count := 1);
    assert Grouped([e0]) == [(ErrKey(e0), g)] by {
      assert [e0][..0] == [];
    }
    GroupedSameKey([e0], e1, g);
    assert [e0] + [e1] == [e0, e1];
    GroupedSameKey([e0, e1], e2, g.(count := 2));
    assert [e0, e1] + [e2] == [e0, e1, e2];
  }

  lemma SameKeys(e0: AjvError, e1: AjvError, e2: AjvError)
    requires e0 == AjvError("[0].id", Some("should be number"))
    requires e1 == AjvError("[1].id", Some("should be number"))
    requires e2 == AjvError("[2].id", Some("should be number"))
    ensures ErrKey(e1) == ErrKey(e0) && ErrKey(e2) == ErrKey(e0)
    ensures NewGroup(e0) == ErrorGroup(0, "should be number", "[0].id", "[*].id")
  {
    MaskFirstItem();
    MaskSameShape(e1.dataPath);
    MaskSameShape(e2.dataPath);
  }

  lemma RenderThree(g: ErrorGroup)
    requires g == ErrorGroup(3, "should be number", "[0].id", "[*].id")
    ensures Render(g) == "[*].id should be number (x3)"
  {
    assert NatToString(3) == "3";
  }

  /** One more error of the only key counts on that key's entry. */
  lemma GroupedSameKey(errs: seq<AjvError>, e: AjvError, g: ErrorGroup)
    requires Grouped(errs) == [(ErrKey(e), g)]
    ensures Grouped(errs + [e]) == [(ErrKey(e), g.(count := g.count + 1))]
  {
    assert (errs + [e])[..|errs|] == errs;
  }

  /** `[1].id` and `[2].id` mask like `[0].id`. */
  lemma MaskSameShape(s: string)
    requires |s| == 6 && s[0] == '[' && IsAsciiDigit(s[1]) && s[2..] == "].id"
    ensures MaskIndices(s) == "[*].id"
  {
    assert DigitsPrefix(s[1..]) == 1 by {
      assert s[1..][1..] == "].id";
    }
    assert IndexSegmentAt(s, 0);
    assert s[3..] == ".id";
    MaskFirstItem();
    assert MaskIndices("[0].id") == "[*]" + MaskIndices(".id") by {
      assert DigitsPrefix("0].id") == 1 by {
        assert "0].id"[1..] == "].id";
      }
    }
  }

  // ---------------------------------------------------------------------
  // generateSchemaFromData
  // ---------------------------------------------------------------------

  /** The local `generate`: the schema inferred from a value. */
  function Generate(d: Json): Json
    decreases d
  {
    match d
    case JNull => JObject([("type", JString("null"))])
    case JArray(xs) =>
      JObject([("type", JString("array")), ("items", if |xs| > 0 then Generate(xs[0]) else JObject([]))])
    case JObject(fs) =>
      JObject([("type", JString("object")),
               ("properties", JObject(seq(|fs|, i requires 0 <= i < |fs| => (fs[i].0, Generate(fs[i].1)))))])
    case _ => JObject([("type", JString(TypeOf(d)))])
  }

  /** `JSON.stringify(generate(data), null, 2)`; `generate` cannot throw on a JSON value, so the `"{}"` fallback is never taken. */
  function GenerateSchemaFromData(data: Json, codec: Codec): string {
    codec.pretty(Generate(data))
  }

  /** A member of a schema object. */
  function Member(schema: Json, key: string): Option<Json> {
    if schema.JObject? then Lookup(schema.fields, key) else None
  }

  /**
   * The part of JSON Schema the generated schemas use, as a reference:
   * `type` (absent admits everything), `items` holding one schema for every
   * element, `properties` holding a schema for each listed member.
   */
  predicate Admits(schema: Json, d: Json)
    decreases d
  {
    match Member(schema, "type")
    case None => true
    case Some(t) =>
      if t == JString("null") then d.JNull?
      else if t == JString("boolean") then d.JBool?
      else if t == JString("number") then d.JNumber?
      else if t == JString("string") then d.JString?
      else if t == JString("array") then
        d.JArray? &&
        match Member(schema, "items")
        case None => true
        case Some(s) => forall k | 0 <= k < |d.items| :: Admits(s, d.items[k])
      else if t == JString("object") then
        d.JObject? &&
        match Member(schema, "properties")
        case None => true
        case Some(ps) =>
          forall k | 0 <= k < |d.fields| ::
            match Member(ps, d.fields[k].0)
            case None => true
            case Some(s) => Admits(s, d.fields[k].1)
      else false
  }

  /**
   * Every array in the value, at any depth reached through objects, has each
   * of its elements admitted by the schema its first element infers.
   */
  predicate FitsFirstItems(d: Json)
    decreases d
  {
    match d
    case JArray(xs) => |xs| == 0 || forall k | 0 <= k < |xs| :: Admits(Generate(xs[0]), xs[k])
    case JObject(fs) => forall k | 0 <= k < |fs| :: FitsFirstItems(fs[k].1)
    case _ => true
  }

  /**
   * The schema inferred from a value admits that value exactly when every
   * array in it fits its first element's schema: `items` describes only
   * `obj[0]`, and the later elements are checked against it.
   */
  lemma {:induction false} GenerateAdmits(d: Json)
    requires WellFormed(d)
    ensures Admits(Generate(d), d) <==> FitsFirstItems(d)
    decreases d
  {
    match d
    case JArray(xs) =>
      GenerateAdmitsArray(xs);
    case JObject(fs) =>
      forall k | 0 <= k < |fs|
        ensures Admits(Generate(fs[k].1), fs[k].1) <==> FitsFirstItems(fs[k].1)
      {
        GenerateAdmits(fs[k].1);
      }
      GenerateAdmitsObject(fs);
    case _ =>
      GenerateAdmitsScalar(d);
  }

  /** The array case of `GenerateAdmits`: `items` is the first element's schema, or `{}` for an empty array. */
  lemma GenerateAdmitsArray(xs: seq<Json>)
    ensures Admits(Generate(JArray(xs)), JArray(xs)) <==> FitsFirstItems(JArray(xs))
  {
    var g := Generate(JArray(xs));
    var items := if |xs| > 0 then Generate(xs[0]) else JObject([]);
    assert g == JObject([("type", JString("array")), ("items", items)]);
    TwoMembers(JString("array"), "items", items);
    AdmitsArrayBy(g, items, xs);
  }

  /** The object case of `GenerateAdmits`, given the property for each field's value. */
  lemma GenerateAdmitsObject(fs: seq<(string, Json)>)
    requires DistinctKeys(fs)
    requires forall k | 0 <= k < |fs| :: Admits(Generate(fs[k].1), fs[k].1) <==> FitsFirstItems(fs[k].1)
    ensures Admits(Generate(JObject(fs)), JObject(fs)) <==> FitsFirstItems(JObject(fs))
  {
    var g := Generate(JObject(fs));
    var props := seq(|fs|, i requires 0 <= i < |fs| => (fs[i].0, Generate(fs[i].1)));
    assert g == JObject([("type", JString("object")), ("properties", JObject(props))]);
    TwoMembers(JString("object"), "properties", JObject(props));
    assert DistinctKeys(props);
    forall k | 0 <= k < |fs|
      ensures Member(JObject(props), fs[k].0) == Some(Generate(fs[k].1))
    {
      assert props[k] == (fs[k].0, Generate(fs[k].1));
      LookupDistinct(props, k);
    }
    AdmitsObjectBy(g, JObject(props), fs);
  }

  /** A scalar is admitted by the schema naming its own type. */
  lemma GenerateAdmitsScalar(d: Json)
    requires !d.JArray? && !d.JObject?
    ensures Admits(Generate(d), d)
  {
  }

  /** A schema of type `array` with an `items` member admits an array exactly when every element fits `items`. */
  lemma AdmitsArrayBy(schema: Json, items: Json, xs: seq<Json>)
    requires Member(schema, "type") == Some(JString("array"))
    requires Member(schema, "items") == Some(items)
    ensures Admits(schema, JArray(xs)) <==> forall k | 0 <= k < |xs| :: Admits(items, xs[k])
  {
  }

  /** A schema of type `object` whose properties give each field its inferred schema admits the object exactly when each field fits that schema. */
  lemma AdmitsObjectBy(schema: Json, ps: Json, fs: seq<(string, Json)>)
    requires Member(schema, "type") == Some(JString("object"))
    requires Member(schema, "properties") == Some(ps)
    requires forall k | 0 <= k < |fs| :: Member(ps, fs[k].0) == Some(Generate(fs[k].1))
    ensures Admits(schema, JObject(fs)) <==> forall k | 0 <= k < |fs| :: Admits(Generate(fs[k].1), fs[k].1)
  {
  }

  /** Every array in the value holds elements of one shape: each infers the schema its first element infers. */
  predicate Homogeneous(d: Json)
    decreases d
  {
    match d
    case JArray(xs) =>
      (forall k | 0 <= k < |xs| :: Homogeneous(xs[k]))
      && (forall k | 0 <= k < |xs| :: Generate(xs[k]) == Generate(xs[0]))
    case JObject(fs) => forall k | 0 <= k < |fs| :: Homogeneous(fs[k].1)
    case _ => true
  }

  /** Arrays of one shape fit their first element's schema, so the inferred schema admits such a value. */
  lemma {:induction false} HomogeneousFits(d: Json)
    requires WellFormed(d) && Homogeneous(d)
    ensures FitsFirstItems(d)
    decreases d
  {
    match d
    case JArray(xs) =>
      forall k | 0 <= k < |xs|
        ensures Admits(Generate(xs[0]), xs[k])
      {
        HomogeneousFits(xs[k]);
        GenerateAdmits(xs[k]);
      }
    case JObject(fs) =>
      forall k | 0 <= k < |fs|
        ensures FitsFirstItems(fs[k].1)
      {
        HomogeneousFits(fs[k].1);
      }
    case _ =>
  }

  /** Objects of different shapes, such as `[{"a": 1}, {"b": 2}]`, are admitted: the first element's schema lists no property of the second. */
  lemma ObjectsOfTwoShapesAdmitted(x: string, m: int, y: string, n: int)
    requires x != y
    ensures var arr := JArray([JObject([(x, JNumber(m))]), JObject([(y, JNumber(n))])]);
      Admits(Generate(arr), arr)
  {
    var first := JObject([(x, JNumber(m))]);
    var second := JObject([(y, JNumber(n))]);
    var arr := JArray([first, second]);
    SecondShapeAdmitted(x, m, y, n);
    assert arr.items[0] == first && arr.items[1] == second;
    assert FitsFirstItems(arr);
    assert WellFormed(arr) by {
      assert WellFormed(first) && WellFormed(second);
    }
    GenerateAdmits(arr);
  }

  /** The schema inferred from `{x: m}` admits `{y: n}` and `{x: m}` itself. */
  lemma SecondShapeAdmitted(x: string, m: int, y: string, n: int)
    requires x != y
    ensures Admits(Generate(JObject([(x, JNumber(m))])), JObject([(y, JNumber(n))]))
    ensures Admits(Generate(JObject([(x, JNumber(m))])), JObject([(x, JNumber(m))]))
  {
    var first := JObject([(x, JNumber(m))]);
    var fs := first.fields;
    var ps := seq(|fs|, i requires 0 <= i < |fs| => (fs[i].0, Generate(fs[i].1)));
    assert ps == [(x, Generate(JNumber(m)))] by {
      assert ps[0] == (x, Generate(JNumber(m)));
    }
    var props := JObject(ps);
    TwoMembers(JString("object"), "properties", props);
    assert Member(props, y) == None;
    assert first.fields[0].1 == JNumber(m);
    GenerateAdmits(first);
  }

  /** An array of a number and a string, such as `[1, "x"]`, is rejected: the string fails the first element's `number` type. */
  lemma NumberThenStringRejected(m: int, s: string)
    ensures var arr := JArray([JNumber(m), JString(s)]);
      !Admits(Generate(arr), arr)
  {
    var arr := JArray([JNumber(m), JString(s)]);
    var first := Generate(JNumber(m));
    assert first == JObject([("type", JString("number"))]);
    assert Member(first, "type") == Some(JString("number"));
    assert !Admits(first, JString(s));
    assert arr.items[0] == JNumber(m) && arr.items[1] == JString(s);
    assert !FitsFirstItems(arr);
    assert WellFormed(arr);
    GenerateAdmits(arr);
  }

  /** The inferred schema is itself a JSON value `JSON.parse` can return, with one property per member of an object. */
  lemma {:induction false} GenerateWellFormed(d: Json)
    requires WellFormed(d)
    ensures WellFormed(Generate(d))
    ensures d.JObject? ==> match Member(Generate(d), "properties")
      case Some(JObject(ps)) => |ps| == |d.fields| && forall k | 0 <= k < |ps| :: ps[k].0 == d.fields[k].0
      case _ => false
    decreases d
  {
    match d
    case JArray(xs) =>
      if |xs| > 0 {
        GenerateWellFormed(xs[0]);
      }
    case JObject(fs) =>
      var props := seq(|fs|, i requires 0 <= i < |fs| => (fs[i].0, Generate(fs[i].1)));
      forall k | 0 <= k < |fs|
        ensures WellFormed(props[k].1)
      {
        GenerateWellFormed(fs[k].1);
      }
      assert WellFormed(JObject(props));
      TwoMembers(JString("object"), "properties", JObject(props));
    case _ =>
  }

  /** The two members of a generated schema object. */
  lemma TwoMembers(t: Json, key: string, v: Json)
    requires key != "type"
    ensures Member(JObject([("type", t), (key, v)]), "type") == Some(t)
    ensures Member(JObject([("type", t), (key, v)]), key) == Some(v)
  {
    var entries := [("type", t), (key, v)];
    assert entries[1..] == [(key, v)];
    assert Lookup([(key, v)], key) == Some(v);
    assert Lookup(entries, key) == Lookup(entries[1..], key);
  }

  /** The text `generateSchemaFromData` returns parses back to the inferred schema. */
  lemma GenerateSchemaRoundTrip(data: Json, codec: Codec)
    requires Faithful(codec) && WellFormed(data)
    ensures codec.parse(GenerateSchemaFromData(data, codec)) == Ok(Generate(data))
  {
    GenerateWellFormed(data);
  }
}
