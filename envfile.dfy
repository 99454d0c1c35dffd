/**
 * The environment variables modal (EnvironmentVariablesModal.tsx): each of a
 * project's two environments is edited as `.env` text. `jsonToEnv` renders an
 * environment as `key=value` lines; `envToJson` parses text back, line by
 * line; saving writes both environments parsed from their texts.
 */
module EnvFile {
  import opened Wrappers
  import opened Json
  import opened Model
  import opened Text
  import opened ProjectsStore

  /** `${key}=${value}`. */
  function EnvLine(entry: (string, string)): string {
    entry.0 + "=" + entry.1
  }

  function EnvLines(env: Env): (lines: seq<string>)
    ensures |lines| == |env| && forall k | 0 <= k < |env| :: lines[k] == EnvLine(env[k])
  {
    seq(|env|, k requires 0 <= k < |env| => EnvLine(env[k]))
  }

  /** `jsonToEnv`: one line per entry, in entry order, joined by `\n`. */
  function JsonToEnv(env: Env): string {
    Join(EnvLines(env), "\n")
  }

  /** One line of `envToJson`'s `reduce`: the entry it assigns, if any. */
  function ParseLine(line: string): Option<(string, string)> {
    var trimmedLine := Trim(line);
    if trimmedLine == [] || trimmedLine[0] == '#' then None
    else
      var firstEquals := IndexOfChar(trimmedLine, '=');
      if firstEquals == -1 then None
      else
        var key := Trim(trimmedLine[..firstEquals]);
        var value := Trim(trimmedLine[firstEquals + 1..]);
        if key == [] then None else Some((key, value))
  }

  /** The `reduce` step: `acc[key] = value` for a line that assigns, `acc` otherwise. */
  function AddLine(acc: Env, line: string): Env {
    match ParseLine(line)
    case None => acc
    case Some(entry) => Put(acc, entry.0, entry.1)
  }

  /** The whole `reduce`, from `{}`, lines in order. */
  function FoldLines(lines: seq<string>): Env {
    if lines == [] then [] else AddLine(FoldLines(lines[..|lines| - 1]), lines[|lines| - 1])
  }

  /** `envToJson`. */
  function EnvToJson(content: string): Env {
    FoldLines(Split(content, "\n"))
  }

  /** A line assigns only a non-empty key, trimmed and without `=`, and a trimmed value. */
  lemma ParseLineResult(line: string)
    requires ParseLine(line).Some?
    ensures var (key, value) := ParseLine(line).value;
      && key != [] && Trim(key) == key && '=' !in key
      && Trim(value) == value
  {
    var t := Trim(line);
    var i := IndexOfChar(t, '=');
    var key := Trim(t[..i]);
    TrimWithin(t[..i]);
    TrimIdempotent(t[..i]);
    TrimIdempotent(t[i + 1..]);
  }

  /** A blank line, a comment line and a line with no `=` assign nothing. */
  lemma ParseLineSkips(line: string)
    ensures Trim(line) == [] ==> ParseLine(line).None?
    ensures Trim(line) != [] && Trim(line)[0] == '#' ==> ParseLine(line).None?
    ensures '=' !in line ==> ParseLine(line).None?
  {
    if '=' !in line {
      TrimWithin(line);
    }
  }

  /** The entries an environment may hold for its text to parse back to it. */
  predicate GoodEntry(entry: (string, string)) {
    var (key, value) := entry;
    && key != [] && Trim(key) == key && key[0] != '#'
    && '=' !in key && '\n' !in key
    && Trim(value) == value && '\n' !in value
  }

  predicate GoodEnv(env: Env) {
    DistinctKeys(env) && forall k | 0 <= k < |env| :: GoodEntry(env[k])
  }

  /** The line of a good entry parses back to the entry: the line is cut at its first `=`, so the value may hold more. */
  lemma ParseEnvLine(entry: (string, string))
    requires GoodEntry(entry)
    ensures ParseLine(EnvLine(entry)) == Some(entry)
  {
    var (key, value) := entry;
    var t := EnvLine(entry);
    TrimFixpoint(key);
    TrimFixpoint(value);
    assert t[0] == key[0];
    assert t[|t| - 1] == if value == [] then '=' else value[|value| - 1];
    TrimFixpoint(t);
    assert Trim(t) == t;
    assert t[|key|] == '=';
    assert t[..|key|] == key;
    IndexOfCharAt(t, '=', |key|);
    var i := |key|;
    assert t[i + 1..] == value;
  }

  /** The text of an environment whose entries hold no newline splits back into its lines. */
  lemma SplitEnvText(env: Env)
    requires |env| > 0
    requires forall k | 0 <= k < |env| :: '\n' !in env[k].0 && '\n' !in env[k].1
    ensures Split(JsonToEnv(env), "\n") == EnvLines(env)
  {
    var lines := EnvLines(env);
    forall k | 0 <= k < |lines|
      ensures '\n' !in lines[k]
    {
      assert lines[k] == env[k].0 + "=" + env[k].1;
    }
    SplitJoin(lines, '\n');
  }

  /** Folding the lines of a good environment rebuilds it entry by entry. */
  lemma {:induction false} FoldEnvLines(env: Env)
    requires GoodEnv(env)
    ensures FoldLines(EnvLines(env)) == env
  {
    if env != [] {
      var n := |env| - 1;
      var init := env[..n];
      var lines := EnvLines(env);
      GoodEnvPrefix(env, n);
      assert lines[..n] == EnvLines(init);
      assert FoldLines(lines) == AddLine(FoldLines(EnvLines(init)), EnvLine(env[n]));
      FoldEnvLines(init);
      ParseEnvLine(env[n]);
      PutNew(init, env[n].0, env[n].1);
      LastSplit(env);
    }
  }

  lemma LastSplit<T>(s: seq<T>)
    requires |s| > 0
    ensures s[..|s| - 1] + [s[|s| - 1]] == s
  {
  }

  lemma GoodEnvPrefix(env: Env, n: nat)
    requires GoodEnv(env) && n < |env|
    ensures GoodEnv(env[..n]) && forall j | 0 <= j < n :: env[..n][j].0 != env[n].0
  {
    var init := env[..n];
    forall j | 0 <= j < n
      ensures init[j] == env[j]
    {
    }
    forall a, b | 0 <= a < b < n
      ensures init[a].0 != init[b].0
    {
      assert env[a].0 != env[b].0;
    }
    forall k | 0 <= k < n
      ensures GoodEntry(init[k])
    {
      assert GoodEntry(env[k]);
    }
  }

  /**
   * Round trip: the text `jsonToEnv` renders parses back to the same entries
   * in the same order, when keys are non-empty, trimmed, free of `=` and
   * newlines and do not start with `#`, and values are trimmed and free of newlines.
   */
  lemma EnvRoundTrip(env: Env)
    requires GoodEnv(env)
    ensures EnvToJson(JsonToEnv(env)) == env
  {
    if env == [] {
      assert JsonToEnv(env) == "";
      assert Split("", "\n") == [""];
      assert FoldLines([""]) == AddLine([], "");
    } else {
      SplitEnvText(env);
      FoldEnvLines(env);
    }
  }

  /** The value of `key` the last line assigning it gives, if any. */
  function LastValue(lines: seq<string>, key: string): Option<string> {
    if lines == [] then None
    else
      var line := lines[|lines| - 1];
      if ParseLine(line).Some? && ParseLine(line).value.0 == key then Some(ParseLine(line).value.1)
      else LastValue(lines[..|lines| - 1], key)
  }

  /** For a key assigned on several lines the last one wins; the keys stay distinct. */
  lemma {:induction false} FoldLastWins(lines: seq<string>, key: string)
    ensures Lookup(FoldLines(lines), key) == LastValue(lines, key)
    ensures DistinctKeys(FoldLines(lines))
  {
    if lines != [] {
      var init := lines[..|lines| - 1];
      var line := lines[|lines| - 1];
      FoldLastWins(init, key);
      if ParseLine(line).Some? {
        var entry := ParseLine(line).value;
        PutLookup(FoldLines(init), entry.0, entry.1, key);
        PutKeys(FoldLines(init), entry.0, entry.1);
      }
    }
  }

  /** The environment's own test data renders as its one line. */
  lemma JsonToEnvSingle()
    ensures JsonToEnv([("API_URL", "http://localhost:3000")]) == "API_URL=http://localhost:3000"
  {
    var env := [("API_URL", "http://localhost:3000")];
    assert |EnvLines(env)| == 1 && EnvLines(env)[0] == EnvLine(env[0]);
  }

  /** What saving writes: both environments, each parsed from its own text. */
  function SavedEnvironments(devContent: string, prodContent: string): Environments {
    Environments(EnvToJson(devContent), EnvToJson(prodContent))
  }

  /** Opening the modal and saving without an edit writes back the environments the project had, when they are good. */
  lemma SaveUnedited(p: Project)
    requires GoodEnv(EnvVars(p, Dev)) && GoodEnv(EnvVars(p, Production))
    ensures SavedEnvironments(JsonToEnv(EnvVars(p, Dev)), JsonToEnv(EnvVars(p, Production)))
         == Environments(EnvVars(p, Dev), EnvVars(p, Production))
  {
    EnvRoundTrip(EnvVars(p, Dev));
    EnvRoundTrip(EnvVars(p, Production));
  }

  /** The modal's state: the project it was opened on and the two texts being edited. */
  class EnvironmentsModal {
    const project: Project
    var devContent: string
    var prodContent: string

    /** The `useEffect` that fills both texts from the project. */
    constructor (project: Project)
      ensures this.project == project
      ensures devContent == JsonToEnv(EnvVars(project, Dev))
      ensures prodContent == JsonToEnv(EnvVars(project, Production))
    {
      this.project := project;
      devContent := JsonToEnv(EnvVars(project, Dev));
      prodContent := JsonToEnv(EnvVars(project, Production));
    }

    /** Typing in the development textarea. */
    method SetDevContent(text: string)
      modifies this`devContent
      ensures devContent == text
    {
      devContent := text;
    }

    /** Typing in the production textarea. */
    method SetProdContent(text: string)
      modifies this`prodContent
      ensures prodContent == text
    {
      prodContent := text;
    }

    /** `handleSave`: replace the project's environments by those parsed from the two texts. */
    method HandleSave(store: Store)
      requires store.Valid()
      modifies store
      ensures store.Valid()
      ensures var saved := SavedEnvironments(devContent, prodContent);
        store.projects == if project.id in old(store.projects)
          then old(store.projects)[project.id := old(store.projects)[project.id].(environments := Some(saved))]
          else old(store.projects)
    {
      var updatedEnvironments := Environments(EnvToJson(devContent), EnvToJson(prodContent));
      store.UpdateProject(project.id, ProjectPatch(None, Some(updatedEnvironments)));
    }
  }
}
