/**
 * JSON values as the application handles them (request headers, params and
 * bodies, response data, JSON Schema documents) and the JavaScript notions the
 * source applies to them: truthiness, `typeof`, `Object.keys(..).length`.
 *
 * `JSON.stringify` and `JSON.parse` are not modelled character by character:
 * a `Codec` supplies them, and `Faithful` is what the model assumes of a real
 * one (parsing what was serialised gives the value back).
 */
module Json {
  import opened Wrappers

  /** Numbers are integers here; JavaScript's doubles are not modelled. */
  datatype Json =
    | JNull
    | JBool(b: bool)
    | JNumber(n: int)
    | JString(s: string)
    | JArray(items: seq<Json>)
    | JObject(fields: seq<(string, Json)>)

  /** An association list whose keys are pairwise distinct: a JavaScript object's own entries. */
  predicate DistinctKeys<V>(entries: seq<(string, V)>) {
    forall a, b | 0 <= a < b < |entries| :: entries[a].0 != entries[b].0
  }

  /** `obj[key]` on an object's entries: the value of the first entry with that key. */
  function Lookup<V>(entries: seq<(string, V)>, key: string): (r: Option<V>)
    ensures r.Some? <==> exists k | 0 <= k < |entries| :: entries[k].0 == key
    ensures r.Some? ==> exists k | 0 <= k < |entries| ::
      entries[k] == (key, r.value) && forall j | 0 <= j < k :: entries[j].0 != key
  {
    if entries == [] then None
    else if entries[0].0 == key then Some(entries[0].1)
    else
      var r := Lookup(entries[1..], key);
      assert r.Some? ==> exists k | 1 <= k < |entries| ::
        entries[k] == (key, r.value) && forall j | 0 <= j < k :: entries[j].0 != key by {
        if r.Some? {
          var k :| 0 <= k < |entries[1..]| && entries[1..][k] == (key, r.value)
            && forall j | 0 <= j < k :: entries[1..][j].0 != key;
          assert entries[k + 1] == (key, r.value);
          forall j | 0 <= j < k + 1
            ensures entries[j].0 != key
          {
            if j > 0 {
              assert entries[j] == entries[1..][j - 1];
            }
          }
        }
      }
      r
  }

  /** With distinct keys, looking up an entry's key finds that entry's value. */
  lemma {:induction false} LookupDistinct<V>(entries: seq<(string, V)>, k: nat)
    requires DistinctKeys(entries) && k < |entries|
    ensures Lookup(entries, entries[k].0) == Some(entries[k].1)
  {
    if k > 0 {
      assert entries[0].0 != entries[k].0;
      assert entries[1..][k - 1] == entries[k];
      LookupDistinct(entries[1..], k - 1);
    }
  }

  /** `obj[key] = v` on an object's entries: an existing key keeps its place and takes the new value, a new key goes last. */
  function Put<V>(entries: seq<(string, V)>, key: string, v: V): (r: seq<(string, V)>)
    ensures |r| == |entries| || |r| == |entries| + 1
  {
    if entries == [] then [(key, v)]
    else if entries[0].0 == key then [(key, v)] + entries[1..]
    else [entries[0]] + Put(entries[1..], key, v)
  }

  /** After `obj[key] = v`, reading `key` gives `v` and every other key reads as before. */
  lemma {:induction false} PutLookup<V>(entries: seq<(string, V)>, key: string, v: V, x: string)
    ensures Lookup(Put(entries, key, v), x) == if x == key then Some(v) else Lookup(entries, x)
  {
    if entries != [] && entries[0].0 != key {
      PutLookup(entries[1..], key, v, x);
    }
  }

  /** Assigning a key that is not there appends it. */
  lemma {:induction false} PutNew<V>(entries: seq<(string, V)>, key: string, v: V)
    requires forall k | 0 <= k < |entries| :: entries[k].0 != key
    ensures Put(entries, key, v) == entries + [(key, v)]
  {
    if entries != [] {
      PutNew(entries[1..], key, v);
    }
  }

  /** The keys of an object's entries. */
  function Keys<V>(entries: seq<(string, V)>): set<string> {
    set k | 0 <= k < |entries| :: entries[k].0
  }

  /** The keys after `obj[key] = v` are those before plus `key`, and they stay distinct. */
  lemma {:induction false} PutKeys<V>(entries: seq<(string, V)>, key: string, v: V)
    ensures Keys(Put(entries, key, v)) == Keys(entries) + {key}
    ensures DistinctKeys(entries) ==> DistinctKeys(Put(entries, key, v))
  {
    if entries == [] {
      assert Put(entries, key, v)[0].0 == key;
    } else {
      var e, tail := entries[0], entries[1..];
      assert entries == [e] + tail;
      KeysCons(e, tail);
      DistinctCons(e, tail);
      if e.0 == key {
        assert Put(entries, key, v) == [(key, v)] + tail;
        KeysCons((key, v), tail);
        DistinctCons((key, v), tail);
      } else {
        var r1 := Put(tail, key, v);
        assert Put(entries, key, v) == [e] + r1;
        PutKeys(tail, key, v);
        KeysCons(e, r1);
        DistinctCons(e, r1);
      }
    }
  }

  /** The keys of entries with one more in front. */
  lemma KeysCons<V>(e: (string, V), rest: seq<(string, V)>)
    ensures Keys([e] + rest) == {e.0} + Keys(rest)
  {
    var m := [e] + rest;
    assert m[0] == e;
    forall x | x in Keys(m)
      ensures x in {e.0} + Keys(rest)
    {
      var k :| 0 <= k < |m| && m[k].0 == x;
      if k > 0 {
        assert m[k] == rest[k - 1];
      }
    }
    forall x | x in Keys(rest)
      ensures x in Keys(m)
    {
      var k :| 0 <= k < |rest| && rest[k].0 == x;
      assert rest[k] == m[k + 1];
    }
  }

  /** Entries with one more in front have distinct keys exactly when the rest do and the new key is not among them. */
  lemma DistinctCons<V>(e: (string, V), rest: seq<(string, V)>)
    ensures DistinctKeys([e] + rest) <==> DistinctKeys(rest) && e.0 !in Keys(rest)
  {
    var m := [e] + rest;
    assert m[0] == e;
    if DistinctKeys(m) {
      forall a, b | 0 <= a < b < |rest|
        ensures rest[a].0 != rest[b].0
      {
        assert rest[a] == m[a + 1] && rest[b] == m[b + 1];
      }
      forall x | x in Keys(rest)
        ensures x != e.0
      {
        var k :| 0 <= k < |rest| && rest[k].0 == x;
        assert rest[k] == m[k + 1];
      }
    }
    if DistinctKeys(rest) && e.0 !in Keys(rest) {
      forall a, b | 0 <= a < b < |m|
        ensures m[a].0 != m[b].0
      {
        assert m[b] == rest[b - 1];
        assert rest[b - 1].0 in Keys(rest);
        if a > 0 {
          assert m[a] == rest[a - 1];
        }
      }
    }
  }

  /** The values `JSON.parse` can return: every object, at every depth, has distinct keys. */
  predicate WellFormed(j: Json)
    decreases j
  {
    match j
    case JArray(items) => forall k | 0 <= k < |items| :: WellFormed(items[k])
    case JObject(fields) =>
      DistinctKeys(fields) && forall k | 0 <= k < |fields| :: WellFormed(fields[k].1)
    case _ => true
  }

  /** JavaScript truthiness: `null`, `false`, `0` and `""` are falsy, every array and object is truthy. */
  predicate Truthy(j: Json) {
    match j
    case JNull => false
    case JBool(b) => b
    case JNumber(n) => n != 0
    case JString(s) => s != ""
    case JArray(_) => true
    case JObject(_) => true
  }

  /** JavaScript's `typeof` (arrays and `null` are both "object"). */
  function TypeOf(j: Json): string {
    match j
    case JBool(_) => "boolean"
    case JNumber(_) => "number"
    case JString(_) => "string"
    case _ => "object"
  }

  /**
   * `Object.keys(j).length`: own keys of an object, indices of an array or
   * string, none for a boolean or number; `Object.keys(null)` throws a
   * `TypeError`, which is `None` here.
   */
  function KeyCount(j: Json): Option<nat> {
    match j
    case JNull => None
    case JObject(fields) => Some(|fields|)
    case JArray(items) => Some(|items|)
    case JString(s) => Some(|s|)
    case _ => Some(0)
  }

  /** `JSON.stringify(x)`, `JSON.stringify(x, null, 2)` and `JSON.parse(text)`; parse may throw. */
  datatype Codec = Codec(stringify: Json -> string, pretty: Json -> string, parse: string -> Result<Json>)

  /** A codec that parses back whatever it serialised, compact or indented. */
  ghost predicate Faithful(c: Codec) {
    forall j | WellFormed(j) :: c.parse(c.stringify(j)) == Ok(j) && c.parse(c.pretty(j)) == Ok(j)
  }
}
