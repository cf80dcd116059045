/** Gunny's project configuration: a map from keys to JSON values. */
module GunnyConfig {
  import opened Wrappers

  /** A JSON number, carried but not inspected. */
  type JsonNumber(==)

  /** A JSON value. */
  datatype Json =
    | Null
    | Bool(b: bool)
    | Number(n: JsonNumber)
    | String(s: string)
    | Array(items: seq<Json>)
    | Object(fields: map<string, Json>)

  /** A value that could not be turned into JSON. */
  datatype Error = SerializeError

  /** The entries after setting each pair in turn, left to right. */
  function SetAll(entries: map<string, Json>, pairs: seq<(string, Json)>): map<string, Json>
    decreases |pairs|
  {
    if |pairs| == 0 then entries
    else SetAll(entries[pairs[0].0 := pairs[0].1], pairs[1..])
  }

  /** The keys of the pairs. */
  function KeysOf(pairs: seq<(string, Json)>): set<string> {
    set k | 0 <= k < |pairs| :: pairs[k].0
  }

  /** The value the last pair with key `key` gives. */
  function LastValue(pairs: seq<(string, Json)>, key: string): Json
    requires key in KeysOf(pairs)
    decreases |pairs|
  {
    var last := pairs[|pairs| - 1];
    if last.0 == key then last.1
    else
      assert key in KeysOf(pairs[..|pairs| - 1]) by {
        var k :| 0 <= k < |pairs| && pairs[k].0 == key;
        assert pairs[..|pairs| - 1][k].0 == key;
      }
      LastValue(pairs[..|pairs| - 1], key)
  }

  /** Setting one more pair is one more map update. */
  lemma {:induction false} SetAllSnoc(entries: map<string, Json>, pairs: seq<(string, Json)>, key: string, value: Json)
    ensures SetAll(entries, pairs + [(key, value)]) == SetAll(entries, pairs)[key := value]
    decreases |pairs|
  {
    if |pairs| > 0 {
      assert (pairs + [(key, value)])[1..] == pairs[1..] + [(key, value)];
      SetAllSnoc(entries[pairs[0].0 := pairs[0].1], pairs[1..], key, value);
    }
  }

  /** A chain of settings holds every key given and every key it had,
      nothing else; a key given takes the value of its last pair, and a
      key not given keeps its value. */
  lemma {:induction false} SetAllContents(entries: map<string, Json>, pairs: seq<(string, Json)>)
    ensures SetAll(entries, pairs).Keys == entries.Keys + KeysOf(pairs)
    ensures forall key :: key in KeysOf(pairs) ==> SetAll(entries, pairs)[key] == LastValue(pairs, key)
    ensures forall key :: key in entries && key !in KeysOf(pairs) ==> SetAll(entries, pairs)[key] == entries[key]
    decreases |pairs|
  {
    if |pairs| > 0 {
      var init := pairs[..|pairs| - 1];
      var last := pairs[|pairs| - 1];
      assert pairs == init + [last];
      SetAllSnoc(entries, init, last.0, last.1);
      SetAllContents(entries, init);
      assert KeysOf(pairs) == KeysOf(init) + {last.0} by {
        forall key | key in KeysOf(pairs) ensures key in KeysOf(init) + {last.0} {
          var k :| 0 <= k < |pairs| && pairs[k].0 == key;
          if k < |pairs| - 1 {
            assert init[k].0 == key;
          }
        }
        forall key | key in KeysOf(init) ensures key in KeysOf(pairs) {
          var k :| 0 <= k < |init| && init[k].0 == key;
          assert pairs[k].0 == key;
        }
      }
    } else {
      assert KeysOf(pairs) == {};
    }
  }

  /** Gunny's project configuration. */
  class Config {
    var entries: map<string, Json>

    /** `Config::default`: no entries. */
    constructor()
      ensures entries == map[]
    {
      entries := map[];
    }

    /** `contains_key`. */
    function ContainsKey(key: string): (b: bool)
      reads this
      ensures b <==> Get(key).Some?
    {
      key in entries
    }

    /** `get`. */
    function Get(key: string): (r: Option<Json>)
      reads this
      ensures r.Some? <==> key in entries
      ensures r.Some? ==> r.value == entries[key]
    {
      if key in entries then Some(entries[key]) else None
    }

    /** `set`: the value is serialized first, and a value that cannot be
        leaves the configuration as it was; otherwise the key takes the
        value and the previous value is returned. */
    method Set<V>(key: string, value: V, toJson: V -> Option<Json>) returns (r: Result<Option<Json>, Error>)
      modifies this
      ensures toJson(value).None? ==> r == Err(SerializeError) && entries == old(entries)
      ensures toJson(value).Some? ==>
        r == Ok(old(Get(key))) && entries == old(entries)[key := toJson(value).value]
    {
      var json := toJson(value);
      if json.None? {
        return Err(SerializeError);
      }
      var previous := if key in entries then Some(entries[key]) else None;
      entries := entries[key := json.value];
      r := Ok(previous);
    }

    /** `remove`: the key's value, if it had one, and afterwards the key is
        gone and every other key keeps its value. */
    method Remove(key: string) returns (r: Option<Json>)
      modifies this
      ensures r == old(Get(key))
      ensures entries == old(entries) - {key}
      ensures !ContainsKey(key)
    {
      r := if key in entries then Some(entries[key]) else None;
      entries := entries - {key};
    }

    /** `with`: `set`, then the configuration itself. */
    method With<V>(key: string, value: V, toJson: V -> Option<Json>) returns (r: Result<Config, Error>)
      modifies this
      ensures toJson(value).None? ==> r == Err(SerializeError) && entries == old(entries)
      ensures toJson(value).Some? ==>
        r == Ok(this) && entries == SetAll(old(entries), [(key, toJson(value).value)])
    {
      var outcome := Set(key, value, toJson);
      if outcome.Err? {
        return Err(SerializeError);
      }
      r := Ok(this);
    }

    /** `From<Config> for Value`. */
    function ToJson(): (v: Json)
      reads this
      ensures v.Object? && v.fields.Keys == entries.Keys
      ensures forall key :: key in entries ==> v.fields[key] == entries[key]
    {
      Object(entries)
    }
  }

  /** A chain of `with` calls on a default configuration gives an object
      holding exactly the keys given, each with its last value. */
  lemma ChainedWith(pairs: seq<(string, Json)>)
    ensures SetAll(map[], pairs).Keys == KeysOf(pairs)
    ensures forall key :: key in KeysOf(pairs) ==> SetAll(map[], pairs)[key] == LastValue(pairs, key)
  {
    SetAllContents(map[], pairs);
  }

  /** The configuration of the program's own test: three `with` calls give
      three keys with their values. */
  lemma ConfigTest(name: Json, magic: Json, arr: Json)
    ensures var entries := SetAll(map[], [("projectName", name), ("magicNumber", magic), ("arr", arr)]);
      entries == map["projectName" := name, "magicNumber" := magic, "arr" := arr]
  {
    var pairs := [("projectName", name), ("magicNumber", magic), ("arr", arr)];
    var m1 := map["projectName" := name];
    var m2 := m1["magicNumber" := magic];
    assert pairs[1..] == [("magicNumber", magic), ("arr", arr)];
    assert pairs[1..][1..] == [("arr", arr)];
    assert SetAll(map[], pairs) == SetAll(m1, pairs[1..]);
    assert SetAll(m1, pairs[1..]) == SetAll(m2, pairs[1..][1..]);
    assert SetAll(m2, pairs[1..][1..]) == m2["arr" := arr] by {
      assert pairs[1..][1..][1..] == [];
    }
    assert "projectName"[0] != "magicNumber"[0];
  }
}
