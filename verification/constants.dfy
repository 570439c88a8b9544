/**
  `ConstantsManager` of `constants_manager.py`: named settings kept in a
  table of the settings store, with a dict in front of it as a cache.
  Values are stored as JSON text; the model keeps them decoded.
 */
module Constants {

  /** A JSON value the settings hold: `None`, an int, a string or a list. */
  datatype Value = Null | Int(i: int) | Str(s: string) | List(items: seq<Value>)

  /** `DEFAULT_CONSTANTS`, in the dict's order. */
  function DefaultConstants(): (defaults: seq<(string, Value)>)
    ensures |defaults| == 7
    ensures forall i, j :: 0 <= i < j < |defaults| ==> defaults[i].0 != defaults[j].0
  {
    var d := [
      ("BUFFER_SIZE", Int(4096)),
      ("AUTH_SUCCESS", Str("AUTH_SUCCESS")),
      ("AUTH_FAILED", Str("AUTH_FAILED")),
      ("SHARED_SECRET", Str("ThisIsATestSecretPassword")),
      ("HOST", Str("10.0.0.112")),
      ("PORT", Int(65432)),
      ("DB_NAME", Str("macros.db"))
    ];
    assert forall i :: 0 <= i < 7 ==> |d[i].0| == [11, 12, 11, 13, 4, 4, 7][i];
    assert d[1].0[5] != d[2].0[5] && d[4].0[0] != d[5].0[0];
    d
  }

  /** The settings after adding every default whose name is not there yet, in order. */
  function MergeDefaults(existing: map<string, Value>, defaults: seq<(string, Value)>): map<string, Value> {
    if defaults == [] then existing
    else
      var before := MergeDefaults(existing, defaults[..|defaults| - 1]);
      var (name, value) := defaults[|defaults| - 1];
      if name in before then before else before[name := value]
  }

  /**
    Merging keeps every stored value, adds every default name, and gives a
    name only stored nowhere its (first) default value.
   */
  lemma {:induction false} MergeDefaultsSpec(existing: map<string, Value>, defaults: seq<(string, Value)>)
    ensures var r := MergeDefaults(existing, defaults);
      && (forall name :: name in existing ==> name in r && r[name] == existing[name])
      && (forall i :: 0 <= i < |defaults| ==> defaults[i].0 in r)
      && (forall name :: name in r ==> name in existing || exists i :: 0 <= i < |defaults| && defaults[i].0 == name)
  {
    if defaults != [] {
      var front := defaults[..|defaults| - 1];
      MergeDefaultsSpec(existing, front);
      var r := MergeDefaults(existing, defaults);
      forall i | 0 <= i < |defaults| ensures defaults[i].0 in r {
        if i < |front| {
          assert defaults[i] == front[i];
        }
      }
      forall name | name in r ensures name in existing || exists i :: 0 <= i < |defaults| && defaults[i].0 == name {
        if name !in MergeDefaults(existing, front) {
          assert defaults[|defaults| - 1].0 == name;
        } else if name !in existing {
          var i :| 0 <= i < |front| && front[i].0 == name;
          assert defaults[i].0 == name;
        }
      }
    }
  }

  /** With distinct names, a default not stored before gets exactly its default value. */
  lemma {:induction false} MergeDefaultsValue(existing: map<string, Value>, defaults: seq<(string, Value)>, k: nat)
    requires k < |defaults| && defaults[k].0 !in existing
    requires forall i, j :: 0 <= i < j < |defaults| ==> defaults[i].0 != defaults[j].0
    ensures var r := MergeDefaults(existing, defaults);
      defaults[k].0 in r && r[defaults[k].0] == defaults[k].1
  {
    var front := defaults[..|defaults| - 1];
    MergeDefaultsSpec(existing, front);
    if k < |front| {
      assert front[k] == defaults[k];
      MergeDefaultsValue(existing, front, k);
    } else {
      var name := defaults[k].0;
      assert forall i :: 0 <= i < |front| ==> front[i].0 != name by {
        forall i | 0 <= i < |front| ensures front[i].0 != name {
          assert front[i] == defaults[i];
        }
      }
    }
  }

  /** Merging the same defaults again changes nothing. */
  lemma MergeDefaultsIdempotent(existing: map<string, Value>, defaults: seq<(string, Value)>)
    ensures MergeDefaults(MergeDefaults(existing, defaults), defaults) == MergeDefaults(existing, defaults)
  {
    var once := MergeDefaults(existing, defaults);
    MergeDefaultsSpec(existing, defaults);
    MergeDefaultsSpec(once, defaults);
    var twice := MergeDefaults(once, defaults);
    assert twice.Keys == once.Keys;
  }

  /** What `get` returns for the cache and the table, and the cache afterwards. */
  function Lookup(cache: map<string, Value>, table: map<string, Value>, name: string): (Value, map<string, Value>) {
    if name in cache && cache[name] != Null then (cache[name], cache)
    else if name in table then (table[name], cache[name := table[name]])
    else (Null, cache)
  }

  /** A `get` right after `set` returns the value set, whatever it is. */
  lemma GetAfterSet(cache: map<string, Value>, table: map<string, Value>, name: string, value: Value)
    ensures Lookup(cache[name := value], table[name := value], name).0 == value
  {
  }

  /** A `get` that filled the cache is answered from the cache next time, with the same value. */
  lemma GetTwice(cache: map<string, Value>, table: map<string, Value>, name: string)
    ensures var (v, cache') := Lookup(cache, table, name);
      Lookup(cache', table, name).0 == v
  {
  }

  class ConstantsManager {
    /** `_cache` */
    var cache: map<string, Value>
    /** The `constants` table, decoded. */
    var table: map<string, Value>
    /** `_is_initialized` */
    var initialized: bool

    /** `__new__` for the first instance, given the table's contents: an empty cache, then loading. */
    constructor(table: map<string, Value>)
      ensures this.table == MergeDefaults(table, DefaultConstants())
      ensures cache == this.table && initialized
    {
      this.table := table;
      cache := map[];
      initialized := false;
      new;
      LoadConstantsIntoCache();
    }

    /** `_load_constants_into_cache`: add the missing defaults to the table, then cache the whole table; once only. */
    method LoadConstantsIntoCache()
      modifies this
      ensures initialized
      ensures old(initialized) ==> cache == old(cache) && table == old(table)
      ensures !old(initialized) ==> table == MergeDefaults(old(table), DefaultConstants()) && cache == table
    {
      if initialized {
        return;
      }
      var defaults := DefaultConstants();
      var existing := table;
      var i := 0;
      while i < |defaults|
        invariant 0 <= i <= |defaults|
        invariant existing == MergeDefaults(old(table), defaults[..i]) && table == existing
      {
        var (name, value) := defaults[i];
        assert defaults[..i + 1][..i] == defaults[..i];
        if name !in existing {
          table := table[name := value];
          existing := existing[name := value];
        }
        i := i + 1;
      }
      assert defaults[..i] == defaults;
      cache := existing;
      initialized := true;
    }

    /** `get`: a cached value that is not `None`, else the table's value, cached on the way, else `None`. */
    method Get(name: string) returns (value: Value)
      modifies this
      ensures (value, cache) == Lookup(old(cache), table, name)
      ensures table == old(table) && initialized == old(initialized)
    {
      if name in cache && cache[name] != Null {
        return cache[name];
      }
      if name in table {
        value := table[name];
        cache := cache[name := value];
      } else {
        value := Null;
      }
    }

    /** `set`: create or overwrite the table row and the cache entry. */
    method Set(name: string, value: Value)
      modifies this
      ensures table == old(table)[name := value] && cache == old(cache)[name := value]
      ensures initialized == old(initialized)
    {
      table := table[name := value];
      cache := cache[name := value];
    }
  }

  /** The class-level `_instance` of the singleton. */
  class Registry {
    var instance: ConstantsManager?

    constructor()
      ensures instance == null
    {
      instance := null;
    }

    /** `ConstantsManager(database_url)`: the first call creates and loads the instance, later calls return it. */
    method Instance(table: map<string, Value>) returns (m: ConstantsManager)
      modifies this
      ensures old(instance) != null ==> m == old(instance)
      ensures old(instance) == null ==> fresh(m) && m.table == MergeDefaults(table, DefaultConstants()) && m.cache == m.table
      ensures instance == m
    {
      if instance == null {
        instance := new ConstantsManager(table);
      }
      m := instance;
    }
  }

  /** Two creations give one instance, whatever table the second one names. */
  method CreatedTwice(r: Registry, first: map<string, Value>, second: map<string, Value>) returns (a: ConstantsManager, b: ConstantsManager)
    modifies r
    ensures a == b
  {
    a := r.Instance(first);
    b := r.Instance(second);
  }
}
