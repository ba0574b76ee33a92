/**
 * The bot's configuration: the array a `config.php` file returns, and the
 * defaults `getConfig` fills in (base.php lines 9-22).
 */
module Config {
  import opened PhpRuntime

  /** A PHP value as it can appear in a configuration array. */
  datatype Value =
    | VNull
    | VBool(b: bool)
    | VInt(i: int)
    | VStr(s: string)
    | VList(items: seq<Value>)

  /** `isset($config[key])`: present and not null. */
  predicate IsSet(config: map<string, Value>, key: string) {
    key in config && config[key] != VNull
  }

  /** `$config[key] ?? default`. */
  function Coalesce(config: map<string, Value>, key: string, default: Value): Value {
    if IsSet(config, key) then config[key] else default
  }

  /**
   * `$config[key] = $config[key] ?? default` with a non-null default leaves
   * the key set, and any later `??` on it yields the value it settled on.
   */
  lemma CoalesceSettles(config: map<string, Value>, key: string, default: Value, later: Value)
    requires default != VNull
    ensures var settled := config[key := Coalesce(config, key, default)];
      IsSet(settled, key) && Coalesce(settled, key, later) == Coalesce(config, key, default)
  {
  }

  /**
   * The two defaulting assignments of `getConfig`: `delete_log` falls back to
   * true, and `max_restarts` is taken from the key `max_restart` (singular),
   * falling back to 1. Every other entry is kept.
   */
  function ApplyDefaults(config: map<string, Value>): (r: map<string, Value>)
    ensures r.Keys == config.Keys + {"delete_log", "max_restarts"}
    ensures r["delete_log"] == Coalesce(config, "delete_log", VBool(true))
    ensures r["max_restarts"] == Coalesce(config, "max_restart", VInt(1))
    ensures forall k :: k in config && k != "delete_log" && k != "max_restarts" ==> r[k] == config[k]
  {
    config["delete_log" := Coalesce(config, "delete_log", VBool(true))]
          ["max_restarts" := Coalesce(config, "max_restart", VInt(1))]
  }

  /**
   * `getConfig()`: the array the configuration file returns, with the defaults
   * applied; without a file, just the two defaults. `configFile` stands for
   * the result of `include 'config.php'`, None when the file does not exist.
   */
  function GetConfig(configFile: Option<map<string, Value>>): (r: map<string, Value>)
    ensures IsSet(r, "delete_log") && IsSet(r, "max_restarts")
    ensures configFile.None? ==> r == map["delete_log" := VBool(true), "max_restarts" := VInt(1)]
  {
    match configFile
    case Some(config) => ApplyDefaults(config)
    case None => map["delete_log" := VBool(true), "max_restarts" := VInt(1)]
  }

  /** Without a configuration file the result is what an empty file would give. */
  lemma MissingFileIsEmptyConfig()
    ensures GetConfig(None) == GetConfig(Some(map[]))
  {
    var r := GetConfig(Some(map[]));
    assert r.Keys == {"delete_log", "max_restarts"};
  }

  /** Applying the defaults a second time changes nothing. */
  lemma ApplyDefaultsIdempotent(config: map<string, Value>)
    ensures ApplyDefaults(ApplyDefaults(config)) == ApplyDefaults(config)
  {
    var once := ApplyDefaults(config);
    var twice := ApplyDefaults(once);
    assert "max_restart" != "max_restarts" && "max_restart" != "delete_log";
    assert IsSet(once, "max_restart") == IsSet(config, "max_restart");
    assert twice.Keys == once.Keys;
    forall k | k in once ensures twice[k] == once[k] {
    }
  }

  /**
   * A `max_restarts` entry written in the configuration file is overwritten:
   * only `max_restart` decides the restart limit.
   */
  lemma MaxRestartsEntryIgnored(config: map<string, Value>, v: Value)
    ensures ApplyDefaults(config["max_restarts" := v])["max_restarts"] == ApplyDefaults(config)["max_restarts"]
  {
    assert "max_restart" != "max_restarts";
    assert IsSet(config["max_restarts" := v], "max_restart") == IsSet(config, "max_restart");
  }
}
