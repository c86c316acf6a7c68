/**
 * The printer's style option (internal/parsers/style.go): a comma-separated
 * list of settings, each `key` or `key=value`, that fills in the fields of
 * the printer's `StyleOptions`. The log messages that accompany an error are
 * not part of this model.
 */
module Style {
  import opened Util

  /**
   * `ClusterLevel`, in the order of its constants. `Parent` exists only in
   * the internal printer; the parser never produces it.
   */
  datatype ClusterLevel = Off | Parent | Shared | Full

  /** The value of a `StyleOptions` struct. */
  datatype Options = Options(scaleNodes: bool, cluster: ClusterLevel)

  /** The zero `StyleOptions`. */
  const Default: Options := Options(false, Off)

  /** What `parseStyleScaleNodes` sets for a value; `None` is its error. */
  function ScaleNodesValue(raw: string): Option<bool>
  {
    var v := ToLower(raw);
    if v == "" || v == "true" || v == "on" || v == "yes" then Some(true)
    else if v == "false" || v == "off" || v == "no" then Some(false)
    else None
  }

  /** What `parseStyleCluster` sets for a value; `None` is its error. */
  function ClusterValue(raw: string): Option<ClusterLevel>
  {
    var v := ToLower(raw);
    if v == "off" || v == "false" || v == "no" then Some(Off)
    else if v == "" || v == "shared" || v == "on" || v == "true" || v == "yes" then Some(Shared)
    else if v == "full" then Some(Full)
    else None
  }

  /** A key or value as the parser compares it: trimmed and lower-cased. */
  function Normal(s: string): string
  {
    ToLower(TrimSpace(s))
  }

  /** A setting's key and value; without `=` the whole setting is the key and the value is empty. */
  function KeyValue(setting: string): (string, string)
  {
    match IndexOf(setting, '=')
    case None => (Normal(setting), "")
    case Some(i) => (Normal(setting[..i]), Normal(setting[i + 1..]))
  }

  /** One non-empty setting applied to the options; `None` for an unknown key or value. */
  function ApplySetting(o: Options, setting: string): Option<Options>
  {
    var (key, value) := KeyValue(setting);
    if key == "scale_nodes" then
      match ScaleNodesValue(value)
      case None => None
      case Some(b) => Some(o.(scaleNodes := b))
    else if key == "cluster" then
      match ClusterValue(value)
      case None => None
      case Some(c) => Some(o.(cluster := c))
    else None
  }

  /** The settings applied left to right, skipping empty ones and stopping at the first error. */
  function ApplySettings(o: Options, settings: seq<string>): Option<Options>
    decreases |settings|
  {
    if settings == [] then Some(o)
    else if settings[0] == "" then ApplySettings(o, settings[1..])
    else match ApplySetting(o, settings[0])
      case None => None
      case Some(o1) => ApplySettings(o1, settings[1..])
  }

  /** What `ParseVisualConfig` returns: the options, or `None` with its error. */
  function VisualConfig(config: string): Option<Options>
  {
    ApplySettings(Default, Split(config, ','))
  }

  /** Settings applied after an outcome: an error stays an error. */
  function Then(r: Option<Options>, settings: seq<string>): Option<Options>
  {
    match r
    case None => None
    case Some(o) => ApplySettings(o, settings)
  }

  /** The `StyleOptions` struct that the parser fills in by reference. */
  class StyleOptions {
    var scaleNodes: bool
    var cluster: ClusterLevel

    function Value(): Options
      reads this
    {
      Options(scaleNodes, cluster)
    }

    constructor ()
      ensures Value() == Default
    {
      scaleNodes := false;
      cluster := Off;
    }

    /** `parseStyleScaleNodes`: set the field for an accepted value, report an error otherwise. */
    method ParseStyleScaleNodes(raw: string) returns (ok: bool)
      modifies this
      ensures ok <==> ScaleNodesValue(raw).Some?
      ensures ok ==> Value() == old(Value()).(scaleNodes := ScaleNodesValue(raw).value)
      ensures !ok ==> Value() == old(Value())
    {
      var v := ToLower(raw);
      if v == "" || v == "true" || v == "on" || v == "yes" {
        scaleNodes := true;
      } else if v == "false" || v == "off" || v == "no" {
        scaleNodes := false;
      } else {
        return false;
      }
      return true;
    }

    /** `parseStyleCluster`: set the field for an accepted value, report an error otherwise. */
    method ParseStyleCluster(raw: string) returns (ok: bool)
      modifies this
      ensures ok <==> ClusterValue(raw).Some?
      ensures ok ==> Value() == old(Value()).(cluster := ClusterValue(raw).value)
      ensures !ok ==> Value() == old(Value())
    {
      var v := ToLower(raw);
      if v == "off" || v == "false" || v == "no" {
        cluster := Off;
      } else if v == "" || v == "shared" || v == "on" || v == "true" || v == "yes" {
        cluster := Shared;
      } else if v == "full" {
        cluster := Full;
      } else {
        return false;
      }
      return true;
    }

    /** One non-empty setting of the loop of `ParseVisualConfig`. */
    method Apply(setting: string) returns (ok: bool)
      modifies this
      ensures ok <==> ApplySetting(old(Value()), setting).Some?
      ensures ok ==> Value() == ApplySetting(old(Value()), setting).value
    {
      var configKey := setting;
      var configValue := "";
      var valueIdx := IndexOf(setting, '=');
      if valueIdx.Some? {
        configKey := setting[..valueIdx.value];
        configValue := setting[valueIdx.value + 1..];
      }
      configKey := ToLower(TrimSpace(configKey));
      configValue := ToLower(TrimSpace(configValue));
      if configKey == "scale_nodes" {
        ok := ParseStyleScaleNodes(configValue);
      } else if configKey == "cluster" {
        ok := ParseStyleCluster(configValue);
      } else {
        ok := false;
      }
    }
  }

  /** `ParseVisualConfig`: fresh options filled in by the settings, or `None` at the first error. */
  method ParseVisualConfig(config: string) returns (r: Option<StyleOptions>)
    ensures r.None? <==> VisualConfig(config).None?
    ensures r.Some? ==> fresh(r.value) && r.value.Value() == VisualConfig(config).value
  {
    var styleOptions := new StyleOptions();
    var settings := Split(config, ',');
    for i := 0 to |settings|
      invariant ApplySettings(styleOptions.Value(), settings[i..]) == VisualConfig(config)
    {
      assert settings[i..][1..] == settings[i + 1..];
      if settings[i] == "" {
        continue;
      }
      var ok := styleOptions.Apply(settings[i]);
      if !ok {
        return None;
      }
    }
    return Some(styleOptions);
  }

  // ---------------------------------------------------------------------------
  // Properties.

  /** Settings apply in order: applying a concatenation is applying each part in turn. */
  lemma {:induction false} SettingsAppend(o: Options, a: seq<string>, b: seq<string>)
    ensures ApplySettings(o, a + b) == Then(ApplySettings(o, a), b)
    decreases |a|
  {
    if a != [] {
      assert (a + b)[1..] == a[1..] + b;
      if a[0] == "" {
        SettingsAppend(o, a[1..], b);
      } else if ApplySetting(o, a[0]).Some? {
        SettingsAppend(ApplySetting(o, a[0]).value, a[1..], b);
      }
    } else {
      assert a + b == b;
    }
  }

  /** A later valid `cluster` setting overrides every earlier one. */
  lemma LastClusterWins(o: Options, settings: seq<string>, last: string)
    requires last != "" && KeyValue(last).0 == "cluster" && ClusterValue(KeyValue(last).1).Some?
    ensures var r := ApplySettings(o, settings + [last]);
      r.Some? ==> r.value.cluster == ClusterValue(KeyValue(last).1).value
  {
    SettingsAppend(o, settings, [last]);
    var r0 := ApplySettings(o, settings);
    if r0.Some? {
      OneSetting(r0.value, last);
      ClusterSetting(r0.value, last);
    }
  }

  /** A valid `cluster` setting sets the layout and nothing else. */
  lemma ClusterSetting(o: Options, s: string)
    requires KeyValue(s).0 == "cluster" && ClusterValue(KeyValue(s).1).Some?
    ensures ApplySetting(o, s) == Some(o.(cluster := ClusterValue(KeyValue(s).1).value))
  {
    assert "cluster"[0] != "scale_nodes"[0];
  }

  lemma OneSetting(o: Options, s: string)
    requires s != ""
    ensures ApplySettings(o, [s]) == ApplySetting(o, s)
  {
    assert [s][1..] == [];
  }

  /** Values are compared case-insensitively. */
  lemma ValuesIgnoreCase(raw: string)
    ensures ScaleNodesValue(ToLower(raw)) == ScaleNodesValue(raw)
    ensures ClusterValue(ToLower(raw)) == ClusterValue(raw)
  {
    ToLowerIdempotent(raw);
  }

  /** The empty configuration gives the zero options. */
  lemma EmptyIsDefault()
    ensures VisualConfig("") == Some(Default)
  {
    assert Split("", ',') == [""];
  }

  // How a single setting is read.

  lemma IndexAt(s: string, c: char, k: nat)
    requires k < |s| && s[k] == c && c !in s[..k]
    ensures IndexOf(s, c) == Some(k)
  {
  }

  /** A setting splits at its first `=`: the key is what precedes it, the value what follows. */
  lemma PairKey(a: string, b: string)
    requires '=' !in a
    ensures KeyValue(a + "=" + b) == (Normal(a), Normal(b))
  {
    var s := a + "=" + b;
    assert s[|a|] == '=' && s[..|a|] == a && s[|a| + 1..] == b;
    IndexAt(s, '=', |a|);
  }

  /** A key without `=` reads as an empty value: `scale_nodes` turns scaling on, `cluster` selects `Shared`. */
  lemma BareSetting(o: Options, s: string)
    requires '=' !in s
    ensures Normal(s) == "scale_nodes" ==> ApplySetting(o, s) == Some(o.(scaleNodes := true))
    ensures Normal(s) == "cluster" ==> ApplySetting(o, s) == Some(o.(cluster := Shared))
  {
    assert ToLower("") == "";
  }

  /** Keys and values are trimmed and compared case-insensitively: settings with the same normal forms agree. */
  lemma SettingIgnoresCaseAndSpace(o: Options, a: string, b: string, a2: string, b2: string)
    requires '=' !in a && '=' !in a2
    requires Normal(a) == Normal(a2) && Normal(b) == Normal(b2)
    ensures ApplySetting(o, a + "=" + b) == ApplySetting(o, a2 + "=" + b2)
  {
    PairKey(a, b);
    PairKey(a2, b2);
  }

  /** Whether a setting is an error does not depend on the options it is applied to. */
  lemma ErrorIndependent(o1: Options, o2: Options, s: string)
    ensures ApplySetting(o1, s).None? <==> ApplySetting(o2, s).None?
  {
  }

  /** A setting that is an error anywhere among the settings makes the whole configuration an error. */
  lemma {:induction false} SettingErrorFails(o: Options, settings: seq<string>, k: int)
    requires 0 <= k < |settings| && settings[k] != "" && ApplySetting(Default, settings[k]).None?
    ensures ApplySettings(o, settings) == None
    decreases k
  {
    var rest := settings[1..];
    if k > 0 {
      assert rest[k - 1] == settings[k];
      if settings[0] == "" {
        SettingErrorFails(o, rest, k - 1);
      } else {
        var r := ApplySetting(o, settings[0]);
        if r.Some? {
          SettingErrorFails(r.value, rest, k - 1);
        }
      }
    } else {
      ErrorIndependent(o, Default, settings[0]);
    }
  }
}
