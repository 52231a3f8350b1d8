/**
 * The svgo plugin records as the wrapper sees them: each imported plugin module
 * is an object with a `type`, an `active` flag and, for some plugins, a `params`
 * object.
 */
module Plugins {
  import opened Wrappers

  /** The value of one entry of a plugin's `params` object. */
  datatype ParamValue = Number(n: int) | OtherParam(text: string)

  /**
   * One plugin module. `kind` is its `type` field ("perItem", "full", ...);
   * `params` is `None` when the module has no `params` object.
   */
  datatype Plugin = Plugin(kind: string, active: bool, params: Option<map<string, ParamValue>>)
}

/**
 * The `pluginsData` table built in `optimize` and the two loops that apply
 * the user's settings to it before the plugins are grouped and run.
 */
module PluginSettings {
  import opened Wrappers
  import opened Plugins
  import opened PluginGroups

  /** The plugin whose precision is never set to 0. */
  const CleanupNumericValues: string := "cleanupNumericValues"

  /** The parameter key the precision loop looks for. */
  const FloatPrecisionKey: string := "floatPrecision"

  /** The user's settings: the requested `active` flag per plugin name and the precision. */
  datatype Settings = Settings(plugins: map<string, bool>, floatPrecision: int)

  /** `names` lists every key of `table` once: the order of `Object.keys(pluginsData)`. */
  ghost predicate WellOrdered(names: seq<string>, table: map<string, Plugin>)
  {
    && (forall i, j :: 0 <= i < j < |names| ==> names[i] != names[j])
    && (forall i :: 0 <= i < |names| ==> names[i] in table)
    && (forall n :: n in table ==> n in names)
  }

  /** `Object.values(pluginsData)`: the plugins in key order. */
  function ValuesInOrder(names: seq<string>, table: map<string, Plugin>): (vs: seq<Plugin>)
    requires forall i :: 0 <= i < |names| ==> names[i] in table
    ensures |vs| == |names|
    ensures forall i :: 0 <= i < |names| ==> vs[i] == table[names[i]]
  {
    seq(|names|, i requires 0 <= i < |names| => table[names[i]])
  }

  /** The `active` flag of a plugin after the settings request `requested` for `name`. */
  function Activated(table: map<string, Plugin>, requested: map<string, bool>): (t: map<string, Plugin>)
    ensures t.Keys == table.Keys
    ensures forall n :: n in t ==> t[n].kind == table[n].kind && t[n].params == table[n].params
    ensures forall n :: n in t && n in requested ==> t[n].active == requested[n]
    ensures forall n :: n in t && n !in requested ==> t[n] == table[n]
  {
    map n | n in table :: if n in requested then table[n].(active := requested[n]) else table[n]
  }

  /**
   * The precision a plugin receives: the requested one, except that
   * cleanupNumericValues receives 1 instead of 0.
   */
  function PrecisionFor(name: string, precision: int): (p: int)
    ensures name != CleanupNumericValues ==> p == precision
    ensures precision != 0 ==> p == precision
    ensures name == CleanupNumericValues && precision == 0 ==> p == 1
  {
    if name == CleanupNumericValues && precision == 0 then 1 else precision
  }

  /** One plugin after the precision loop has visited it. */
  function WithPrecision(name: string, plugin: Plugin, precision: int): (q: Plugin)
    ensures q.kind == plugin.kind && q.active == plugin.active && q.params.Some? == plugin.params.Some?
    ensures plugin.params.None? || FloatPrecisionKey !in plugin.params.value ==> q == plugin
    ensures plugin.params.Some? && FloatPrecisionKey in plugin.params.value ==>
      q.params.value.Keys == plugin.params.value.Keys
      && q.params.value[FloatPrecisionKey] == Number(PrecisionFor(name, precision))
      && forall k :: k in plugin.params.value && k != FloatPrecisionKey ==> q.params.value[k] == plugin.params.value[k]
  {
    match plugin.params
    case Some(ps) =>
      if FloatPrecisionKey in ps then
        plugin.(params := Some(ps[FloatPrecisionKey := Number(PrecisionFor(name, precision))]))
      else plugin
    case None => plugin
  }

  /** The whole table after the precision loop. */
  function Precised(table: map<string, Plugin>, precision: int): (t: map<string, Plugin>)
    ensures t.Keys == table.Keys
    ensures forall n :: n in t ==> t[n] == WithPrecision(n, table[n], precision)
  {
    map n | n in table :: WithPrecision(n, table[n], precision)
  }

  /**
   * Neither settings loop changes a plugin's `type`, so the plugin list
   * `Object.values(pluginsData)` is grouped into runs of the same sizes and
   * `type`s before and after the settings are applied.
   */
  lemma SettingsKeepGrouping(names: seq<string>, table: map<string, Plugin>, settings: Settings)
    requires forall i :: 0 <= i < |names| ==> names[i] in table
    ensures SameShape(Groups(ValuesInOrder(names, table)),
                      Groups(ValuesInOrder(names, Precised(Activated(table, settings.plugins), settings.floatPrecision))))
  {
    var after := Precised(Activated(table, settings.plugins), settings.floatPrecision);
    var before, now := ValuesInOrder(names, table), ValuesInOrder(names, after);
    assert forall i :: 0 <= i < |names| ==> before[i].kind == now[i].kind;
    GroupsFollowKinds(before, now);
  }

  class PluginTable {
    /** The keys of `pluginsData` in declaration order. */
    var names: seq<string>
    /** `pluginsData`: the plugin module registered under each name. */
    var plugins: map<string, Plugin>

    ghost predicate Valid()
      reads this
    {
      WellOrdered(names, plugins)
    }

    constructor (names: seq<string>, plugins: map<string, Plugin>)
      requires WellOrdered(names, plugins)
      ensures Valid() && this.names == names && this.plugins == plugins
    {
      this.names := names;
      this.plugins := plugins;
    }

    /**
     * The activation loop: for every name of the settings that is a key of
     * the table, the plugin's `active` flag becomes the requested value.
     * Unknown names are ignored.
     */
    method Activate(requested: map<string, bool>)
      requires Valid()
      modifies this
      ensures Valid() && names == old(names)
      ensures plugins == Activated(old(plugins), requested)
    {
      var pending := requested.Keys;
      ghost var done: set<string> := {};
      while pending != {}
        invariant names == old(names)
        invariant pending + done == requested.Keys && pending !! done
        invariant plugins.Keys == old(plugins).Keys
        invariant forall n :: n in plugins && n in done ==> plugins[n] == old(plugins)[n].(active := requested[n])
        invariant forall n :: n in plugins && n !in done ==> plugins[n] == old(plugins)[n]
        decreases pending
      {
        var name :| name in pending;
        if name in plugins {
          plugins := plugins[name := plugins[name].(active := requested[name])];
          assert plugins[name] == old(plugins)[name].(active := requested[name]);
        }
        pending := pending - {name};
        done := done + {name};
      }
      ghost var expected := Activated(old(plugins), requested);
      assert forall n :: n in plugins ==> plugins[n] == expected[n];
    }

    /**
     * The settings step of `optimize`: the activation loop over the requested
     * flags, then the precision loop over every plugin.
     */
    method ApplySettings(settings: Settings)
      requires Valid()
      modifies this
      ensures Valid() && names == old(names)
      ensures plugins == Precised(Activated(old(plugins), settings.plugins), settings.floatPrecision)
      ensures SameShape(Groups(ValuesInOrder(old(names), old(plugins))), Groups(ValuesInOrder(names, plugins)))
    {
      Activate(settings.plugins);
      SetFloatPrecision(settings.floatPrecision);
      SettingsKeepGrouping(old(names), old(plugins), settings);
    }

    /** One round of the precision loop: the plugin registered under `name`. */
    method SetPluginPrecision(name: string, precision: int)
      requires name in plugins
      modifies this
      ensures names == old(names)
      ensures plugins == old(plugins)[name := WithPrecision(name, old(plugins)[name], precision)]
    {
      var plugin := plugins[name];
      if plugin.params.Some? && FloatPrecisionKey in plugin.params.value {
        if name == CleanupNumericValues && precision == 0 {
          plugins := plugins[name := plugin.(params := Some(plugin.params.value[FloatPrecisionKey := Number(1)]))];
        } else {
          plugins := plugins[name := plugin.(params := Some(plugin.params.value[FloatPrecisionKey := Number(precision)]))];
        }
      } else {
        assert plugins == plugins[name := plugin];
      }
    }

    /**
     * The precision loop: every plugin whose params have a `floatPrecision`
     * key receives the requested precision (1 instead of 0 for
     * cleanupNumericValues); every other plugin is left as it was.
     */
    method SetFloatPrecision(precision: int)
      requires Valid()
      modifies this
      ensures Valid() && names == old(names)
      ensures plugins == Precised(old(plugins), precision)
    {
      var keys := names;
      ghost var table := plugins;
      assert WellOrdered(keys, table);
      for i := 0 to |keys|
        invariant names == keys && plugins.Keys == table.Keys
        invariant forall j :: 0 <= j < |keys| ==>
          plugins[keys[j]] == if j < i then WithPrecision(keys[j], table[keys[j]], precision) else table[keys[j]]
      {
        var name := keys[i];
        SetPluginPrecision(name, precision);
        assert forall j :: 0 <= j < |keys| && j != i ==> keys[j] != name;
      }
      ghost var expected := Precised(table, precision);
      forall n | n in plugins ensures plugins[n] == expected[n] {
        var j :| 0 <= j < |keys| && keys[j] == n;
      }
    }
  }
}
