/** The `rg config` commands that decide something: `unset` (dot-path
    navigation and deletion in the loaded configuration), the not-found rule
    of `get`, the scalar rendering of `_render_value`, and the default-enabled
    reading of the notification settings. The configuration manager is not
    part of this model: what it loads and what `get_value` returns are
    inputs, and saving is recorded in `ConfigFile`. */
module ConfigCommands {
  import opened Text
  import opened Optional

  /** A YAML value as loaded into Python (floats and non-string keys aside). */
  datatype Value =
    | Null
    | Bool(b: bool)
    | Int(i: int)
    | Str(s: string)
    | List(items: seq<Value>)
    | Dict(entries: map<string, Value>)

  // ---------------------------------------------------------------------
  // Rendering and `get`
  // ---------------------------------------------------------------------

  /** `_render_value`: booleans and null get markup, other scalars their
      `str`, and containers are handed to the YAML dumper `dump`. */
  function RenderValue(v: Value, dump: Value -> string): string
  {
    match v
    case Dict(_) => dump(v)
    case List(_) => dump(v)
    case Bool(b) => if b then "[green]true[/green]" else "[red]false[/red]"
    case Null => "[dim]null[/dim]"
    case Int(i) => IntToString(i)
    case Str(s) => s
  }

  predicate IsScalar(v: Value)
  {
    v.Null? || v.Bool? || v.Int?
  }

  /** Null, the two booleans and every integer render differently, and an
      integer's rendering reads back as that integer. */
  lemma RenderDistinguishesScalars(u: Value, w: Value, dump: Value -> string)
    requires IsScalar(u) && IsScalar(w)
    requires RenderValue(u, dump) == RenderValue(w, dump)
    ensures u == w
  {
    var ru := RenderValue(u, dump);
    if u.Int? {
      IntToStringRoundTrip(u.i);
      assert ru[0] == '-' || IsDigit(ru[0]);
    }
    if w.Int? {
      IntToStringRoundTrip(w.i);
      assert ru[0] == '-' || IsDigit(ru[0]);
    }
    if u.Int? && w.Int? {
      IntToStringInjective(u.i, w.i);
    }
  }

  /** An integer value is displayed as a numeral that reads back to it. */
  lemma RenderIntReadsBack(i: int, dump: Value -> string)
    ensures var r := RenderValue(Int(i), dump);
            |r| >= 1 && (if r[0] == '-' then AllDigits(r[1..]) else AllDigits(r)) && DecimalValue(r) == i
  {
    IntToStringRoundTrip(i);
  }

  /** What a command prints, and the code it exits with. */
  datatype Reply = Reply(exitCode: nat, line: string)

  function NotFoundLine(path: string): string
  {
    "[yellow]'" + path + "' not found[/yellow]"
  }

  /** `get_cmd`, given what `get_value(path)` returned (`Null` for `None`). */
  function GetCmd(path: string, value: Value, dump: Value -> string): Reply
  {
    if value == Null then Reply(1, NotFoundLine(path))
    else Reply(0, "[cyan]" + path + "[/cyan] = " + RenderValue(value, dump))
  }

  /** `get` fails exactly when the looked-up value is `None`, so a key set to
      null is reported as not found; otherwise it shows the rendered value. */
  lemma GetNotFoundRule(path: string, value: Value, dump: Value -> string)
    ensures var r := GetCmd(path, value, dump);
            && (r.exitCode == 1 <==> value == Null)
            && (r.exitCode == 0 <==> value != Null)
            && (value != Null ==> IsSuffix(" = " + RenderValue(value, dump), r.line)
                                  && IsPrefix("[cyan]" + path + "[/cyan]", r.line))
            && (value == Null ==> Contains(r.line, path))
  {
    var r := GetCmd(path, value, dump);
    if value != Null {
      var head := "[cyan]" + path + "[/cyan]";
      var tail := " = " + RenderValue(value, dump);
      assert r.line == head + tail;
      assert r.line[..|head|] == head;
      assert r.line[|r.line| - |tail|..] == tail;
    } else {
      ContainsSelf(path);
      ContainsPrepend("[yellow]'", path, path);
      ContainsExtend("[yellow]'" + path, "' not found[/yellow]", path);
    }
  }

  // ---------------------------------------------------------------------
  // The notifications view
  // ---------------------------------------------------------------------

  /** Python truthiness of a value, as `if enabled:` reads it. */
  predicate Truthy(v: Value)
  {
    match v
    case Null => false
    case Bool(b) => b
    case Int(i) => i != 0
    case Str(s) => s != ""
    case List(xs) => xs != []
    case Dict(m) => m != map[]
  }

  /** `d.get(key, default)`. */
  function Get(m: map<string, Value>, key: string, default: Value): Value
  {
    if key in m then m[key] else default
  }

  /** The events the view lists, in order, with their descriptions. */
  const EventDescriptions: seq<(string, string)> := [
    ("push", "Push completed"),
    ("pr_created", "PR created"),
    ("issue_completed", "Issue marked as Done"),
    ("issue_created", "Issue created"),
    ("commit", "Commit created"),
    ("session_complete", "Session completed"),
    ("ci_success", "CI/CD success"),
    ("ci_failure", "CI/CD failure")
  ]

  /** The state `notifications_cmd` shows: the master switch and, per listed
      event, whether it is on. */
  datatype SettingsView = SettingsView(master: bool, events: seq<bool>)

  /** `notifications_cmd` over the merged notification settings; `None` when
      `events` is present but not a mapping (`.get` raises). A missing master
      switch, a missing `events` table and a missing event entry all count as
      enabled; a present entry counts by its truthiness. */
  function NotificationsView(settings: map<string, Value>): (r: Option<SettingsView>)
    ensures r.Some? <==> ("events" !in settings || settings["events"].Dict?)
    ensures r.Some? ==> (r.value.master <==> "enabled" !in settings || Truthy(settings["enabled"]))
    ensures r.Some? ==> |r.value.events| == |EventDescriptions|
    ensures r.Some? ==>
              forall i :: 0 <= i < |EventDescriptions| ==>
                (r.value.events[i] <==> "events" !in settings
                                        || EventDescriptions[i].0 !in settings["events"].entries
                                        || Truthy(settings["events"].entries[EventDescriptions[i].0]))
  {
    var events := Get(settings, "events", Dict(map[]));
    if !events.Dict? then None
    else
      Some(SettingsView(
        Truthy(Get(settings, "enabled", Bool(true))),
        seq(|EventDescriptions|, i requires 0 <= i < |EventDescriptions| =>
          Truthy(Get(events.entries, EventDescriptions[i].0, Bool(true))))))
  }

  // ---------------------------------------------------------------------
  // `unset`: navigating a dot path
  // ---------------------------------------------------------------------

  /** Python `key in v`: a dict tests its keys, a list its elements, a string
      its substrings; `None` for a value `in` raises on. */
  function PyIn(v: Value, key: string): Option<bool>
  {
    match v
    case Dict(m) => Some(key in m)
    case List(xs) => Some(Str(key) in xs)
    case Str(s) => Some(Contains(s, key))
    case _ => None
  }

  /** Where following a path leads: a value, a missing key, or a `TypeError`. */
  datatype Walk = At(v: Value) | Missing | Fails

  /** One step of `unset`'s navigation: test `key in current`, then take
      `current[key]`, which only a mapping allows with a string key. */
  function Step(current: Value, key: string): Walk
  {
    match PyIn(current, key)
    case None => Fails
    case Some(found) =>
      if !found then Missing
      else if current.Dict? then At(current.entries[key])
      else Fails
  }

  /** Following `keys` from `v` one step at a time. */
  function Navigate(v: Value, keys: seq<string>): Walk
    decreases |keys|
  {
    if keys == [] then At(v)
    else
      match Step(v, keys[0])
      case At(next) => Navigate(next, keys[1..])
      case Missing => Missing
      case Fails => Fails
  }

  /** Following `keys + [k]` is following `keys`, then one more step. */
  lemma {:induction false} NavigateSnoc(v: Value, keys: seq<string>, k: string)
    ensures Navigate(v, keys + [k])
         == match Navigate(v, keys)
            case At(c) => Step(c, k)
            case Missing => Missing
            case Fails => Fails
    decreases |keys|
  {
    if keys == [] {
      assert [] + [k] == [k];
      assert Navigate(v, [k]) == match Step(v, k) case At(n) => Navigate(n, []) case Missing => Missing case Fails => Fails;
    } else {
      assert (keys + [k])[1..] == keys[1..] + [k];
      match Step(v, keys[0])
      case At(next) => NavigateSnoc(next, keys[1..], k);
      case Missing =>
      case Fails =>
    }
  }

  predicate ReachesDict(v: Value, keys: seq<string>)
  {
    Navigate(v, keys).At? && Navigate(v, keys).v.Dict?
  }

  /** `del current[final]` where `current` is the mapping at `parents`: the
      configuration with that one entry gone, every map on the way rebuilt. */
  function DeleteAt(config: map<string, Value>, parents: seq<string>, final: string): map<string, Value>
    requires ReachesDict(Dict(config), parents)
    decreases |parents|
  {
    if parents == [] then config - {final}
    else
      var child := config[parents[0]];
      assert Navigate(Dict(config), parents) == Navigate(child, parents[1..]);
      config[parents[0] := Dict(DeleteAt(child.entries, parents[1..], final))]
  }

  /** The result of `unset`: the configuration it saves, or why it exits 1. */
  datatype UnsetResult = Removed(config: map<string, Value>) | NotFound | TypeFailure

  /** `unset_cmd` on the loaded configuration and the split path: navigate
      to the parent, then remove the final key if it is there. */
  function Unset(config: map<string, Value>, keys: seq<string>): UnsetResult
    requires |keys| >= 1
  {
    var parents, final := keys[..|keys| - 1], keys[|keys| - 1];
    match Navigate(Dict(config), parents)
    case Missing => NotFound
    case Fails => TypeFailure
    case At(current) =>
      match PyIn(current, final)
      case None => TypeFailure
      case Some(found) =>
        if !found then NotFound
        else if current.Dict? then Removed(DeleteAt(config, parents, final))
        else TypeFailure
  }

  /** `unset` exits 0 only when it removed something. */
  function ExitCode(r: UnsetResult): nat
  {
    if r.Removed? then 0 else 1
  }

  /** `unset` removes exactly when the whole path exists, reports not found
      exactly when a key on it is missing, and fails otherwise. */
  lemma UnsetFollowsPath(config: map<string, Value>, keys: seq<string>)
    requires |keys| >= 1
    ensures Unset(config, keys).Removed? <==> Navigate(Dict(config), keys).At?
    ensures Unset(config, keys).NotFound? <==> Navigate(Dict(config), keys).Missing?
    ensures Unset(config, keys).TypeFailure? <==> Navigate(Dict(config), keys).Fails?
  {
    var parents := keys[..|keys| - 1];
    assert keys == parents + [keys[|keys| - 1]];
    NavigateSnoc(Dict(config), parents, keys[|keys| - 1]);
  }

  /** A missing intermediate key makes `unset` report not found. */
  lemma UnsetMissingIntermediate(config: map<string, Value>, keys: seq<string>, j: nat)
    requires |keys| >= 1 && j < |keys|
    requires Navigate(Dict(config), keys[..j]) == Missing
    ensures Unset(config, keys) == NotFound
  {
    StopsEarly(Dict(config), keys, j);
    UnsetFollowsPath(config, keys);
  }

  /** After deleting, the parent holds every key it held but `final`. */
  lemma {:induction false} DeleteAtParent(config: map<string, Value>, parents: seq<string>, final: string)
    requires ReachesDict(Dict(config), parents)
    ensures Navigate(Dict(DeleteAt(config, parents, final)), parents)
         == At(Dict(Navigate(Dict(config), parents).v.entries - {final}))
    decreases |parents|
  {
    if parents != [] {
      var child := config[parents[0]];
      assert Navigate(Dict(config), parents) == Navigate(child, parents[1..]);
      DeleteAtParent(child.entries, parents[1..], final);
    }
  }

  /** Paths that leave the removed path somewhere lead where they led. */
  lemma {:induction false} DeleteAtKeepsOthers(config: map<string, Value>, parents: seq<string>, final: string,
                                             q: seq<string>, j: nat)
    requires ReachesDict(Dict(config), parents)
    requires j < |q| && j <= |parents|
    requires q[..j] == parents[..j]
    requires q[j] != (parents + [final])[j]
    ensures Navigate(Dict(DeleteAt(config, parents, final)), q) == Navigate(Dict(config), q)
    decreases |parents|
  {
    var updated := DeleteAt(config, parents, final);
    if j == 0 {
      if parents == [] {
        assert q[0] != final;
      } else {
        assert q[0] != parents[0];
      }
      assert Step(Dict(updated), q[0]) == Step(Dict(config), q[0]);
    } else {
      var child := config[parents[0]];
      assert Navigate(Dict(config), parents) == Navigate(child, parents[1..]);
      assert q[0] == parents[0];
      assert q[1..][..j - 1] == parents[1..][..j - 1];
      assert (parents + [final])[j] == (parents[1..] + [final])[j - 1];
      DeleteAtKeepsOthers(child.entries, parents[1..], final, q[1..], j - 1);
    }
  }

  /** After a successful `unset` the path is gone, its parent lost exactly
      the final key, and every path that branches off it is unchanged. */
  lemma UnsetRemovesOnlyPath(config: map<string, Value>, keys: seq<string>)
    requires |keys| >= 1
    requires Unset(config, keys).Removed?
    ensures var updated := Unset(config, keys).config;
            var parents, final := keys[..|keys| - 1], keys[|keys| - 1];
            && Navigate(Dict(updated), keys) == Missing
            && Navigate(Dict(updated), parents) == At(Dict(Navigate(Dict(config), parents).v.entries - {final}))
            && forall q: seq<string>, j: nat ::
                 j < |q| && j < |keys| && q[..j] == keys[..j] && q[j] != keys[j] ==>
                   Navigate(Dict(updated), q) == Navigate(Dict(config), q)
  {
    var parents, final := keys[..|keys| - 1], keys[|keys| - 1];
    var updated := Unset(config, keys).config;
    assert keys == parents + [final];
    DeleteAtParent(config, parents, final);
    NavigateSnoc(Dict(updated), parents, final);
    forall q: seq<string>, j: nat | j < |q| && j < |keys| && q[..j] == keys[..j] && q[j] != keys[j]
      ensures Navigate(Dict(updated), q) == Navigate(Dict(config), q)
    {
      assert parents[..j] == keys[..j];
      DeleteAtKeepsOthers(config, parents, final, q, j);
    }
  }

  // ---------------------------------------------------------------------
  // The configuration file and the `unset` command
  // ---------------------------------------------------------------------

  /** The configuration file as the configuration manager loads and saves it. */
  class ConfigFile {
    /** What `load()` returns. */
    var contents: map<string, Value>
    /** The configurations passed to `save`, in order. */
    var saves: seq<map<string, Value>>

    constructor (contents: map<string, Value>)
      ensures this.contents == contents && saves == []
    {
      this.contents := contents;
      saves := [];
    }

    /** `unset_cmd`: the loop walks `current` down to the parent of the
        final key; a removal is saved, a failure leaves the file alone. */
    method UnsetCmd(path: string) returns (result: UnsetResult, exitCode: nat)
      modifies this
      ensures result == Unset(old(contents), Split(path, '.'))
      ensures exitCode == ExitCode(result)
      ensures result.Removed? ==> contents == result.config && saves == old(saves) + [result.config]
      ensures !result.Removed? ==> contents == old(contents) && saves == old(saves)
    {
      var keys := Split(path, '.');
      var config := contents;
      var current := Dict(config);
      var i := 0;
      while i < |keys| - 1
        invariant 0 <= i <= |keys| - 1
        invariant Navigate(Dict(config), keys[..i]) == At(current)
        invariant contents == config && saves == old(saves)
      {
        var key := keys[i];
        NavigateSnoc(Dict(config), keys[..i], key);
        assert keys[..i + 1] == keys[..i] + [key];
        var found := PyIn(current, key);
        if found.None? || (found.value && !current.Dict?) {
          MissingOrFailsStays(config, keys, i + 1);
          return TypeFailure, 1;
        }
        if !found.value {
          MissingOrFailsStays(config, keys, i + 1);
          return NotFound, 1;
        }
        current := current.entries[key];
        i := i + 1;
      }
      var final := keys[|keys| - 1];
      var found := PyIn(current, final);
      if found.None? || (found.value && !current.Dict?) {
        return TypeFailure, 1;
      }
      if !found.value {
        return NotFound, 1;
      }
      var updated := DeleteAt(config, keys[..|keys| - 1], final);
      contents := updated;
      saves := saves + [updated];
      return Removed(updated), 0;
    }
  }

  /** A path that stops before the parent stops the whole `unset` the same way. */
  lemma MissingOrFailsStays(config: map<string, Value>, keys: seq<string>, j: nat)
    requires 1 <= j < |keys|
    requires !Navigate(Dict(config), keys[..j]).At?
    ensures Unset(config, keys) == if Navigate(Dict(config), keys[..j]).Missing? then NotFound else TypeFailure
  {
    var parents := keys[..|keys| - 1];
    assert parents[..j] == keys[..j];
    StopsEarly(Dict(config), parents, j);
  }

  /** Following a longer path ends the way a prefix that stopped ended. */
  lemma {:induction false} StopsEarly(v: Value, keys: seq<string>, j: nat)
    requires j <= |keys|
    requires !Navigate(v, keys[..j]).At?
    ensures Navigate(v, keys) == Navigate(v, keys[..j])
    decreases |keys| - j
  {
    if j < |keys| {
      NavigateSnoc(v, keys[..j], keys[j]);
      assert keys[..j + 1] == keys[..j] + [keys[j]];
      StopsEarly(v, keys, j + 1);
    } else {
      assert keys[..j] == keys;
    }
  }
}
