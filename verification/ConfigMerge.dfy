/** Layering configuration: deep merge of JSON trees and the environment overrides on top. */
module ConfigMerge {
  import opened JsonValue
  import opened Text

  /** The merged tree: objects merge key by key, anything else is replaced. An override that
      is no object changes nothing at the top. */
  function Merge(base: Json, over: Json): (r: Json)
    ensures base.Object? || over.Object? ==> r.Object?
    decreases over
  {
    if !over.Object? then base
    else if !base.Object? then over
    else Object(map k | k in base.fields.Keys + over.fields.Keys ::
      if k !in over.fields then base.fields[k]
      else if k in base.fields && base.fields[k].Object? && over.fields[k].Object? then Merge(base.fields[k], over.fields[k])
      else over.fields[k])
  }

  /** One key of a merge of two objects. */
  function MergedField(base: map<string, Json>, over: map<string, Json>, k: string): Json
    requires k in base || k in over
  {
    if k !in over then base[k]
    else if k in base && base[k].Object? && over[k].Object? then Merge(base[k], over[k])
    else over[k]
  }

  lemma MergeFields(base: Json, over: Json)
    requires base.Object? && over.Object?
    ensures Merge(base, over).fields.Keys == base.fields.Keys + over.fields.Keys
    ensures forall k :: k in Merge(base, over).fields ==> Merge(base, over).fields[k] == MergedField(base.fields, over.fields, k)
  {
  }

  /** The loop as written: every override key is inserted or merged into the base's own map. */
  method DeepMerge(base: Json, over: Json) returns (merged: Json)
    ensures merged == Merge(base, over)
    decreases over
  {
    if !over.Object? {
      return base;
    }
    if !base.Object? {
      return over;
    }
    var baseMap, left := base.fields, over.fields.Keys;
    while left != {}
      invariant left <= over.fields.Keys
      invariant baseMap.Keys == base.fields.Keys + (over.fields.Keys - left)
      invariant forall k :: k in baseMap && k in left ==> baseMap[k] == base.fields[k]
      invariant forall k :: k in baseMap && k !in left ==> baseMap[k] == MergedField(base.fields, over.fields, k)
      decreases left
    {
      var key :| key in left;
      var overValue := over.fields[key];
      if key in baseMap && baseMap[key].Object? && overValue.Object? {
        var child := DeepMerge(baseMap[key], overValue);
        baseMap := baseMap[key := child];
      } else {
        baseMap := baseMap[key := overValue];
      }
      left := left - {key};
    }
    MergeFields(base, over);
    merged := Object(baseMap);
    assert merged.fields == Merge(base, over).fields;
  }

  // ----- laws -----

  lemma {:induction false} MergeIsIdempotent(base: Json, over: Json)
    ensures Merge(Merge(base, over), over) == Merge(base, over)
    decreases over
  {
    if over.Object? {
      var m := Merge(base, over);
      assert m.Object?;
      if base.Object? {
        MergeFields(base, over);
      }
      MergeFields(m, over);
      forall k | k in m.fields ensures Merge(m, over).fields[k] == m.fields[k] {
        if k in over.fields && over.fields[k].Object? {
          if base.Object? && k in base.fields && base.fields[k].Object? {
            MergeIsIdempotent(base.fields[k], over.fields[k]);
          } else {
            SelfMerge(over.fields[k]);
          }
        }
      }
      assert Merge(m, over).fields.Keys == m.fields.Keys;
    }
  }

  lemma {:induction false} SelfMerge(j: Json)
    ensures Merge(j, j) == j
    decreases j
  {
    if j.Object? {
      MergeFields(j, j);
      forall k | k in j.fields ensures Merge(j, j).fields[k] == j.fields[k] {
        SelfMerge(j.fields[k]);
      }
      assert Merge(j, j).fields == j.fields;
    }
  }

  /** The value at a path of keys. */
  function At(j: Json, path: seq<string>): Option<Json> {
    if path == [] then Some(j)
    else if j.Object? && path[0] in j.fields then At(j.fields[path[0]], path[1..])
    else None
  }

  /** The override says nothing about the path: it ends at an object without the next key. */
  predicate Untouched(over: Json, path: seq<string>) {
    over.Object? && path != [] && (path[0] !in over.fields || Untouched(over.fields[path[0]], path[1..]))
  }

  lemma {:induction false} UntouchedIsAbsent(over: Json, path: seq<string>)
    requires Untouched(over, path)
    ensures At(over, path) == None
  {
    if path[0] in over.fields {
      UntouchedIsAbsent(over.fields[path[0]], path[1..]);
    }
  }

  /** Paths the override does not mention keep their base values. */
  lemma {:induction false} UntouchedPathsKeepBase(base: Json, over: Json, path: seq<string>)
    requires Untouched(over, path)
    ensures At(Merge(base, over), path) == At(base, path)
    decreases path
  {
    if !base.Object? {
      UntouchedIsAbsent(over, path);
    } else {
      MergeFields(base, over);
      var k := path[0];
      if k in over.fields {
        UntouchedIsAbsent(over.fields[k], path[1..]);
        if k in base.fields && base.fields[k].Object? {
          UntouchedPathsKeepBase(base.fields[k], over.fields[k], path[1..]);
        } else if k in base.fields {
          assert At(base.fields[k], path[1..]) == None;
        }
      }
    }
  }

  /** Every leaf of the override wins. */
  lemma {:induction false} OverrideLeavesWin(base: Json, over: Json, path: seq<string>)
    requires over.Object? && At(over, path).Some? && !At(over, path).value.Object?
    ensures At(Merge(base, over), path) == At(over, path)
    decreases path
  {
    if base.Object? {
      MergeFields(base, over);
      var k := path[0];
      if over.fields[k].Object? && k in base.fields && base.fields[k].Object? {
        OverrideLeavesWin(base.fields[k], over.fields[k], path[1..]);
      }
    }
  }

  // ----- when layers can be grouped -----

  /** Nothing of the base survives the override. */
  predicate Covered(base: Json, over: Json)
    decreases base
  {
    if base.Object? && over.Object? then
      forall k :: k in base.fields ==> k in over.fields && (base.fields[k].Object? && over.fields[k].Object? ==> Covered(base.fields[k], over.fields[k]))
    else over.Object? || base == over
  }

  lemma {:induction false} CoveredExactly(base: Json, over: Json)
    ensures Merge(base, over) == over <==> Covered(base, over)
    decreases base
  {
    if base.Object? && over.Object? {
      MergeFields(base, over);
      var m := Merge(base, over);
      forall k | k in base.fields && k in over.fields && base.fields[k].Object? && over.fields[k].Object?
        ensures m.fields[k] == over.fields[k] <==> Covered(base.fields[k], over.fields[k])
      {
        CoveredExactly(base.fields[k], over.fields[k]);
      }
      if Covered(base, over) {
        assert m.fields == over.fields;
      }
    }
  }

  /** No middle layer cuts off an object that lies below it and comes back above it, unless
      the upper layer covers what was below. */
  predicate Groupable(base: Json, mid: Json, top: Json)
    decreases base
  {
    base.Object? && mid.Object? && top.Object? ==>
      forall k :: k in base.fields && k in mid.fields && k in top.fields && base.fields[k].Object? && top.fields[k].Object? ==>
        if mid.fields[k].Object? then Groupable(base.fields[k], mid.fields[k], top.fields[k]) else Covered(base.fields[k], top.fields[k])
  }

  /** Two layers can be merged first and applied together exactly when they are groupable. */
  lemma {:induction false} MergeIsAssociativeExactly(base: Json, mid: Json, top: Json)
    requires mid.Object? && top.Object?
    ensures Merge(Merge(base, mid), top) == Merge(base, Merge(mid, top)) <==> Groupable(base, mid, top)
    decreases base
  {
    MergeFields(mid, top);
    if base.Object? {
      MergeFields(base, mid);
      var stepwise, grouped := Merge(Merge(base, mid), top), Merge(base, Merge(mid, top));
      MergeFields(Merge(base, mid), top);
      MergeFields(base, Merge(mid, top));
      assert stepwise.fields.Keys == grouped.fields.Keys;
      forall k | k in stepwise.fields
        ensures stepwise.fields[k] == grouped.fields[k] <==>
          (k in base.fields && k in mid.fields && k in top.fields && base.fields[k].Object? && top.fields[k].Object? ==>
            if mid.fields[k].Object? then Groupable(base.fields[k], mid.fields[k], top.fields[k]) else Covered(base.fields[k], top.fields[k]))
      {
        if k in base.fields && k in mid.fields && k in top.fields && base.fields[k].Object? && top.fields[k].Object? {
          if mid.fields[k].Object? {
            MergeIsAssociativeExactly(base.fields[k], mid.fields[k], top.fields[k]);
          } else {
            CoveredExactly(base.fields[k], top.fields[k]);
          }
        }
      }
      if Groupable(base, mid, top) {
        assert stepwise.fields == grouped.fields;
      }
    }
  }

  /** A value in the middle cuts off the object below it: layer by layer the object is gone,
      grouped it comes back. */
  lemma GroupingMatters()
    ensures var base, mid, top := Object(map["a" := Object(map["x" := Null])]), Object(map["a" := Null]), Object(map["a" := Object(map[])]);
            && !Groupable(base, mid, top)
            && Merge(Merge(base, mid), top) == top && Merge(base, Merge(mid, top)) == base
  {
    var lower: Json, none: Json := Object(map["x" := Null]), Object(map[]);
    var base, mid, top := Object(map["a" := lower]), Object(map["a" := Null]), Object(map["a" := none]);
    MergeFields(base, mid);
    assert Merge(base, mid).fields == mid.fields;
    MergeFields(mid, top);
    assert Merge(mid, top).fields == top.fields;
    MergeFields(base, top);
    MergeOntoNothing(lower);
    assert Merge(base, top).fields == base.fields;
    assert "x" in lower.fields && "x" !in none.fields;
    assert "a" in base.fields && "a" in mid.fields && "a" in top.fields;
  }

  // ----- setting one string -----

  function OnePath(path: seq<string>, value: string): Json {
    if path == [] then String(value) else Object(map[path[0] := OnePath(path[1..], value)])
  }

  /** The tree with the string at the path, every non-object on the way replaced by an object. */
  function SetNested(root: Json, path: seq<string>, value: string): Json
    decreases path
  {
    if path == [] then String(value)
    else
      var fields := if root.Object? then root.fields else map[];
      Object(fields[path[0] := SetNested(if path[0] in fields then fields[path[0]] else Object(map[]), path[1..], value)])
  }

  /** Setting a nested string is merging the object with that one path, except that the merge
      of a bare string is ignored. */
  lemma {:induction false} SetNestedIsMergeExactly(root: Json, path: seq<string>, value: string)
    ensures SetNested(root, path, value) == Merge(root, OnePath(path, value)) <==> path != [] || root == String(value)
    decreases path
  {
    if path != [] {
      var k, rest, over := path[0], path[1..], OnePath(path, value);
      var fields := if root.Object? then root.fields else map[];
      var child := if k in fields then fields[k] else Object(map[]);
      assert over.fields[k] == OnePath(rest, value);
      if rest != [] {
        SetNestedIsMergeExactly(child, rest, value);
        FreshPath(rest, value);
        NonObjectChild(child, rest, value);
      }
      if root.Object? {
        MergeFields(root, over);
        assert SetNested(root, path, value).fields == Merge(root, over).fields;
      } else {
        assert SetNested(root, path, value).fields == over.fields;
      }
    }
  }

  /** Below nothing, the path is built as it stands. */
  lemma {:induction false} FreshPath(path: seq<string>, value: string)
    ensures SetNested(Object(map[]), path, value) == OnePath(path, value)
  {
    if path != [] {
      FreshPath(path[1..], value);
    }
  }

  lemma NonObjectChild(child: Json, path: seq<string>, value: string)
    requires path != []
    ensures !child.Object? ==> SetNested(child, path, value) == OnePath(path, value)
  {
    FreshPath(path[1..], value);
  }

  // ----- environment overrides -----

  /** The five overrides the environment can carry. */
  datatype EnvOverrides = EnvOverrides(
    providerKind: Option<string>, modelKind: Option<string>, openaiModel: Option<string>,
    coreBinary: Option<string>, sqlitePath: Option<string>)

  /** One override: a section, a key in it, and the new string. */
  datatype Setting = Setting(section: string, key: string, value: string)

  function Present(section: string, key: string, value: Option<string>): seq<Setting> {
    if value.Some? then [Setting(section, key, value.value)] else []
  }

  function Settings(env: EnvOverrides): seq<Setting> {
    Present("provider", "kind", env.providerKind) + Present("model", "kind", env.modelKind)
    + Present("model", "name", env.openaiModel) + Present("core", "binary", env.coreBinary)
    + Present("storage", "sqlite_path", env.sqlitePath)
  }

  function SettingPath(s: Setting): seq<string> {
    [s.section, s.key]
  }

  function Layer(s: Setting): (j: Json)
    ensures j.Object?
  {
    OnePath(SettingPath(s), s.value)
  }

  /** The settings applied one after the other. */
  function ApplyAll(root: Json, settings: seq<Setting>): Json {
    if settings == [] then root
    else
      var last := settings[|settings| - 1];
      SetNested(ApplyAll(root, settings[..|settings| - 1]), SettingPath(last), last.value)
  }

  /** The settings merged into one object. */
  function Union(settings: seq<Setting>): (j: Json)
    ensures j.Object?
  {
    if settings == [] then Object(map[]) else Merge(Union(settings[..|settings| - 1]), Layer(settings[|settings| - 1]))
  }

  /** Sections hold objects. */
  ghost predicate Sectioned(j: Json) {
    j.Object? && forall k :: k in j.fields ==> j.fields[k].Object?
  }

  lemma LayerShape(s: Setting)
    ensures Layer(s) == Object(map[s.section := Object(map[s.key := String(s.value)])])
  {
    assert SettingPath(s)[1..] == [s.key] && [s.key][1..] == [];
    assert OnePath([s.key], s.value) == Object(map[s.key := OnePath([], s.value)]);
  }

  lemma {:induction false} UnionIsSectioned(settings: seq<Setting>)
    ensures Sectioned(Union(settings))
  {
    if settings != [] {
      var last := settings[|settings| - 1];
      UnionIsSectioned(settings[..|settings| - 1]);
      LayerShape(last);
      MergeFields(Union(settings[..|settings| - 1]), Layer(last));
    }
  }

  lemma SettingsAreGroupable(base: Json, mid: Json, s: Setting)
    requires Sectioned(mid)
    ensures Groupable(base, mid, Layer(s))
  {
    LayerShape(s);
  }

  lemma MergeOntoNothing(base: Json)
    requires base.Object?
    ensures Merge(base, Object(map[])) == base
  {
    MergeFields(base, Object(map[]));
    assert Merge(base, Object(map[])).fields == base.fields;
  }

  /** Applying settings one by one is one merge of their union, unless there is nothing to
      apply and the root is no object. */
  lemma {:induction false} SettingsAreOneMergeExactly(root: Json, settings: seq<Setting>)
    ensures ApplyAll(root, settings) == Merge(root, Union(settings)) <==> root.Object? || settings != []
  {
    if settings == [] {
      if root.Object? {
        MergeOntoNothing(root);
      }
    } else {
      SettingsMerge(root, settings);
    }
  }

  lemma {:induction false} SettingsMerge(root: Json, settings: seq<Setting>)
    requires settings != []
    ensures ApplyAll(root, settings) == Merge(root, Union(settings))
  {
    var init, last := settings[..|settings| - 1], settings[|settings| - 1];
    SetNestedIsMergeExactly(ApplyAll(root, init), SettingPath(last), last.value);
    if init == [] {
      assert Union(init) == Object(map[]);
      LayerOnNothing(last);
    } else {
      SettingsMerge(root, init);
      UnionIsSectioned(init);
      SettingsAreGroupable(root, Union(init), last);
      MergeIsAssociativeExactly(root, Union(init), Layer(last));
    }
  }

  lemma LayerOnNothing(s: Setting)
    ensures Merge(Object(map[]), Layer(s)) == Layer(s)
  {
    LayerShape(s);
    MergeFields(Object(map[]), Layer(s));
    assert Merge(Object(map[]), Layer(s)).fields == Layer(s).fields;
  }

  /** The configuration tree under construction. */
  class ConfigTree {
    var root: Json

    constructor (root: Json)
      ensures this.root == root
    {
      this.root := root;
    }

    method MergeFrom(over: Json)
      modifies this
      ensures root == Merge(old(root), over)
    {
      root := DeepMerge(root, over);
    }

    /** Walks down the path, making objects on the way, and writes the string at its end. The
        borrowed node pointer becomes the list of objects passed, written back bottom up. */
    method SetNestedString(path: seq<string>, value: string)
      modifies this
      ensures root == SetNested(old(root), path, value)
    {
      hide Rebuild;
      var node := root;
      var passed: seq<map<string, Json>> := [];
      StartDescent(root, path, value);
      for i := 0 to |path|
        invariant |passed| == i && root == old(root)
        invariant Rebuild(passed, path[..i], SetNested(node, path[i..], value)) == SetNested(root, path, value)
      {
        var fields := if node.Object? then node.fields else map[];
        DescendStep(passed, path, i, node, fields, value);
        passed := passed + [fields];
        node := if path[i] in fields then fields[path[i]] else Object(map[]);
      }
      EndDescent(passed, path, node, value);
      var rebuilt := String(value);
      for i := |path| downto 0
        invariant root == old(root) && Rebuild(passed[..i], path[..i], rebuilt) == SetNested(root, path, value)
      {
        RebuildStep(passed[..i], path[..i], passed[i], path[i], rebuilt);
        assert passed[..i + 1] == passed[..i] + [passed[i]] && path[..i + 1] == path[..i] + [path[i]];
        rebuilt := Object(passed[i][path[i] := rebuilt]);
      }
      RebuildNothing(passed, path, rebuilt);
      root := rebuilt;
    }

    method ApplyEnvOverrides(env: EnvOverrides)
      modifies this
      ensures root == ApplyAll(old(root), Settings(env))
      ensures old(root).Object? ==> root == Merge(old(root), Union(Settings(env)))
    {
      ApplyInOrder(root, env);
      if env.providerKind.Some? {
        SetNestedString(["provider", "kind"], env.providerKind.value);
      }
      if env.modelKind.Some? {
        SetNestedString(["model", "kind"], env.modelKind.value);
      }
      if env.openaiModel.Some? {
        SetNestedString(["model", "name"], env.openaiModel.value);
      }
      if env.coreBinary.Some? {
        SetNestedString(["core", "binary"], env.coreBinary.value);
      }
      if env.sqlitePath.Some? {
        SetNestedString(["storage", "sqlite_path"], env.sqlitePath.value);
      }
      SettingsAreOneMergeExactly(old(root), Settings(env));
    }
  }

  /** The tree rebuilt around a new node, from the objects passed on the way to it. */
  function Rebuild(passed: seq<map<string, Json>>, path: seq<string>, node: Json): Json
    requires |passed| == |path|
  {
    if path == [] then node
    else
      var n := |path| - 1;
      Rebuild(passed[..n], path[..n], Object(passed[n][path[n] := node]))
  }

  lemma RebuildStep(passed: seq<map<string, Json>>, path: seq<string>, fields: map<string, Json>, key: string, node: Json)
    requires |passed| == |path|
    ensures Rebuild(passed + [fields], path + [key], node) == Rebuild(passed, path, Object(fields[key := node]))
  {
    assert (passed + [fields])[..|path|] == passed && (path + [key])[..|path|] == path;
  }

  lemma RebuildNothing(passed: seq<map<string, Json>>, path: seq<string>, node: Json)
    ensures Rebuild(passed[..0], path[..0], node) == node
  {
  }

  lemma StartDescent(root: Json, path: seq<string>, value: string)
    ensures Rebuild([], path[..0], SetNested(root, path[0..], value)) == SetNested(root, path, value)
  {
    assert path[0..] == path;
  }

  lemma DescendStep(passed: seq<map<string, Json>>, path: seq<string>, i: nat, node: Json, fields: map<string, Json>, value: string)
    requires i < |path| && |passed| == i && fields == (if node.Object? then node.fields else map[])
    ensures Rebuild(passed + [fields], path[..i + 1],
                    SetNested(if path[i] in fields then fields[path[i]] else Object(map[]), path[i + 1..], value))
         == Rebuild(passed, path[..i], SetNested(node, path[i..], value))
  {
    hide Rebuild;
    var key := path[i];
    var child := if key in fields then fields[key] else Object(map[]);
    assert path[i..][1..] == path[i + 1..] && path[..i + 1] == path[..i] + [key];
    RebuildStep(passed, path[..i], fields, key, SetNested(child, path[i + 1..], value));
  }

  lemma EndDescent(passed: seq<map<string, Json>>, path: seq<string>, node: Json, value: string)
    requires |passed| == |path|
    ensures Rebuild(passed[..|path|], path[..|path|], String(value)) == Rebuild(passed, path[..|path|], SetNested(node, path[|path|..], value))
  {
    assert passed[..|path|] == passed && path[|path|..] == [];
  }

  lemma ApplyOne(root: Json, settings: seq<Setting>, s: Setting)
    ensures ApplyAll(root, settings + [s]) == SetNested(ApplyAll(root, settings), SettingPath(s), s.value)
  {
    assert (settings + [s])[..|settings|] == settings;
  }

  /** What the chain of conditional calls computes. */
  function ApplyPresent(root: Json, section: string, key: string, value: Option<string>): Json {
    if value.Some? then SetNested(root, [section, key], value.value) else root
  }

  lemma ApplyPresentStep(root: Json, settings: seq<Setting>, section: string, key: string, value: Option<string>)
    ensures ApplyAll(root, settings + Present(section, key, value)) == ApplyPresent(ApplyAll(root, settings), section, key, value)
  {
    if value.Some? {
      ApplyOne(root, settings, Setting(section, key, value.value));
    } else {
      assert settings + [] == settings;
    }
  }

  lemma ApplyInOrder(root: Json, env: EnvOverrides)
    ensures ApplyAll(root, Settings(env)) ==
      ApplyPresent(ApplyPresent(ApplyPresent(ApplyPresent(ApplyPresent(root, "provider", "kind", env.providerKind), "model", "kind", env.modelKind),
        "model", "name", env.openaiModel), "core", "binary", env.coreBinary), "storage", "sqlite_path", env.sqlitePath)
  {
    hide ApplyPresent, Present, SetNested;
    var s1 := Present("provider", "kind", env.providerKind);
    var s2 := s1 + Present("model", "kind", env.modelKind);
    var s3 := s2 + Present("model", "name", env.openaiModel);
    var s4 := s3 + Present("core", "binary", env.coreBinary);
    assert [] + s1 == s1;
    ApplyPresentStep(root, [], "provider", "kind", env.providerKind);
    ApplyPresentStep(root, s1, "model", "kind", env.modelKind);
    ApplyPresentStep(root, s2, "model", "name", env.openaiModel);
    ApplyPresentStep(root, s3, "core", "binary", env.coreBinary);
    ApplyPresentStep(root, s4, "storage", "sqlite_path", env.sqlitePath);
  }

  // ----- the three layers -----

  /** Defaults, configuration file and environment, in this order. */
  function Layered(defaults: Json, file: Option<Json>, env: EnvOverrides): Json {
    Merge(if file.Some? then Merge(defaults, file.value) else defaults, Union(Settings(env)))
  }

  /** The tree the configuration is read from; a file whose root is no object is refused. */
  method LoadTree(defaults: Json, file: Option<Json>, env: EnvOverrides) returns (loaded: Option<Json>)
    requires defaults.Object?
    ensures loaded == if file.Some? && !file.value.Object? then None else Some(Layered(defaults, file, env))
  {
    var tree := new ConfigTree(defaults);
    if file.Some? {
      if !file.value.Object? {
        return None;
      }
      tree.MergeFrom(file.value);
    }
    tree.ApplyEnvOverrides(env);
    loaded := Some(tree.root);
  }

  /** At every path the last layer that has a leaf there decides, if later layers do not mention
      the path. */
  lemma LastLayerDecides(defaults: Json, file: Json, env: EnvOverrides, path: seq<string>)
    requires defaults.Object? && file.Object?
    ensures var loaded, overrides := Layered(defaults, Some(file), env), Union(Settings(env));
            && (At(overrides, path).Some? && !At(overrides, path).value.Object? ==> At(loaded, path) == At(overrides, path))
            && (Untouched(overrides, path) && At(file, path).Some? && !At(file, path).value.Object? ==> At(loaded, path) == At(file, path))
            && (Untouched(overrides, path) && Untouched(file, path) ==> At(loaded, path) == At(defaults, path))
  {
    hide Merge, Untouched, At, Union, Settings;
    var overrides := Union(Settings(env));
    if At(overrides, path).Some? && !At(overrides, path).value.Object? {
      OverrideLeavesWin(Merge(defaults, file), overrides, path);
    }
    if Untouched(overrides, path) {
      UntouchedPathsKeepBase(Merge(defaults, file), overrides, path);
      if At(file, path).Some? && !At(file, path).value.Object? {
        OverrideLeavesWin(defaults, file, path);
      }
      if Untouched(file, path) {
        UntouchedPathsKeepBase(defaults, file, path);
      }
    }
  }

  lemma SettingLands(root: Json, section: string, key: string, value: Option<string>, s: string, k: string)
    ensures At(ApplyPresent(root, section, key, value), [s, k])
         == if value.Some? && s == section && k == key then Some(String(value.value)) else At(root, [s, k])
    ensures root.Object? ==> ApplyPresent(root, section, key, value).Object?
  {
    if value.Some? {
      SetTwoKeys(root, section, key, value.value);
      var path := [section, key];
      var changed := SetNested(root, path, value.value);
      AtTwoKeys(changed, s, k);
      AtTwoKeys(root, s, k);
    }
  }

  lemma SetTwoKeys(root: Json, section: string, key: string, value: string)
    ensures var fields := if root.Object? then root.fields else map[];
            var child := if section in fields && fields[section].Object? then fields[section].fields else map[];
            SetNested(root, [section, key], value) == Object(fields[section := Object(child[key := String(value)])])
  {
    var fields := if root.Object? then root.fields else map[];
    var child := if section in fields then fields[section] else Object(map[]);
    assert [section, key][1..] == [key] && [key][1..] == [];
    assert SetNested(child, [key], value) == Object((if child.Object? then child.fields else map[])[key := String(value)]);
  }

  lemma AtTwoKeys(root: Json, s: string, k: string)
    ensures At(root, [s, k]) ==
      if root.Object? && s in root.fields && root.fields[s].Object? && k in root.fields[s].fields then Some(root.fields[s].fields[k]) else None
  {
    assert [s, k][1..] == [k];
    if root.Object? && s in root.fields {
      AtOneKey(root.fields[s], k);
    }
  }

  lemma AtOneKey(root: Json, k: string)
    ensures At(root, [k]) == if root.Object? && k in root.fields then Some(root.fields[k]) else None
  {
    assert [k][1..] == [];
  }

  /** At every section and key: the environment's string if it names this one, else what file and
      defaults say. */
  lemma EnvironmentDecides(defaults: Json, file: Option<Json>, env: EnvOverrides, section: string, key: string)
    requires defaults.Object? && (file.Some? ==> file.value.Object?)
    ensures At(Layered(defaults, file, env), [section, key]) ==
      if section == "provider" && key == "kind" && env.providerKind.Some? then Some(String(env.providerKind.value))
      else if section == "model" && key == "kind" && env.modelKind.Some? then Some(String(env.modelKind.value))
      else if section == "model" && key == "name" && env.openaiModel.Some? then Some(String(env.openaiModel.value))
      else if section == "core" && key == "binary" && env.coreBinary.Some? then Some(String(env.coreBinary.value))
      else if section == "storage" && key == "sqlite_path" && env.sqlitePath.Some? then Some(String(env.sqlitePath.value))
      else At(if file.Some? then Merge(defaults, file.value) else defaults, [section, key])
  {
    var lower := if file.Some? then Merge(defaults, file.value) else defaults;
    SettingsAreOneMergeExactly(lower, Settings(env));
    ApplyInOrder(lower, env);
    hide ApplyPresent, Present, At, Merge, Union, Settings, ApplyAll;
    var r1 := ApplyPresent(lower, "provider", "kind", env.providerKind);
    var r2 := ApplyPresent(r1, "model", "kind", env.modelKind);
    var r3 := ApplyPresent(r2, "model", "name", env.openaiModel);
    var r4 := ApplyPresent(r3, "core", "binary", env.coreBinary);
    SettingLands(lower, "provider", "kind", env.providerKind, section, key);
    SettingLands(r1, "model", "kind", env.modelKind, section, key);
    SettingLands(r2, "model", "name", env.openaiModel, section, key);
    SettingLands(r3, "core", "binary", env.coreBinary, section, key);
    SettingLands(r4, "storage", "sqlite_path", env.sqlitePath, section, key);
    assert "kind"[0] == 'k' && "name"[0] == 'n' && "provider"[0] == 'p' && "model"[0] == 'm' && "core"[0] == 'c' && "storage"[0] == 's';
  }
}
