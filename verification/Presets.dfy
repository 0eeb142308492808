/** Preset expansion (policy/preset.go). */
module Presets {
  import opened Wrappers
  import opened Sorting
  import opened PolicySpec

  type Builder = map<string, string> -> Option<Policy>

  /** A preset as a caller registers it; build is None for a nil function. */
  datatype Preset = Preset(name: string, build: Option<Builder>)

  /** Registered presets by name; building may fail. */
  type PresetSet = map<string, Builder>

  ghost predicate GoodPresets(presets: seq<Preset>) {
    && (forall i :: 0 <= i < |presets| ==> presets[i].name != "" && presets[i].build.Some?)
    && (forall i, j :: 0 <= i < j < |presets| ==> presets[i].name != presets[j].name)
  }

  /** Succeeds exactly on distinct non-empty names that all have a builder. */
  method NewPresetSet(presets: seq<Preset>) returns (r: Option<PresetSet>)
    ensures r.Some? <==> GoodPresets(presets)
    ensures r.Some? ==> (forall n :: n in r.value ==> exists i :: 0 <= i < |presets| && presets[i].name == n)
    ensures r.Some? ==> forall i :: 0 <= i < |presets| ==>
              presets[i].name in r.value && Some(r.value[presets[i].name]) == presets[i].build
  {
    var out: PresetSet := map[];
    for i := 0 to |presets|
      invariant forall j :: 0 <= j < i ==> presets[j].name != "" && presets[j].build.Some?
      invariant forall j, k :: 0 <= j < k < i ==> presets[j].name != presets[k].name
      invariant forall n :: n in out ==> exists j :: 0 <= j < i && presets[j].name == n
      invariant forall j :: 0 <= j < i ==> presets[j].name in out && Some(out[presets[j].name]) == presets[j].build
    {
      var p := presets[i];
      if p.name == "" || p.build.None? || p.name in out {
        return None;
      }
      out := out[p.name := p.build.value];
    }
    return Some(out);
  }

  const MAX_PRESET_DEPTH := 8

  function MergePolicy(base: Policy, inline: Policy): Option<Policy> {
    if base.anonymous && (inline.anonymous || inline.Positive()) then None
    else if inline.anonymous && base.Positive() then None
    else Some(Policy(inline.preset, inline.presetArgs, base.anonymous || inline.anonymous,
                     base.require + inline.require, base.anyOf + inline.anyOf, base.forbid + inline.forbid))
  }

  /** Expands the preset of p, innermost first; stack holds the presets being expanded. */
  function Expand(ps: PresetSet, p: Policy, stack: seq<string>): Option<Policy>
    requires |stack| <= MAX_PRESET_DEPTH
    decreases MAX_PRESET_DEPTH - |stack|
  {
    if p.preset == "" then Some(p)
    else if |stack| >= MAX_PRESET_DEPTH || p.preset in stack || p.preset !in ps then None
    else match ps[p.preset](p.presetArgs)
      case None => None
      case Some(built) =>
        match Expand(ps, built, stack + [p.preset])
        case None => None
        case Some(base) => MergePolicy(base, p)
  }

  // ---- the chain of layers ----

  /** layers[0] is the policy itself, and each next layer is what the preset of the one before builds. */
  ghost predicate IsChain(ps: PresetSet, layers: seq<Policy>) {
    && |layers| > 0 && layers[|layers| - 1].preset == ""
    && forall i :: 0 <= i < |layers| - 1 ==> Link(ps, layers[i], layers[i + 1])
  }

  ghost predicate Link(ps: PresetSet, outer: Policy, inner: Policy) {
    outer.preset != "" && outer.preset in ps && ps[outer.preset](outer.presetArgs) == Some(inner)
  }

  /** The preset names of a chain, outermost first. */
  function Names(layers: seq<Policy>): seq<string> {
    if |layers| <= 1 then [] else [layers[0].preset] + Names(layers[1..])
  }

  /** An anonymous layer tolerates no other anonymous layer and no positive requirement in another layer. */
  ghost predicate Compatible(layers: seq<Policy>) {
    forall i, j :: 0 <= i < |layers| && 0 <= j < |layers| && i != j && layers[i].anonymous ==>
      !layers[j].anonymous && !layers[j].Positive()
  }

  function AllRequire(layers: seq<Policy>): seq<Requirement> {
    if layers == [] then [] else AllRequire(layers[1..]) + layers[0].require
  }

  function AllAnyOf(layers: seq<Policy>): seq<seq<Requirement>> {
    if layers == [] then [] else AllAnyOf(layers[1..]) + layers[0].anyOf
  }

  function AllForbid(layers: seq<Policy>): seq<Requirement> {
    if layers == [] then [] else AllForbid(layers[1..]) + layers[0].forbid
  }

  /** The layers merged: their lists concatenated from the innermost to the outermost. */
  ghost function Flatten(layers: seq<Policy>): Policy
    requires |layers| > 0
  {
    Policy(layers[0].preset, layers[0].presetArgs, exists i :: 0 <= i < |layers| && layers[i].anonymous,
           AllRequire(layers), AllAnyOf(layers), AllForbid(layers))
  }

  /** Some layer has a positive requirement exactly when the flattened policy does. */
  lemma {:induction false} FlattenPositive(layers: seq<Policy>)
    requires |layers| > 0
    ensures Flatten(layers).Positive() <==> exists i :: 0 <= i < |layers| && layers[i].Positive()
  {
    if |layers| > 1 {
      FlattenPositive(layers[1..]);
      assert layers == [layers[0]] + layers[1..];
      if i :| 0 <= i < |layers| && layers[i].Positive() {
        if i > 0 { assert layers[1..][i - 1].Positive(); }
      }
    } else {
      assert AllRequire(layers[1..]) == [] && AllAnyOf(layers[1..]) == [];
    }
  }

  lemma CompatibleStep(layers: seq<Policy>)
    requires |layers| > 1
    ensures Compatible(layers) <==>
      Compatible(layers[1..]) && MergePolicy(Flatten(layers[1..]), layers[0]).Some?
  {
    var inner := layers[1..];
    FlattenPositive(inner);
    assert forall i :: 0 <= i < |inner| ==> inner[i] == layers[i + 1];
    if Compatible(layers) {
      forall i, j | 0 <= i < |inner| && 0 <= j < |inner| && i != j && inner[i].anonymous
        ensures !inner[j].anonymous && !inner[j].Positive()
      {
        assert layers[i + 1].anonymous;
      }
      if Flatten(inner).anonymous {
        var i :| 0 <= i < |inner| && inner[i].anonymous;
        assert layers[i + 1].anonymous;
      }
    } else {
      var i, j :| 0 <= i < |layers| && 0 <= j < |layers| && i != j && layers[i].anonymous
        && (layers[j].anonymous || layers[j].Positive());
      if i > 0 && j > 0 {
        assert inner[i - 1].anonymous && (inner[j - 1].anonymous || inner[j - 1].Positive());
      } else if i == 0 {
        assert inner[j - 1].anonymous || inner[j - 1].Positive();
      } else {
        assert inner[i - 1].anonymous;
      }
    }
  }

  lemma MergeIsFlatten(layers: seq<Policy>)
    requires |layers| > 1 && MergePolicy(Flatten(layers[1..]), layers[0]).Some?
    ensures MergePolicy(Flatten(layers[1..]), layers[0]).value == Flatten(layers)
  {
    var inner := layers[1..];
    if i :| 0 <= i < |layers| && layers[i].anonymous {
      if i > 0 { assert inner[i - 1].anonymous; }
    }
    if i :| 0 <= i < |inner| && inner[i].anonymous {
      assert layers[i + 1].anonymous;
    }
  }

  lemma FlattenSingle(layers: seq<Policy>)
    requires |layers| == 1
    ensures Flatten(layers) == layers[0] && Compatible(layers)
  {
    var p := layers[0];
    assert AllRequire(layers[1..]) == [] && AllAnyOf(layers[1..]) == [] && AllForbid(layers[1..]) == [];
    assert [] + p.require == p.require && [] + p.anyOf == p.anyOf && [] + p.forbid == p.forbid;
  }

  /** Names pushed on the stack and names still to come are pairwise distinct. */
  ghost predicate FreshNames(stack: seq<string>, layers: seq<Policy>) {
    Distinct(Names(layers)) && forall n :: n in Names(layers) ==> n !in stack
  }

  lemma FreshNamesStep(stack: seq<string>, layers: seq<Policy>)
    requires |layers| > 1
    ensures FreshNames(stack, layers) <==>
      layers[0].preset !in stack && FreshNames(stack + [layers[0].preset], layers[1..])
  {
    var name, rest := layers[0].preset, Names(layers[1..]);
    var all := Names(layers);
    assert all == [name] + rest;
    assert all[1..] == rest;
    if FreshNames(stack, layers) {
      assert all[0] in all;
      forall n | n in rest
        ensures n in all && n != name
      {
        var k :| 0 <= k < |rest| && rest[k] == n;
        assert all[k + 1] == n && all[0] != all[k + 1];
      }
      forall i, j | 0 <= i < j < |rest|
        ensures rest[i] != rest[j]
      {
        assert all[i + 1] != all[j + 1];
      }
    } else if name !in stack && FreshNames(stack + [name], layers[1..]) {
      forall j | 0 <= j < |rest|
        ensures rest[j] != name && rest[j] !in stack
      {
        assert rest[j] in rest;
        assert name in stack + [name];
      }
    }
  }

  lemma ChainTail(ps: PresetSet, layers: seq<Policy>)
    requires IsChain(ps, layers) && |layers| > 1
    ensures IsChain(ps, layers[1..]) && Link(ps, layers[0], layers[1])
  {
    assert Link(ps, layers[0], layers[0 + 1]);
    var tail := layers[1..];
    forall i | 0 <= i < |tail| - 1
      ensures Link(ps, tail[i], tail[i + 1])
    {
      assert Link(ps, layers[i + 1], layers[i + 1 + 1]);
    }
  }

  /** A chain that fits under the stack expands exactly when its layers are compatible, to their merge. */
  lemma {:induction false} ChainExpands(ps: PresetSet, layers: seq<Policy>, stack: seq<string>)
    requires IsChain(ps, layers) && FreshNames(stack, layers)
    requires |stack| + |layers| - 1 <= MAX_PRESET_DEPTH
    ensures Expand(ps, layers[0], stack) == if Compatible(layers) then Some(Flatten(layers)) else None
    decreases |layers|
  {
    if |layers| == 1 {
      FlattenSingle(layers);
    } else {
      ChainTail(ps, layers);
      FreshNamesStep(stack, layers);
      ChainExpands(ps, layers[1..], stack + [layers[0].preset]);
      CompatibleStep(layers);
      if Compatible(layers) { MergeIsFlatten(layers); }
    }
  }

  /** Whatever expands has a chain that fits under the stack. */
  lemma {:induction false} ExpansionHasChain(ps: PresetSet, p: Policy, stack: seq<string>) returns (layers: seq<Policy>)
    requires |stack| <= MAX_PRESET_DEPTH && Expand(ps, p, stack).Some?
    ensures IsChain(ps, layers) && layers[0] == p && FreshNames(stack, layers)
    ensures |stack| + |layers| - 1 <= MAX_PRESET_DEPTH
    decreases MAX_PRESET_DEPTH - |stack|
  {
    if p.preset == "" {
      layers := [p];
    } else {
      var inner := ps[p.preset](p.presetArgs).value;
      var rest := ExpansionHasChain(ps, inner, stack + [p.preset]);
      layers := [p] + rest;
      assert layers[1..] == rest;
      forall i | 0 <= i < |layers| - 1
        ensures Link(ps, layers[i], layers[i + 1])
      {
        if i > 0 { assert Link(ps, rest[i - 1], rest[i - 1 + 1]); }
      }
      FreshNamesStep(stack, layers);
    }
  }

  /** The conditions under which a policy's presets expand. */
  ghost predicate GoodChain(ps: PresetSet, p: Policy, layers: seq<Policy>) {
    && IsChain(ps, layers) && layers[0] == p
    && |layers| - 1 <= 8 && Distinct(Names(layers))
    && Compatible(layers)
  }

  /**
   Expansion succeeds exactly when the chain of presets ends after at most eight presets with
   pairwise distinct registered names, all of which build, and whose layers are compatible; the
   result then lists the layers' requirements from the innermost layer to the outermost.
   */
  lemma ExpandSucceedsExactly(ps: PresetSet, p: Policy)
    ensures Expand(ps, p, []).Some? <==> exists layers :: GoodChain(ps, p, layers)
    ensures forall layers :: GoodChain(ps, p, layers) ==> Expand(ps, p, []) == Some(Flatten(layers))
  {
    if Expand(ps, p, []).Some? {
      var layers := ExpansionHasChain(ps, p, []);
      ChainExpands(ps, layers, []);
      assert GoodChain(ps, p, layers);
    }
    forall layers | GoodChain(ps, p, layers)
      ensures Expand(ps, p, []) == Some(Flatten(layers))
    {
      ChainExpands(ps, layers, []);
    }
  }
}
