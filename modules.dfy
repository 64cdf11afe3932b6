/**
 * Which configuration modules take part in initialization, and the order in which
 * their callbacks run. Class loading and manifest parsing are not modelled: the
 * annotation-generated module is an `Option`, and the parser's result is an input.
 */
module Modules {
  import opened Base

  /** A Java class name: the identity that exclusion is decided on. */
  type ClassName = string

  /**
   * A configuration module. The two flags say whether its `applyOptions` or its
   * `registerComponents` calls `Glide.get` while Glide is being initialized.
   */
  datatype GlideModule = GlideModule(cls: ClassName, getsInApplyOptions: bool, getsInRegisterComponents: bool)

  /** The annotation-generated application module. */
  datatype GeneratedModule = GeneratedModule(
    callbacks: GlideModule,
    manifestParsingEnabled: bool,
    excludedModuleClasses: set<ClassName>)

  /** The manifest modules: parsed only when there is no generated module or it allows parsing. */
  function ManifestModules(generated: Option<GeneratedModule>, parsed: seq<GlideModule>): seq<GlideModule> {
    if generated.None? || generated.value.manifestParsingEnabled then parsed else []
  }

  /** `modules` without those whose class is excluded. */
  function WithoutExcluded(modules: seq<GlideModule>, excluded: set<ClassName>): seq<GlideModule> {
    if modules == [] then []
    else if modules[0].cls in excluded then WithoutExcluded(modules[1..], excluded)
    else [modules[0]] + WithoutExcluded(modules[1..], excluded)
  }

  /** A module survives exclusion iff it was listed and its class is not excluded. */
  lemma {:induction false} WithoutExcludedMembers(modules: seq<GlideModule>, excluded: set<ClassName>)
    ensures forall m :: m in WithoutExcluded(modules, excluded) <==> m in modules && m.cls !in excluded
    ensures |WithoutExcluded(modules, excluded)| <= |modules|
  {
    if modules != [] {
      WithoutExcludedMembers(modules[1..], excluded);
      assert modules == [modules[0]] + modules[1..];
    }
  }

  /** `a` is `b` with some elements left out, the rest in their original order. */
  predicate Subsequence<X(==)>(a: seq<X>, b: seq<X>)
    decreases |b|
  {
    a == [] || (b != [] && if a[0] == b[0] then Subsequence(a[1..], b[1..]) else Subsequence(a, b[1..]))
  }

  lemma {:induction false} WithoutExcludedKeepsOrder(modules: seq<GlideModule>, excluded: set<ClassName>)
    ensures Subsequence(WithoutExcluded(modules, excluded), modules)
  {
    if modules != [] {
      WithoutExcludedKeepsOrder(modules[1..], excluded);
      var rest := WithoutExcluded(modules[1..], excluded);
      if modules[0].cls !in excluded {
        assert ([modules[0]] + rest)[1..] == rest;
      } else if rest != [] {
        WithoutExcludedMembers(modules[1..], excluded);
        assert rest[0] in rest;
      }
    }
  }

  /** Filtering with an empty exclusion set changes nothing. */
  lemma {:induction false} NothingExcluded(modules: seq<GlideModule>)
    ensures WithoutExcluded(modules, {}) == modules
  {
    if modules != [] {
      NothingExcluded(modules[1..]);
      assert modules == [modules[0]] + modules[1..];
    }
  }

  lemma {:induction false} WithoutExcludedSnoc(modules: seq<GlideModule>, m: GlideModule, excluded: set<ClassName>)
    ensures WithoutExcluded(modules + [m], excluded)
         == WithoutExcluded(modules, excluded) + (if m.cls in excluded then [] else [m])
  {
    if modules == [] {
      assert [m][1..] == [];
    } else {
      assert (modules + [m])[1..] == modules[1..] + [m];
      WithoutExcludedSnoc(modules[1..], m, excluded);
    }
  }

  /**
   * The exclusion loop of initialization: walks the list with an iterator and removes
   * the current module in place when its class is excluded.
   */
  method RemoveExcluded(modules: seq<GlideModule>, excluded: set<ClassName>) returns (kept: seq<GlideModule>)
    ensures kept == WithoutExcluded(modules, excluded)
  {
    kept := modules;
    var cursor := 0;           // kept[..cursor] has been visited
    ghost var visited := 0;    // modules[..visited] has been visited
    while cursor < |kept|
      invariant 0 <= cursor <= |kept| && 0 <= visited <= |modules|
      invariant kept[..cursor] == WithoutExcluded(modules[..visited], excluded)
      invariant kept[cursor..] == modules[visited..]
      decreases |kept| - cursor
    {
      var current := kept[cursor];
      assert current == modules[visited];
      assert modules[..visited + 1] == modules[..visited] + [current];
      WithoutExcludedSnoc(modules[..visited], current, excluded);
      assert kept[cursor + 1..] == kept[cursor..][1..] == modules[visited..][1..] == modules[visited + 1..];
      if current.cls !in excluded {
        assert kept[..cursor + 1] == kept[..cursor] + [current];
        cursor := cursor + 1;
      } else {
        ghost var before := kept;
        kept := kept[..cursor] + kept[cursor + 1..];
        assert kept[..cursor] == before[..cursor];
        assert kept[cursor..] == before[cursor + 1..];
      }
      visited := visited + 1;
    }
    assert modules[..visited] == modules;
  }

  /** The excluded classes in effect: none without a generated module. */
  function ExcludedClasses(generated: Option<GeneratedModule>): set<ClassName> {
    if generated.Some? then generated.value.excludedModuleClasses else {}
  }

  /** The manifest modules that survive exclusion, filtered only when something is excluded. */
  function SelectedModules(generated: Option<GeneratedModule>, parsed: seq<GlideModule>): seq<GlideModule> {
    var manifest := ManifestModules(generated, parsed);
    if generated.Some? && generated.value.excludedModuleClasses != {}
    then WithoutExcluded(manifest, generated.value.excludedModuleClasses)
    else manifest
  }

  /**
   * Skipping the filter when nothing is excluded is only a shortcut: the selected
   * modules are exactly the manifest modules whose class is not excluded, in order.
   */
  lemma SelectionIsExclusionFilter(generated: Option<GeneratedModule>, parsed: seq<GlideModule>)
    ensures SelectedModules(generated, parsed)
         == WithoutExcluded(ManifestModules(generated, parsed), ExcludedClasses(generated))
  {
    NothingExcluded(ManifestModules(generated, parsed));
  }

  /** Modules whose callbacks run: the selected manifest modules, then the generated one. */
  function AppliedModules(generated: Option<GeneratedModule>, parsed: seq<GlideModule>): seq<GlideModule> {
    SelectedModules(generated, parsed) + (if generated.Some? then [generated.value.callbacks] else [])
  }

  /**
   * The modules whose callbacks run, by configuration: the parsed manifest modules
   * alone when there is no generated module; the generated module alone when it
   * turns manifest parsing off; otherwise the manifest modules that survive its
   * exclusions, then the generated module.
   */
  lemma {:induction false} AppliedModulesCases(generated: Option<GeneratedModule>, parsed: seq<GlideModule>)
    ensures generated.None? ==> AppliedModules(generated, parsed) == parsed
    ensures generated.Some? && !generated.value.manifestParsingEnabled ==>
              AppliedModules(generated, parsed) == [generated.value.callbacks]
    ensures generated.Some? && generated.value.manifestParsingEnabled ==>
              (AppliedModules(generated, parsed)
               == WithoutExcluded(parsed, generated.value.excludedModuleClasses) + [generated.value.callbacks])
  {
    SelectionIsExclusionFilter(generated, parsed);
    if generated.None? {
      NothingExcluded(parsed);
    }
  }

  /** One step of initialization: a module callback, or building the Glide instance. */
  datatype Step = ApplyOptions(target: GlideModule) | Build | RegisterComponents(target: GlideModule)

  /** The `applyOptions` callbacks of `modules`, in list order. */
  function ApplyAll(modules: seq<GlideModule>): seq<Step> {
    seq(|modules|, i requires 0 <= i < |modules| => ApplyOptions(modules[i]))
  }

  /** The `registerComponents` callbacks of `modules`, in list order. */
  function RegisterAll(modules: seq<GlideModule>): seq<Step> {
    seq(|modules|, i requires 0 <= i < |modules| => RegisterComponents(modules[i]))
  }

  /** Every module's options, then the build, then every module's components. */
  function InitSteps(modules: seq<GlideModule>): seq<Step> {
    ApplyAll(modules) + [Build] + RegisterAll(modules)
  }

  /**
   * The initialization order: `applyOptions` of each module in list order, the
   * build, then `registerComponents` of each module in the same order. So every
   * `applyOptions` precedes the build and every `registerComponents` follows it.
   */
  lemma InitStepsOrder(modules: seq<GlideModule>)
    ensures |InitSteps(modules)| == 2 * |modules| + 1
    ensures InitSteps(modules)[|modules|] == Build
    ensures forall i :: 0 <= i < |modules| ==>
              InitSteps(modules)[i] == ApplyOptions(modules[i])
              && InitSteps(modules)[|modules| + 1 + i] == RegisterComponents(modules[i])
    ensures forall i :: 0 <= i < |InitSteps(modules)| && InitSteps(modules)[i].ApplyOptions? ==> i < |modules|
    ensures forall i :: 0 <= i < |InitSteps(modules)| && InitSteps(modules)[i].RegisterComponents? ==> i > |modules|
  {
  }

  /** The generated module's callbacks run last in each phase. */
  lemma GeneratedModuleLast(generated: Option<GeneratedModule>, parsed: seq<GlideModule>)
    requires generated.Some?
    ensures var steps := InitSteps(AppliedModules(generated, parsed));
            var n := |AppliedModules(generated, parsed)|;
            n > 0 && steps[n - 1] == ApplyOptions(generated.value.callbacks)
            && steps[|steps| - 1] == RegisterComponents(generated.value.callbacks)
  {
    InitStepsOrder(AppliedModules(generated, parsed));
  }

  /** A step that calls `Glide.get` while initialization is in progress. */
  predicate Reenters(s: Step) {
    match s
    case ApplyOptions(m) => m.getsInApplyOptions
    case Build => false
    case RegisterComponents(m) => m.getsInRegisterComponents
  }

  /** Some step of `steps` calls `Glide.get` (see `AnyReentersMeansSomeStep`). */
  predicate AnyReenters(steps: seq<Step>) {
    steps != [] && (Reenters(steps[0]) || AnyReenters(steps[1..]))
  }

  lemma {:induction false} AnyReentersMeansSomeStep(steps: seq<Step>)
    ensures AnyReenters(steps) <==> exists i :: 0 <= i < |steps| && Reenters(steps[i])
  {
    if steps != [] {
      AnyReentersMeansSomeStep(steps[1..]);
      if exists i :: 0 <= i < |steps| && Reenters(steps[i]) {
        var i :| 0 <= i < |steps| && Reenters(steps[i]);
        if i > 0 { assert Reenters(steps[1..][i - 1]); }
      }
      if exists i :: 0 <= i < |steps[1..]| && Reenters(steps[1..][i]) {
        var i :| 0 <= i < |steps[1..]| && Reenters(steps[1..][i]);
        assert Reenters(steps[i + 1]);
      }
    }
  }

  /**
   * The steps actually run: all of them, or those up to and including the first one
   * that calls `Glide.get`, whose exception ends initialization.
   */
  function UntilReentry(steps: seq<Step>): (r: seq<Step>)
    ensures !AnyReenters(steps) ==> r == steps
    ensures AnyReenters(steps) <==> r != [] && Reenters(r[|r| - 1])
  {
    if steps == [] then []
    else if Reenters(steps[0]) then [steps[0]]
    else
      [steps[0]] + UntilReentry(steps[1..])
  }

  /** A concatenation reaches `Glide.get` exactly when one of its parts does. */
  lemma {:induction false} AnyReentersAppend(a: seq<Step>, b: seq<Step>)
    ensures AnyReenters(a + b) <==> AnyReenters(a) || AnyReenters(b)
  {
    if a == [] {
      assert a + b == b;
    } else {
      assert (a + b)[1..] == a[1..] + b;
      AnyReentersAppend(a[1..], b);
    }
  }

  /**
   * Running two phases one after the other: the second phase runs only when the
   * first one finished without calling `Glide.get`.
   */
  lemma {:induction false} UntilReentryAppend(a: seq<Step>, b: seq<Step>)
    ensures UntilReentry(a + b) == if AnyReenters(a) then UntilReentry(a) else a + UntilReentry(b)
  {
    if a == [] {
      assert a + b == b;
    } else {
      assert (a + b)[1..] == a[1..] + b;
      if !Reenters(a[0]) {
        UntilReentryAppend(a[1..], b);
      }
    }
  }

  /** The steps run are a prefix of those planned, and only the last of them may call `Glide.get`. */
  lemma {:induction false} UntilReentryIsPrefix(steps: seq<Step>)
    ensures UntilReentry(steps) <= steps
    ensures forall i :: 0 <= i < |UntilReentry(steps)| - 1 ==> !Reenters(UntilReentry(steps)[i])
  {
    if steps != [] && !Reenters(steps[0]) {
      UntilReentryIsPrefix(steps[1..]);
    }
  }

  /** Initialization stops right after the first step that calls `Glide.get`. */
  lemma UntilReentryStopsAtFirst(steps: seq<Step>, i: nat)
    requires i < |steps| && Reenters(steps[i])
    requires forall j :: 0 <= j < i ==> !Reenters(steps[j])
    ensures UntilReentry(steps) == steps[..i + 1]
  {
    AnyReentersMeansSomeStep(steps);
    UntilReentryIsPrefix(steps);
  }

  /** The steps of initialization for a manifest part and a generated part, phase by phase. */
  lemma InitStepsPhases(manifest: seq<GlideModule>, annotated: seq<GlideModule>)
    ensures InitSteps(manifest + annotated)
         == (ApplyAll(manifest) + ApplyAll(annotated)) + ([Build] + (RegisterAll(manifest) + RegisterAll(annotated)))
  {
    assert ApplyAll(manifest + annotated) == ApplyAll(manifest) + ApplyAll(annotated);
    assert RegisterAll(manifest + annotated) == RegisterAll(manifest) + RegisterAll(annotated);
  }

  /**
   * Regrouping of a concatenation. Dafny knows this fact; stating it as a lemma
   * keeps the solver's work small in the proofs that regroup step traces.
   */
  lemma Associative(a: seq<Step>, b: seq<Step>, c: seq<Step>)
    ensures a + (b + c) == a + b + c
  {
  }

  /**
   * How far initialization gets around the build: it stops in the `applyOptions`
   * phase if that calls `Glide.get`, and otherwise builds and goes on.
   */
  lemma AroundBuild(options: seq<Step>, components: seq<Step>)
    ensures AnyReenters(options + ([Build] + components)) <==> AnyReenters(options) || AnyReenters(components)
    ensures UntilReentry(options + ([Build] + components))
         == if AnyReenters(options) then UntilReentry(options) else options + [Build] + UntilReentry(components)
  {
    AnyReentersAppend(options, [Build] + components);
    UntilReentryAppend(options, [Build] + components);
    assert ([Build] + components)[1..] == components;
    Associative(options, [Build], UntilReentry(components));
  }

  /**
   * The whole of initialization in terms of its two callback phases, for modules
   * `manifest` followed by `annotated`.
   */
  lemma InitPlanByPhases(manifest: seq<GlideModule>, annotated: seq<GlideModule>)
    ensures AnyReenters(InitSteps(manifest + annotated))
        <==> AnyReenters(ApplyAll(manifest) + ApplyAll(annotated))
             || AnyReenters(RegisterAll(manifest) + RegisterAll(annotated))
    ensures AnyReenters(ApplyAll(manifest) + ApplyAll(annotated)) ==>
              UntilReentry(InitSteps(manifest + annotated)) == UntilReentry(ApplyAll(manifest) + ApplyAll(annotated))
    ensures !AnyReenters(ApplyAll(manifest) + ApplyAll(annotated)) ==>
              (UntilReentry(InitSteps(manifest + annotated))
               == ApplyAll(manifest) + ApplyAll(annotated) + [Build]
                  + UntilReentry(RegisterAll(manifest) + RegisterAll(annotated)))
  {
    InitStepsPhases(manifest, annotated);
    AroundBuild(ApplyAll(manifest) + ApplyAll(annotated), RegisterAll(manifest) + RegisterAll(annotated));
  }
}
