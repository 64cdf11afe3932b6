/**
 * Glide's static state: the published singleton, the initialization guard, and the
 * initialization that discovers configuration modules and runs their callbacks.
 * The application's configuration (the generated module and what manifest parsing
 * would return) is fixed for the process, so it is held as constants.
 */
module Singleton {
  import opened Base
  import opened Memory
  import opened Instance
  import opened Modules

  /**
   * A Glide instance straight out of the builder. Module callbacks are modelled
   * without effects on the instance, so the published instance is still in this state.
   */
  ghost predicate Pristine(g: Glide)
    reads g
  {
    g.Valid() && g.managers == [] && g.memoryCategory == Normal && g.calls == []
  }

  class GlideHolder {
    const generated: Option<GeneratedModule>
    const parsed: seq<GlideModule>
    /** The published singleton; null until initialization completes. */
    var glide: Glide?
    var isInitializing: bool
    /** Module callbacks and builds run so far, in order. */
    var steps: seq<Step>

    /** The steps a complete initialization goes through for this application. */
    function Plan(): seq<Step> {
      InitSteps(AppliedModules(generated, parsed))
    }

    constructor (generated: Option<GeneratedModule>, parsed: seq<GlideModule>)
      ensures this.generated == generated && this.parsed == parsed
      ensures glide == null && !isInitializing && steps == []
    {
      this.generated := generated;
      this.parsed := parsed;
      glide := null;
      isInitializing := false;
      steps := [];
    }

    /**
     * Returns the singleton, initializing it first while it is null. A call made from
     * a module callback during initialization finds the singleton still null and
     * the guard set, and throws.
     */
    method Get() returns (r: Result<Glide>)
      modifies this
      decreases if isInitializing then 0 else 1, 6
      ensures old(glide) != null ==>
                r.Success? && r.value == old(glide) && glide == old(glide)
                && isInitializing == old(isInitializing) && steps == old(steps)
      ensures old(glide) == null && old(isInitializing) ==>
                r == Failure(ReentrantGet) && glide == null && isInitializing && steps == old(steps)
      ensures old(glide) == null && !old(isInitializing) ==>
                !isInitializing && steps == old(steps) + UntilReentry(Plan())
      ensures old(glide) == null && !old(isInitializing) && AnyReenters(Plan()) ==>
                r == Failure(ReentrantGet) && glide == null
      ensures old(glide) == null && !old(isInitializing) && !AnyReenters(Plan()) ==>
                r.Success? && glide == r.value && fresh(r.value) && Pristine(r.value)
    {
      if glide == null {
        var status := CheckAndInitialize();
        if status != Ok {
          return Failure(status.error);
        }
      }
      r := Success(glide);
    }

    /**
     * The guard around initialization. The flag is cleared however initialization
     * ends, so a failed initialization can be attempted again.
     */
    method CheckAndInitialize() returns (status: Status)
      requires glide == null
      modifies this
      decreases if isInitializing then 0 else 1, 5
      ensures old(isInitializing) ==>
                status == Thrown(ReentrantGet) && glide == null && isInitializing && steps == old(steps)
      ensures !old(isInitializing) ==> !isInitializing && steps == old(steps) + UntilReentry(Plan())
      ensures !old(isInitializing) && AnyReenters(Plan()) ==> status == Thrown(ReentrantGet) && glide == null
      ensures !old(isInitializing) && !AnyReenters(Plan()) ==>
                status == Ok && glide != null && fresh(glide) && Pristine(glide)
    {
      if isInitializing {
        return Thrown(ReentrantGet);
      }
      isInitializing := true;
      var r := InitializeGlide();
      isInitializing := false;
      status := if r.Success? then Ok else Thrown(r.error);
    }

    /**
     * The guard as written: the flag is cleared only when initialization returns
     * normally, so after a failure it stays set for good.
     */
    method CheckAndInitializeAsWritten() returns (status: Status)
      requires glide == null
      modifies this
      ensures old(isInitializing) ==>
                status == Thrown(ReentrantGet) && glide == null && isInitializing && steps == old(steps)
      ensures !old(isInitializing) ==>
                isInitializing == AnyReenters(Plan()) && steps == old(steps) + UntilReentry(Plan())
      ensures !old(isInitializing) && AnyReenters(Plan()) ==> status == Thrown(ReentrantGet) && glide == null
      ensures !old(isInitializing) && !AnyReenters(Plan()) ==>
                status == Ok && glide != null && fresh(glide) && Pristine(glide)
    {
      if isInitializing {
        return Thrown(ReentrantGet);
      }
      isInitializing := true;
      var r := InitializeGlide();
      if r.Failure? {
        return Thrown(r.error);
      }
      isInitializing := false;
      status := Ok;
    }

    /**
     * `Glide.get` over the guard as written: after a failed initialization the
     * flag stays set, so the singleton is still null and every later call is
     * refused as re-entrant.
     */
    method GetAsWritten() returns (r: Result<Glide>)
      modifies this
      ensures old(glide) != null ==>
                r.Success? && r.value == old(glide) && glide == old(glide)
                && isInitializing == old(isInitializing) && steps == old(steps)
      ensures old(glide) == null && old(isInitializing) ==>
                r == Failure(ReentrantGet) && glide == null && isInitializing && steps == old(steps)
      ensures old(glide) == null && !old(isInitializing) ==>
                isInitializing == AnyReenters(Plan()) && steps == old(steps) + UntilReentry(Plan())
      ensures old(glide) == null && !old(isInitializing) && AnyReenters(Plan()) ==>
                r == Failure(ReentrantGet) && glide == null
      ensures old(glide) == null && !old(isInitializing) && !AnyReenters(Plan()) ==>
                r.Success? && glide == r.value && fresh(r.value) && Pristine(r.value)
    {
      if glide == null {
        var status := CheckAndInitializeAsWritten();
        if status != Ok {
          return Failure(status.error);
        }
      }
      r := Success(glide);
    }

    /**
     * Selects the modules, runs every `applyOptions`, builds the instance, runs every
     * `registerComponents`, and publishes the instance. An exception from a callback
     * ends it early, with nothing published.
     */
    method InitializeGlide() returns (r: Result<Glide>)
      requires isInitializing && glide == null
      modifies this
      decreases 1, 4
      ensures isInitializing
      ensures steps == old(steps) + UntilReentry(Plan())
      ensures AnyReenters(Plan()) ==> r == Failure(ReentrantGet) && glide == null
      ensures !AnyReenters(Plan()) ==> r.Success? && glide == r.value && fresh(r.value) && Pristine(r.value)
    {
      var manifestModules: seq<GlideModule> := [];
      if generated.None? || generated.value.manifestParsingEnabled {
        manifestModules := parsed;
      }
      if generated.Some? && generated.value.excludedModuleClasses != {} {
        manifestModules := RemoveExcluded(manifestModules, generated.value.excludedModuleClasses);
      }
      var annotated := if generated.Some? then [generated.value.callbacks] else [];
      assert manifestModules + annotated == AppliedModules(generated, parsed);
      r := ApplyModules(manifestModules, annotated);
    }

    /**
     * The callback phases of initialization: `applyOptions` of the manifest modules
     * in order and then of the generated one, the build, `registerComponents` in the
     * same order, and publication of the built instance.
     */
    method ApplyModules(manifestModules: seq<GlideModule>, annotated: seq<GlideModule>) returns (r: Result<Glide>)
      requires isInitializing && glide == null
      modifies this
      decreases 1, 3
      ensures isInitializing
      ensures steps == old(steps) + UntilReentry(InitSteps(manifestModules + annotated))
      ensures AnyReenters(InitSteps(manifestModules + annotated)) ==> r == Failure(ReentrantGet) && glide == null
      ensures !AnyReenters(InitSteps(manifestModules + annotated)) ==>
                r.Success? && glide == r.value && fresh(r.value) && Pristine(r.value)
    {
      ghost var options := ApplyAll(manifestModules) + ApplyAll(annotated);
      ghost var components := RegisterAll(manifestModules) + RegisterAll(annotated);
      InitPlanByPhases(manifestModules, annotated);
      var status := RunPhases(ApplyAll(manifestModules), ApplyAll(annotated));
      if status != Ok {
        return Failure(status.error);
      }
      r := BuildAndRegister(manifestModules, annotated);
      Associative(old(steps), options, [Build] + UntilReentry(components));
      Associative(options, [Build], UntilReentry(components));
    }

    /**
     * After the `applyOptions` phase: the build, the `registerComponents` phase, and
     * publication of the built instance if no callback called `Glide.get`.
     */
    method BuildAndRegister(manifestModules: seq<GlideModule>, annotated: seq<GlideModule>) returns (r: Result<Glide>)
      requires isInitializing && glide == null
      modifies this
      decreases 1, 2
      ensures isInitializing
      ensures steps == old(steps) + ([Build] + UntilReentry(RegisterAll(manifestModules) + RegisterAll(annotated)))
      ensures AnyReenters(RegisterAll(manifestModules) + RegisterAll(annotated)) ==> r == Failure(ReentrantGet) && glide == null
      ensures !AnyReenters(RegisterAll(manifestModules) + RegisterAll(annotated)) ==>
                r.Success? && glide == r.value && fresh(r.value) && Pristine(r.value)
    {
      var built := BuildInstance();
      var status := RunPhases(RegisterAll(manifestModules), RegisterAll(annotated));
      Associative(old(steps), [Build], UntilReentry(RegisterAll(manifestModules) + RegisterAll(annotated)));
      if status != Ok {
        return Failure(status.error);
      }
      glide := built;
      r := Success(built);
    }

    /** `GlideBuilder.build`: a new instance, between the two callback phases. */
    method BuildInstance() returns (built: Glide)
      modifies this`steps
      ensures steps == old(steps) + [Build]
      ensures fresh(built) && Pristine(built)
    {
      built := new Glide();
      steps := steps + [Build];
    }

    /** One phase of callbacks: the manifest modules' callbacks, then the generated module's. */
    method RunPhases(manifestSteps: seq<Step>, annotatedSteps: seq<Step>) returns (status: Status)
      requires isInitializing && glide == null
      modifies this
      decreases 1, 1
      ensures isInitializing && glide == null
      ensures steps == old(steps) + UntilReentry(manifestSteps + annotatedSteps)
      ensures status == Ok <==> !AnyReenters(manifestSteps + annotatedSteps)
      ensures status != Ok ==> status == Thrown(ReentrantGet)
    {
      UntilReentryAppend(manifestSteps, annotatedSteps);
      AnyReentersAppend(manifestSteps, annotatedSteps);
      status := RunSteps(manifestSteps);
      if status == Ok {
        status := RunSteps(annotatedSteps);
        Associative(old(steps), manifestSteps, UntilReentry(annotatedSteps));
      }
    }

    /**
     * Runs callbacks in order. A callback that calls `Glide.get` gets its exception,
     * which ends the run. The nested call is `Get`, whichever guard started the
     * initialization: with the flag set, `Get` and `GetAsWritten` both throw at once
     * and change nothing, so the corrected guard plays no part here.
     */
    method RunSteps(todo: seq<Step>) returns (status: Status)
      requires isInitializing && glide == null
      modifies this
      decreases 1, 0
      ensures isInitializing && glide == null
      ensures steps == old(steps) + UntilReentry(todo)
      ensures status == Ok <==> !AnyReenters(todo)
      ensures status != Ok ==> status == Thrown(ReentrantGet)
    {
      var i := 0;
      while i < |todo|
        invariant 0 <= i <= |todo|
        invariant isInitializing && glide == null
        invariant steps == old(steps) + todo[..i]
        invariant forall j :: 0 <= j < i ==> !Reenters(todo[j])
      {
        steps := steps + [todo[i]];
        if Reenters(todo[i]) {
          var nested := Get();
          UntilReentryStopsAtFirst(todo, i);
          assert todo[..i + 1] == todo[..i] + [todo[i]];
          return Thrown(nested.error);
        }
        assert todo[..i + 1] == todo[..i] + [todo[i]];
        i := i + 1;
      }
      assert todo[..i] == todo;
      AnyReentersMeansSomeStep(todo);
      status := Ok;
    }
  }

  /**
   * With the guard as written, a module whose `applyOptions` calls `Glide.get` leaves
   * the guard set: the next top-level `Glide.get` (which, finding no singleton,
   * enters the guard again) is refused as if it were re-entrant, and no module runs.
   */
  method StuckAfterReentrantModule() returns (first: Result<Glide>, stuck: bool, second: Result<Glide>, ran: seq<Step>)
    ensures first == Failure(ReentrantGet) && stuck
    ensures second == Failure(ReentrantGet)
    ensures |ran| == 1
  {
    var m := GlideModule("ReentrantModule", true, false);
    var holder := new GlideHolder(None, [m]);
    assert holder.Plan() == [ApplyOptions(m), Build, RegisterComponents(m)];
    assert Reenters(holder.Plan()[0]);
    UntilReentryStopsAtFirst(holder.Plan(), 0);
    first := holder.GetAsWritten();
    stuck := holder.isInitializing;
    second := holder.GetAsWritten();
    ran := holder.steps;
  }

  /**
   * With the guard cleared on every exit, the same module's failure leaves the guard
   * clear, and the next `Glide.get` runs initialization again.
   */
  method RetriesAfterReentrantModule() returns (first: Result<Glide>, stuck: bool, second: Result<Glide>, ran: seq<Step>)
    ensures first.Failure? && !stuck
    ensures second.Failure?
    ensures |ran| == 2 && ran[0] == ran[1]
  {
    var m := GlideModule("ReentrantModule", true, false);
    var holder := new GlideHolder(None, [m]);
    assert holder.Plan() == [ApplyOptions(m), Build, RegisterComponents(m)];
    assert Reenters(holder.Plan()[0]);
    UntilReentryStopsAtFirst(holder.Plan(), 0);
    first := holder.Get();
    stuck := holder.isInitializing;
    second := holder.Get();
    ran := holder.steps;
  }
}
