# Glide core: the singleton, its initialization, and the instance's bookkeeping

This project models the core of Glide's `Glide` class, the entry point of the
Glide image-loading library for Android, and proves properties of the model.

- **The singleton and its guard** (`singleton.dfy`). `Glide.get` returns the
  process-wide instance and initializes it on first use. A static
  `isInitializing` flag guards initialization: a call to `Glide.get` made from a
  module callback while initialization runs throws instead of recursing.
  `GlideHolder` holds the two static fields and records every initialization step
  that runs.
- **Module selection and application** (`modules.dfy`). Manifest modules are parsed
  unless a generated (annotation-processed) module turns parsing off. Modules whose
  class the generated module excludes are removed. Then `applyOptions` runs on
  every manifest module and on the generated one, the instance is built, and
  `registerComponents` runs in the same order.
- **The instance** (`instance.dfy`, `managers.dfy`, `memory.dfy`). `Glide` keeps its
  registered `RequestManager`s in a list without duplicates and its current memory
  category. It forwards clear, trim and resize requests to its memory cache, bitmap
  pool and array pool. Those three collaborators are not modelled: each request
  sent to them is recorded in order, and the model proves the ordering the source
  relies on (cache before bitmap pool, bitmap pool before array pool).
- `base.dfy` holds the shared `Option`, `Status` and `Result` types and the
  `IllegalStateException`s the core throws.

`isInitializing` is cleared on every exit from initialization in the model that
`GlideHolder.Get` uses; the source clears it only on a normal return (see
"## Findings").

## Model

All source paths are relative to the repository root.

| member | source | states |
|---|---|---|
| Managers.RemoveFirst | library/src/main/java/com/bumptech/glide/Glide.java:659 | `List.remove(Object)`: an absent element leaves the list as it is; otherwise the list loses exactly its first occurrence, and both sides of it are kept in order |
| Managers.FirstAccepting | library/src/main/java/com/bumptech/glide/Glide.java:636-640 | the index of the first manager in list order whose `untrack(target)` is true, every earlier one having refused; None exactly when every manager refuses |
| Managers.AppendKeepsNoDuplicates | library/src/main/java/com/bumptech/glide/Glide.java:647-650 | adding a manager that is not yet in the list keeps the list free of duplicates |
| Managers.RemovePresentExactly | library/src/main/java/com/bumptech/glide/Glide.java:656-659 | removing a registered manager from a duplicate-free list shortens it by one, leaves no copy of it, keeps every other manager, and keeps the list duplicate-free |
| Managers.RegisterThenUnregister | library/src/main/java/com/bumptech/glide/Glide.java:645-661 | registering a new manager and then unregistering it restores the list exactly |
| Instance.Glide.constructor | library/src/main/java/com/bumptech/glide/Glide.java:106-107 | a new instance has no managers, memory category NORMAL, and has sent nothing to its cache or pools |
| Instance.Glide.RegisterRequestManager | library/src/main/java/com/bumptech/glide/Glide.java:645-652 | throws "already registered" and leaves the list alone when the manager is present; otherwise appends it; the list stays duplicate-free |
| Instance.Glide.UnregisterRequestManager | library/src/main/java/com/bumptech/glide/Glide.java:654-661 | throws "not yet registered" and leaves the list alone when the manager is absent; otherwise removes it (`RemoveFirst`); the list stays duplicate-free |
| Instance.Glide.RemoveFromManagers | library/src/main/java/com/bumptech/glide/Glide.java:634-643 | succeeds iff some manager untracks the target, after asking exactly the managers up to and including the first (`FirstAccepting`) that does; otherwise every manager was asked and "Failed to remove target" is thrown |
| Instance.Glide.SetMemoryCategory | library/src/main/java/com/bumptech/glide/Glide.java:512-521 | returns the previous category, stores the new one, and sends its multiplier to the memory cache and then to the bitmap pool, and to nothing else |
| Instance.Glide.ClearMemory | library/src/main/java/com/bumptech/glide/Glide.java:456-463 | clears the memory cache, then the bitmap pool, then the array pool |
| Instance.Glide.TrimMemory | library/src/main/java/com/bumptech/glide/Glide.java:470-478 | trims the memory cache, then the bitmap pool, then the array pool, all to the given level |
| Instance.Glide.OnTrimMemory | library/src/main/java/com/bumptech/glide/Glide.java:663-666 | the platform's trim callback sends exactly what `TrimMemory` sends |
| Instance.Glide.OnLowMemory | library/src/main/java/com/bumptech/glide/Glide.java:673-677 | the platform's low-memory callback sends exactly what `ClearMemory` sends |
| Memory.FlattenAppend | library/src/main/java/com/bumptech/glide/Glide.java:456-478 | the requests of one more operation are appended after all earlier requests |
| Memory.CacheBeforePools | library/src/main/java/com/bumptech/glide/Glide.java:474-477 | in any request trace of an instance, a request to a pool comes right after the same request to the collaborator before it (memory cache, then bitmap pool) |
| Memory.CacheRequestReachesPools | library/src/main/java/com/bumptech/glide/Glide.java:459-462 | a clear or trim of the memory cache is followed, with the same level, by the bitmap pool's and then the array pool's; a multiplier sent to the cache is followed by the same one to the bitmap pool |
| Memory.ArrayPoolNeverResized | library/src/main/java/com/bumptech/glide/Glide.java:515-517 | no size multiplier ever reaches the array pool |
| Modules.WithoutExcludedMembers | library/src/main/java/com/bumptech/glide/Glide.java:195-209 | a module survives exclusion iff it was in the list and its class is not excluded, so the filter never grows the list |
| Modules.WithoutExcludedKeepsOrder | library/src/main/java/com/bumptech/glide/Glide.java:198-208 | exclusion only drops modules: the survivors keep their relative order |
| Modules.NothingExcluded | library/src/main/java/com/bumptech/glide/Glide.java:195-197 | an empty exclusion set leaves the list unchanged |
| Modules.WithoutExcludedSnoc | library/src/main/java/com/bumptech/glide/Glide.java:198-208 | the filter over a list with one more module adds that module exactly when its class is not excluded |
| Modules.RemoveExcluded | library/src/main/java/com/bumptech/glide/Glide.java:198-208 | the iterator loop that removes excluded modules in place leaves exactly `WithoutExcluded` of its input |
| Modules.AppliedModulesCases | library/src/main/java/com/bumptech/glide/Glide.java:189-209 | the modules whose callbacks run: the parsed manifest modules when there is no generated module; only the generated module when it turns manifest parsing off; otherwise the parsed modules that survive its exclusions, followed by the generated module |
| Modules.SelectionIsExclusionFilter | library/src/main/java/com/bumptech/glide/Glide.java:195-209 | skipping the loop when nothing is excluded gives the same modules as running the filter |
| Modules.InitStepsOrder | library/src/main/java/com/bumptech/glide/Glide.java:222-234 | each module's `applyOptions` in list order, then one build, then each module's `registerComponents` in the same order: every option step precedes the build and every component step follows it |
| Modules.GeneratedModuleLast | library/src/main/java/com/bumptech/glide/Glide.java:225-234 | with a generated module, its callbacks are the last of each phase |
| Modules.AnyReentersMeansSomeStep | library/src/main/java/com/bumptech/glide/Glide.java:166-168 | initialization runs into the guard iff some planned step calls `Glide.get` |
| Modules.UntilReentry | library/src/main/java/com/bumptech/glide/Glide.java:166-168 | the steps that run: all of them when none calls `Glide.get`, and otherwise a run ending in a step that does |
| Modules.UntilReentryIsPrefix | library/src/main/java/com/bumptech/glide/Glide.java:222-234 | the steps that run are a prefix of the plan, and no step before the last calls `Glide.get` |
| Modules.UntilReentryStopsAtFirst | library/src/main/java/com/bumptech/glide/Glide.java:166-168 | when step `i` is the first to call `Glide.get`, exactly steps 0..i run |
| Modules.AnyReentersAppend | library/src/main/java/com/bumptech/glide/Glide.java:222-234 | a plan made of two parts reaches the guard iff one of the parts does |
| Modules.UntilReentryAppend | library/src/main/java/com/bumptech/glide/Glide.java:222-234 | running two parts one after the other stops in the first part if it reaches the guard, and otherwise runs it whole and goes on into the second |
| Modules.InitStepsPhases | library/src/main/java/com/bumptech/glide/Glide.java:222-234 | the plan for manifest modules followed by the generated one is: all option steps (manifest first), the build, all component steps (manifest first) |
| Modules.AroundBuild | library/src/main/java/com/bumptech/glide/Glide.java:222-234 | initialization stops in the option phase if that phase reaches the guard, and otherwise gets through the build into the component phase |
| Modules.InitPlanByPhases | library/src/main/java/com/bumptech/glide/Glide.java:222-234 | how far initialization runs, stated through the two callback phases |
| Singleton.GlideHolder.constructor | library/src/main/java/com/bumptech/glide/Glide.java:94-95 | the static fields start out with no singleton and the guard clear |
| Singleton.GlideHolder.Get | library/src/main/java/com/bumptech/glide/Glide.java:151-161 | with the corrected guard (see "## Findings"): an existing singleton is returned as it is; a call during initialization throws; otherwise initialization runs and the guard is clear afterwards, and either a fresh instance in its built state becomes the singleton or a callback's exception propagates with no singleton set |
| Singleton.GlideHolder.GetAsWritten | library/src/main/java/com/bumptech/glide/Glide.java:151-173 | `get` over the guard as written: the same outcomes as `Get`, except that after a callback's exception the guard is left set |
| Singleton.GlideHolder.CheckAndInitialize | library/src/main/java/com/bumptech/glide/Glide.java:163-173 | corrected guard: throws when the flag is set; otherwise runs initialization and clears the flag however it ends |
| Singleton.GlideHolder.CheckAndInitializeAsWritten | library/src/main/java/com/bumptech/glide/Glide.java:163-173 | the guard as written: after an attempt the flag is still set exactly when a callback called `Glide.get` |
| Singleton.GlideHolder.InitializeGlide | library/src/main/java/com/bumptech/glide/Glide.java:186-236 | runs exactly the steps of the plan for the selected modules up to the first callback that calls `Glide.get`; publishes a fresh instance, in its built state, iff no callback does |
| Singleton.GlideHolder.ApplyModules | library/src/main/java/com/bumptech/glide/Glide.java:222-236 | the callback phases and the build run in plan order, stopping at the first exception; the instance is published only when both phases complete |
| Singleton.GlideHolder.BuildAndRegister | library/src/main/java/com/bumptech/glide/Glide.java:228-236 | the build, then the component phase, then publication only if that phase completes |
| Singleton.GlideHolder.BuildInstance | library/src/main/java/com/bumptech/glide/Glide.java:228 | the builder yields a new instance in its initial state |
| Singleton.GlideHolder.RunPhases | library/src/main/java/com/bumptech/glide/Glide.java:222-234 | a phase (options at 222-227, components at 229-234) runs the manifest modules' callbacks, then the generated module's, stopping at the first exception |
| Singleton.GlideHolder.RunSteps | library/src/main/java/com/bumptech/glide/Glide.java:222-224 | runs callbacks in order (the option loop at 222-224 and the component loop at 229-231) until one calls `Glide.get`; that call throws "You cannot call Glide.get()", which ends the loop |
| Singleton.StuckAfterReentrantModule | library/src/main/java/com/bumptech/glide/Glide.java:151-173 | as written: after a module's `applyOptions` calls `Glide.get`, the guard stays set and the next top-level `get` is refused without running any module |
| Singleton.RetriesAfterReentrantModule | library/src/main/java/com/bumptech/glide/Glide.java:163-173 | corrected: after the same failure the guard is clear, and the next attempt runs initialization again from the start |

## Left out

- `getPhotoCacheDir` (both overloads): file-system access, outside this model.
- `init` and `tearDown`: test hooks that overwrite the static field.
- The constructor's wiring of the registry, decoders, encoders and factories, and `GlideBuilder`'s configuration: the model's instance starts with the state that this core reads and writes.
- Engine, caches and pools themselves: they are collaborators; the model records the requests sent to them in order.
- `clearDiskCache`, `preFillBitmapPool`, the accessors, the `with(...)` overloads and `getRetriever`: they delegate to collaborators not modelled here.
- Reflection in `getAnnotationGeneratedGlideModules` and `ManifestParser`: the generated module and the parsed manifest list are parameters of `GlideHolder`.
- `synchronized` blocks, `volatile` fields, the double-checked locking in `get`, and the main-thread and background-thread assertions: the model is single-threaded.
- Logging and `registerComponentCallbacks`: no state of the core depends on them.
- Memory.Multiplier: the float multipliers of `MemoryCategory` are not in the modelled code; the model uses percent of the configured size, 50 for LOW, 100 for NORMAL and 150 for HIGH, chosen as the bounds the javadoc of `setMemoryCategory` documents (HIGH raises memory use "by up to" 50%).
- Instance.Glide.RemoveFromManagers: what `RequestManager.untrack` does to the manager is not modelled; only its answer, a function of manager and target, is.
- Singleton.GlideHolder.Get: a module callback that catches the exception thrown by the nested `Glide.get` and carries on is not modelled; every such exception ends initialization.
- Singleton.GlideHolder.Get: exceptions thrown by module callbacks for other reasons are not modelled.
- Singleton.GlideHolder.Get: goes through the corrected guard, which clears `isInitializing` on every exit; `GetAsWritten` is the source's `get` with the guard as written, which leaves the flag set after a failed initialization.
- Singleton.GlideHolder.InitializeGlide: what module callbacks do to the `GlideBuilder` they configure and to the instance handed to `registerComponents` is not modelled (a callback is modelled only by whether it calls `Glide.get`); so the published instance is promised to be in its built state, which the source does not promise once callbacks change it.

## Findings

| source | as written | input that shows it | evidently intended | confidence | as-written member | corrected member |
|---|---|---|---|---|---|---|
| library/src/main/java/com/bumptech/glide/Glide.java:170-172 | `isInitializing = false` runs only when `initializeGlide` returns normally | a manifest module whose `applyOptions` calls `Glide.get`: that call throws, the exception leaves `initializeGlide`, and the flag stays set, so every later `Glide.get` throws "You cannot call Glide.get() in registerComponents()" without trying to initialize | clear the flag in a `finally`, so that a failed initialization can be attempted again | medium, not executed | Singleton.StuckAfterReentrantModule | Singleton.GlideHolder.CheckAndInitialize |
