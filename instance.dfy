/**
 * The Glide instance: its registry of request managers, its memory category, and
 * the requests it forwards to the memory cache, bitmap pool and array pool.
 */
module Instance {
  import opened Base
  import opened Managers
  import opened Memory

  class Glide {
    /** Registered request managers, in registration order. */
    var managers: seq<RequestManager>
    var memoryCategory: MemoryCategory
    /** Every request forwarded so far to the memory cache and the pools, in order. */
    var calls: seq<CollaboratorCall>
    /** The public operations that produced `calls`. */
    ghost var episodes: seq<Episode>

    ghost predicate Valid()
      reads this
    {
      NoDuplicates(managers) && calls == Flatten(episodes)
    }

    /** What `GlideBuilder.build` yields, as far as this model sees it. */
    constructor ()
      ensures Valid()
      ensures managers == [] && memoryCategory == Normal && calls == []
    {
      managers := [];
      memoryCategory := Normal;
      calls := [];
      episodes := [];
    }

    method RegisterRequestManager(m: RequestManager) returns (status: Status)
      requires Valid()
      modifies this`managers
      ensures Valid()
      ensures m in old(managers) ==> status == Thrown(AlreadyRegistered) && managers == old(managers)
      ensures m !in old(managers) ==> status == Ok && managers == old(managers) + [m]
    {
      if m in managers {
        return Thrown(AlreadyRegistered);
      }
      AppendKeepsNoDuplicates(managers, m);
      managers := managers + [m];
      status := Ok;
    }

    method UnregisterRequestManager(m: RequestManager) returns (status: Status)
      requires Valid()
      modifies this`managers
      ensures Valid()
      ensures m !in old(managers) ==> status == Thrown(NotRegistered) && managers == old(managers)
      ensures m in old(managers) ==> status == Ok && managers == RemoveFirst(old(managers), m)
    {
      if m !in managers {
        return Thrown(NotRegistered);
      }
      RemovePresentExactly(managers, m);
      managers := RemoveFirst(managers, m);
      status := Ok;
    }

    /**
     * Asks each manager in list order to untrack `target`, stopping at the first that
     * does; `asked` lists the managers asked. Throws when no manager tracked it.
     * The list itself is left as it is.
     */
    method RemoveFromManagers(target: Target, untrack: (RequestManager, Target) -> bool)
      returns (status: Status, asked: seq<RequestManager>)
      ensures status == Ok <==> FirstAccepting(managers, target, untrack).Some?
      ensures status == Ok ==> |asked| == FirstAccepting(managers, target, untrack).value + 1
      ensures status == Ok <==> exists j :: 0 <= j < |managers| && untrack(managers[j], target)
      ensures status != Ok ==> status == Thrown(TargetNotTracked) && asked == managers
      ensures status == Ok ==>
                0 < |asked| <= |managers| && asked == managers[..|asked|]
                && untrack(asked[|asked| - 1], target)
                && forall j :: 0 <= j < |asked| - 1 ==> !untrack(asked[j], target)
    {
      asked := [];
      var i := 0;
      while i < |managers|
        invariant 0 <= i <= |managers|
        invariant asked == managers[..i]
        invariant forall j :: 0 <= j < i ==> !untrack(managers[j], target)
      {
        var requestManager := managers[i];
        asked := asked + [requestManager];
        if untrack(requestManager, target) {
          return Ok, asked;
        }
        i := i + 1;
      }
      status := Thrown(TargetNotTracked);
    }

    /**
     * Sends the category's multiplier to the memory cache, then to the bitmap pool,
     * stores the category and returns the one stored before.
     */
    method SetMemoryCategory(category: MemoryCategory) returns (previous: MemoryCategory)
      requires Valid()
      modifies this`memoryCategory, this`calls, this`episodes
      ensures Valid()
      ensures previous == old(memoryCategory) && memoryCategory == category
      ensures calls == old(calls) + [SetSizeMultiplier(MemoryCache, Multiplier(category)),
                                     SetSizeMultiplier(BitmapPool, Multiplier(category))]
    {
      calls := calls + [SetSizeMultiplier(MemoryCache, Multiplier(category))];
      calls := calls + [SetSizeMultiplier(BitmapPool, Multiplier(category))];
      FlattenAppend(episodes, Resize(Multiplier(category)));
      episodes := episodes + [Resize(Multiplier(category))];
      previous := memoryCategory;
      memoryCategory := category;
    }

    method ClearMemory()
      requires Valid()
      modifies this`calls, this`episodes
      ensures Valid()
      ensures calls == old(calls) + Calls(Clear)
    {
      calls := calls + [CollaboratorCall.ClearMemory(MemoryCache)];
      calls := calls + [CollaboratorCall.ClearMemory(BitmapPool)];
      calls := calls + [CollaboratorCall.ClearMemory(ArrayPool)];
      FlattenAppend(episodes, Clear);
      episodes := episodes + [Clear];
    }

    method TrimMemory(level: int)
      requires Valid()
      modifies this`calls, this`episodes
      ensures Valid()
      ensures calls == old(calls) + Calls(Trim(level))
    {
      calls := calls + [CollaboratorCall.TrimMemory(MemoryCache, level)];
      calls := calls + [CollaboratorCall.TrimMemory(BitmapPool, level)];
      calls := calls + [CollaboratorCall.TrimMemory(ArrayPool, level)];
      FlattenAppend(episodes, Trim(level));
      episodes := episodes + [Trim(level)];
    }

    /** The platform's trim callback is exactly `TrimMemory`. */
    method OnTrimMemory(level: int)
      requires Valid()
      modifies this`calls, this`episodes
      ensures Valid()
      ensures calls == old(calls) + Calls(Trim(level))
    {
      TrimMemory(level);
    }

    /** The platform's low-memory callback is exactly `ClearMemory`. */
    method OnLowMemory()
      requires Valid()
      modifies this`calls, this`episodes
      ensures Valid()
      ensures calls == old(calls) + Calls(Clear)
    {
      ClearMemory();
    }
  }
}
