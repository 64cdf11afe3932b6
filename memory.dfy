/**
 * What a Glide instance asks of its memory cache, bitmap pool and array pool.
 * Those collaborators are not modelled; every request to them is recorded as a
 * `CollaboratorCall`, and the requests made by one public operation form an `Episode`.
 */
module Memory {

  /** Coarse memory-pressure setting; NORMAL is the default. */
  datatype MemoryCategory = Low | Normal | High

  /** Size multiplier of a category, in percent of the configured size. */
  function Multiplier(category: MemoryCategory): nat {
    match category
    case Low => 50
    case Normal => 100
    case High => 150
  }

  datatype Collaborator = MemoryCache | BitmapPool | ArrayPool

  datatype CollaboratorCall =
    | SetSizeMultiplier(to: Collaborator, percent: nat)
    | ClearMemory(to: Collaborator)
    | TrimMemory(to: Collaborator, level: int)

  /** One public operation of Glide that fans out to the collaborators. */
  datatype Episode = Resize(percent: nat) | Clear | Trim(level: int)

  /** The collaborator that must be acted on just before `c`. */
  function Predecessor(c: Collaborator): Collaborator
    requires c != MemoryCache
  {
    if c == BitmapPool then MemoryCache else BitmapPool
  }

  /** The same request, addressed to another collaborator. */
  function Readdress(call: CollaboratorCall, to: Collaborator): CollaboratorCall {
    call.(to := to)
  }

  /** The calls one episode makes, in the order Glide makes them. */
  function Calls(e: Episode): seq<CollaboratorCall> {
    match e
    case Resize(p) => [SetSizeMultiplier(MemoryCache, p), SetSizeMultiplier(BitmapPool, p)]
    case Clear => [ClearMemory(MemoryCache), ClearMemory(BitmapPool), ClearMemory(ArrayPool)]
    case Trim(l) => [TrimMemory(MemoryCache, l), TrimMemory(BitmapPool, l), TrimMemory(ArrayPool, l)]
  }

  /** The full call trace of a sequence of episodes. */
  function Flatten(es: seq<Episode>): seq<CollaboratorCall> {
    if es == [] then [] else Calls(es[0]) + Flatten(es[1..])
  }

  lemma {:induction false} FlattenAppend(es: seq<Episode>, e: Episode)
    ensures Flatten(es + [e]) == Flatten(es) + Calls(e)
  {
    if es == [] {
      assert [e][1..] == [];
    } else {
      assert (es + [e])[1..] == es[1..] + [e];
      FlattenAppend(es[1..], e);
    }
  }

  /**
   * Within any trace Glide produces, a request to the bitmap pool comes right after
   * the same request to the memory cache, and a request to the array pool right
   * after the same request to the bitmap pool: the cache is always acted on before
   * the bitmap pool, and the bitmap pool before the array pool.
   */
  lemma {:induction false} CacheBeforePools(es: seq<Episode>, i: nat)
    requires i < |Flatten(es)| && Flatten(es)[i].to != MemoryCache
    ensures 0 < i
    ensures Flatten(es)[i - 1] == Readdress(Flatten(es)[i], Predecessor(Flatten(es)[i].to))
  {
    var head := Calls(es[0]);
    if i >= |head| {
      CacheBeforePools(es[1..], i - |head|);
    }
  }

  /**
   * Every clear or trim that reaches the memory cache goes on, with the same level,
   * to the bitmap pool and then to the array pool; a size multiplier sent to the
   * memory cache goes on, unchanged, to the bitmap pool and never to the array pool.
   */
  lemma {:induction false} CacheRequestReachesPools(es: seq<Episode>, i: nat)
    requires i < |Flatten(es)| && Flatten(es)[i].to == MemoryCache
    ensures i + 1 < |Flatten(es)|
    ensures Flatten(es)[i + 1] == Readdress(Flatten(es)[i], BitmapPool)
    ensures !Flatten(es)[i].SetSizeMultiplier? ==>
              i + 2 < |Flatten(es)| && Flatten(es)[i + 2] == Readdress(Flatten(es)[i], ArrayPool)
  {
    var head := Calls(es[0]);
    if i >= |head| {
      CacheRequestReachesPools(es[1..], i - |head|);
    }
  }

  /** The array pool's size is never changed through Glide. */
  lemma {:induction false} ArrayPoolNeverResized(es: seq<Episode>, i: nat)
    requires i < |Flatten(es)| && Flatten(es)[i].to == ArrayPool
    ensures !Flatten(es)[i].SetSizeMultiplier?
  {
    var head := Calls(es[0]);
    if i >= |head| {
      ArrayPoolNeverResized(es[1..], i - |head|);
    }
  }
}
