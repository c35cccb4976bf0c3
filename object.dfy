/**
 * The base object of the runtime: intrusive reference counting
 * (`UTxRefCounted` as implemented by `Object`), interface queries through
 * interned interface IDs (`DEFINE_INTERFACE_ID`, `CastInterface`,
 * `IsType`), and the per-class construction counters (`ClsObjectCount`).
 *
 * Deleting an object is modelled by the ghost flag `alive`; `deletions`
 * counts how often the object has been deleted.
 */
module Objects {
  import opened UniqueStrings

  /**
   * `Object`.  `count` is the reference count.  `chain` lists the
   * interface IDs that the `DEFINE_INTERFACE_ID` chain of the object's
   * class checks, most derived class first; `objectTag` is the interned
   * "NAGA.Object" that `Object::GetInterface` caches.
   */
  class Object {
    var count: int
    const chain: seq<UniqueString>
    const objectTag: UniqueString
    ghost var alive: bool
    ghost var deletions: nat

    /** An object is deleted at most once, and is live until then. */
    ghost predicate Valid()
      reads this
    {
      deletions == if alive then 0 else 1
    }

    /** `Object(count)`. */
    constructor (count: int, chain: seq<UniqueString>, objectTag: UniqueString)
      ensures Valid() && alive && this.count == count
      ensures this.chain == chain && this.objectTag == objectTag
    {
      this.count := count;
      this.chain := chain;
      this.objectTag := objectTag;
      alive := true;
      deletions := 0;
    }

    /** `Object()`: the default initial reference count is 0. */
    constructor Default(chain: seq<UniqueString>, objectTag: UniqueString)
      ensures Valid() && alive && count == 0
      ensures this.chain == chain && this.objectTag == objectTag
    {
      count := 0;
      this.chain := chain;
      this.objectTag := objectTag;
      alive := true;
      deletions := 0;
    }

    /** `RefCount()`: reads the count without changing anything. */
    function RefCount(): (n: int)
      reads this
    {
      count
    }

    /** `AddRef()`: one more reference. */
    method AddRef()
      requires alive
      modifies this
      ensures RefCount() == old(RefCount()) + 1
      ensures alive && deletions == old(deletions)
    {
      count := count + 1;
    }

    /** `ReleaseRef()`: one reference fewer; the object deletes itself at a count of 0 or less. */
    method ReleaseRef()
      requires alive && Valid()
      modifies this
      ensures Valid() && RefCount() == old(RefCount()) - 1
      ensures alive <==> RefCount() > 0
      ensures deletions == old(deletions) + (if RefCount() <= 0 then 1 else 0)
    {
      count := count - 1;
      if count <= 0 {
        Delete();
      }
    }

    /** `Delete()`: `delete this`; nothing may use the object afterwards. */
    method Delete()
      requires alive && Valid()
      modifies this
      ensures Valid() && !alive && deletions == old(deletions) + 1
      ensures count == old(count)
    {
      alive := false;
      deletions := deletions + 1;
    }

    /**
     * `GetInterface(t)` from level `level` of the class chain down: a
     * level answers `this` for its own ID and otherwise asks its parent;
     * `Object` itself answers `this` only for "NAGA.Object".
     */
    function GetInterfaceFrom(level: nat, t: UniqueString?): (r: Object?)
      requires level <= |chain|
      ensures r == this || r == null
      ensures r == this <==> t in chain[level..] || t == objectTag
      decreases |chain| - level
    {
      if level == |chain| then
        if objectTag == t then this else null
      else if chain[level] == t then this
      else GetInterfaceFrom(level + 1, t)
    }

    /** `GetInterface(t)` as called on the object's own class. */
    function GetInterface(t: UniqueString?): (r: Object?)
      ensures r == this <==> t in chain || t == objectTag
      ensures r != this ==> r == null
    {
      assert chain[0..] == chain;
      GetInterfaceFrom(0, t)
    }
  }

  /** A query with the ID of any class in the chain finds the object. */
  lemma AncestorQuerySucceeds(o: Object, i: nat)
    requires i < |o.chain|
    ensures o.GetInterface(o.chain[i]) == o
  {
  }

  /** `CastInterface<T>(object)`, both overloads: null stays null without a query. */
  function CastInterface(obj: Object?, id: UniqueString?): (r: Object?)
    ensures obj == null ==> r == null
    ensures obj != null ==> r == obj.GetInterface(id)
  {
    if obj == null then null else obj.GetInterface(id)
  }

  /** `IsType<T>(itm)` and `IsType(clsTag, itm)`: the query for the ID succeeds. */
  predicate IsType(id: UniqueString?, itm: Object)
    ensures IsType(id, itm) <==> id in itm.chain || id == itm.objectTag
  {
    itm.GetInterface(id) != null
  }

  /**
   * The static counters of one class using `ClsObjectCount`:
   * `objectCount` is `mClsObjectCount`, `objectID` is `mClsObjectID`.
   * `constructions` and `destructions` count the constructor and
   * destructor runs.
   */
  class ClassCounters {
    var objectCount: int
    var objectID: int
    ghost var constructions: nat
    ghost var destructions: nat

    /** Live count is constructions minus destructions; the ID is the number of constructions. */
    ghost predicate Valid()
      reads this
    {
      objectCount == constructions - destructions && objectID == constructions
    }

    /** `DEFINE_CLSOBJECTCOUNT(cls)`: both counters start at 0. */
    constructor ()
      ensures Valid() && objectCount == 0 && objectID == 0
      ensures constructions == 0 && destructions == 0
    {
      objectCount := 0;
      objectID := 0;
      constructions := 0;
      destructions := 0;
    }

    /** `NetObjectCount()`. */
    function NetObjectCount(): (n: int)
      reads this
      requires Valid()
      ensures n == constructions - destructions
    {
      objectCount
    }

    /** `NetObjectID()`, also what `ObjectID<T>()` returns. */
    function NetObjectID(): (n: int)
      reads this
      requires Valid()
      ensures n == constructions && n >= 0
    {
      objectID
    }

    /** `IncreaseObjectCount()`. */
    method Increase()
      modifies this
      ensures objectID == old(objectID) + 1 && objectCount == old(objectCount) + 1
      ensures constructions == old(constructions) && destructions == old(destructions)
    {
      objectID := objectID + 1;
      objectCount := objectCount + 1;
    }

    /** `DecreaseObjectCount()`: the ID counter never goes down. */
    method Decrease()
      modifies this
      ensures objectCount == old(objectCount) - 1 && objectID == old(objectID)
      ensures constructions == old(constructions) && destructions == old(destructions)
    {
      objectCount := objectCount - 1;
    }

    /** The default and the copy constructor of `ClsObjectCount`. */
    method Construct()
      requires Valid()
      modifies this
      ensures Valid() && constructions == old(constructions) + 1 && destructions == old(destructions)
      ensures NetObjectCount() == old(NetObjectCount()) + 1 && NetObjectID() == old(NetObjectID()) + 1
    {
      Increase();
      constructions := constructions + 1;
    }

    /** The destructor of `ClsObjectCount`. */
    method Destruct()
      requires Valid()
      modifies this
      ensures Valid() && destructions == old(destructions) + 1 && constructions == old(constructions)
      ensures NetObjectCount() == old(NetObjectCount()) - 1 && NetObjectID() == old(NetObjectID())
    {
      Decrease();
      destructions := destructions + 1;
    }
  }

  /**
   * Constructing `made` objects of a class and destroying `destroyed` of
   * them leaves a live count of the difference and an ID equal to `made`.
   */
  method ConstructAndDestroy(made: nat, destroyed: nat) returns (live: int, id: int)
    requires destroyed <= made
    ensures live == made - destroyed && id == made
  {
    var counters := new ClassCounters();
    var i := 0;
    while i < made
      invariant i <= made && counters.Valid()
      invariant counters.constructions == i && counters.destructions == 0
    {
      counters.Construct();
      i := i + 1;
    }
    i := 0;
    while i < destroyed
      invariant i <= destroyed && counters.Valid()
      invariant counters.constructions == made && counters.destructions == i
    {
      counters.Destruct();
      i := i + 1;
    }
    live := counters.NetObjectCount();
    id := counters.NetObjectID();
  }
}
