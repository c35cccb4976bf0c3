/**
 * The process-wide interner: `Singleton<UTxUniqueStringManager>` with its
 * lazily created instance, the global `Intern`, and the function-local
 * static that caches each class's interface ID.
 */
module Globals {
  import opened Base
  import opened UniqueStrings
  import opened Interner

  /**
   * `Singleton<UTxUniqueStringManager>`: `instance` is the static
   * `mInstancePtr`, null until first use.
   */
  class ManagerSingleton {
    var instance: UniqueStringManager?

    /** The objects an interning call may change. */
    ghost function Footprint(): set<object>
      reads this, instance
    {
      if instance == null then {this}
      else var m: UniqueStringManager := instance; {this, m, m.stringBuf}
    }

    ghost predicate Valid()
      reads this, if instance == null then {} else {instance} + instance.Repr
    {
      instance != null ==> instance.Valid()
    }

    /** Static storage starts out null. */
    constructor ()
      ensures Valid() && instance == null
    {
      instance := null;
    }

    /**
     * `InstancePtr()`: creates the manager on first use, only while the
     * static pointer is null, and returns the same one afterwards.
     */
    method InstancePtr() returns (p: UniqueStringManager)
      requires Valid()
      modifies this
      ensures Valid() && instance == p
      ensures old(instance) != null ==> p == old(instance)
      ensures old(instance) == null ==> fresh(p) && fresh(p.stringBuf) && p.Entries == [] && p.table == map[]
    {
      if instance == null {
        instance := new UniqueStringManager();
      }
      p := instance;
    }

    /** `Instance()`: the same object, by reference. */
    method Instance() returns (p: UniqueStringManager)
      requires Valid()
      modifies this
      ensures Valid() && instance == p
      ensures old(instance) != null ==> p == old(instance)
      ensures old(instance) == null ==> fresh(p) && p.Entries == []
    {
      p := InstancePtr();
    }

    /** `~Singleton()`: the next `InstancePtr()` creates a new manager. */
    method Destroy()
      modifies this
      ensures Valid() && instance == null
    {
      instance := null;
    }
  }

  /**
   * Two `InstancePtr()` calls with no destruction between them give the
   * same manager; after a destruction the next call creates a new one.
   */
  method InstanceTwice(s: ManagerSingleton) returns (p: UniqueStringManager, q: UniqueStringManager, r: UniqueStringManager)
    requires s.Valid()
    modifies s
    ensures p == q && r != p && fresh(r) && r.Entries == []
  {
    p := s.InstancePtr();
    q := s.InstancePtr();
    s.Destroy();
    r := s.InstancePtr();
  }

  /**
   * The global `Intern(str)`: interns through the singleton manager,
   * creating it on first use.
   */
  method Intern(s: ManagerSingleton, str: Option<seq<byte>>) returns (r: UniqueString?)
    requires s.Valid()
    requires str.Some? ==> |UpToNul(str.value)| < BufferSize
    modifies s.Footprint()
    ensures s.Valid() && s.instance != null
    ensures old(s.instance) != null ==> s.instance == old(s.instance)
    ensures str.None? ==> r == null
    ensures str.Some? ==> r != null && r in s.instance.Entries && r.chars == UpToNul(str.value)
    ensures old(s.instance) != null ==>
      s.instance.Entries == old(s.instance.Entries) || s.instance.Entries == old(s.instance.Entries) + [r]
    ensures old(s.instance) == null ==> fresh(s.instance) && fresh(s.instance.stringBuf)
    ensures old(s.instance) != null ==> s.instance.stringBuf == old(s.instance.stringBuf) || fresh(s.instance.stringBuf)
  {
    var m := s.InstancePtr();
    r := m.Intern(str);
  }

  /**
   * The static `pInterfaceID` inside one class's `InterfaceID()`: set from
   * `Intern(tag)` on the first call and returned unchanged afterwards.
   */
  class InterfaceIDCache {
    const tag: seq<byte>
    var id: UniqueString?

    /** The cached ID, when there is one, is the manager's entry for the tag. */
    ghost predicate Cached(s: ManagerSingleton)
      reads this, s, s.instance
    {
      id != null ==> s.instance != null && id in s.instance.Entries && id.chars == UpToNul(tag)
    }

    constructor (tag: seq<byte>)
      ensures this.tag == tag && id == null
    {
      this.tag := tag;
      id := null;
    }

    /** `cls::InterfaceID()`. */
    method InterfaceID(s: ManagerSingleton) returns (r: UniqueString)
      requires s.Valid() && Cached(s) && |UpToNul(tag)| < BufferSize
      modifies this, s.Footprint()
      ensures s.Valid() && Cached(s) && id == r
      ensures old(s.instance) != null ==> s.instance == old(s.instance)
      ensures old(id) != null ==> r == old(id)
      ensures r in s.instance.Entries && r.chars == UpToNul(tag)
      ensures old(s.instance) != null ==>
        s.instance.Entries == old(s.instance.Entries) || s.instance.Entries == old(s.instance.Entries) + [r]
      ensures old(s.instance) == null ==> fresh(s.instance) && fresh(s.instance.stringBuf)
      ensures old(s.instance) != null ==> s.instance.stringBuf == old(s.instance.stringBuf) || fresh(s.instance.stringBuf)
    {
      if id == null {
        var p := Intern(s, Some(tag));
        id := p;
      }
      r := id;
    }
  }

  /**
   * Two classes' interface IDs are the same pointer exactly when their
   * tags spell the same text, which is what lets `GetInterface` compare
   * IDs by address.
   */
  method InterfaceIDsAgree(s: ManagerSingleton, c: InterfaceIDCache, d: InterfaceIDCache)
    returns (x: UniqueString, y: UniqueString)
    requires s.Valid() && c != d && c.Cached(s) && d.Cached(s)
    requires |UpToNul(c.tag)| < BufferSize && |UpToNul(d.tag)| < BufferSize
    modifies c, d, s.Footprint()
    ensures x == y <==> UpToNul(c.tag) == UpToNul(d.tag)
  {
    x := c.InterfaceID(s);
    y := d.InterfaceID(s);
    Canonical(s.instance, x, y);
  }
}
