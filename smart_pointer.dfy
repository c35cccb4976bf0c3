/**
 * `SmartPointer<T>`: a handle that keeps a reference on the object it
 * holds, through `PointerTrait`'s null-guarded `AddRef` and `ReleaseRef`.
 * The handle is modelled for objects of the base class `Object`.
 */
module SmartPointers {
  import opened Objects

  /** `PointerTrait::AddRef`: adds a reference unless the pointer is null. */
  method AddRef(p: Object?)
    requires p != null ==> p.alive
    modifies p
    ensures p != null ==> p.count == old(p.count) + 1 && p.alive && p.deletions == old(p.deletions)
  {
    if p != null {
      p.AddRef();
    }
  }

  /** `PointerTrait::ReleaseRef`: releases a reference unless the pointer is null. */
  method ReleaseRef(p: Object?)
    requires p != null ==> p.alive && p.Valid()
    modifies p
    ensures p != null ==> p.Valid() && p.count == old(p.count) - 1 && (p.alive <==> p.count > 0)
  {
    if p != null {
      p.ReleaseRef();
    }
  }

  class SmartPointer {
    var obj: Object?

    /** `SmartPointer()`: a null handle; no count changes. */
    constructor Null()
      ensures obj == null
    {
      obj := null;
    }

    /** `SmartPointer(T*)`: holds the object and adds a reference to it. */
    constructor FromRaw(p: Object?)
      requires p != null ==> p.alive
      modifies p
      ensures obj == p
      ensures p != null ==> p.count == old(p.count) + 1 && p.alive && p.deletions == old(p.deletions)
    {
      obj := p;
      new;
      AddRef(p);
    }

    /** The copy constructors: share the other handle's object and add a reference. */
    constructor Copy(other: SmartPointer)
      requires other.obj != null ==> other.obj.alive
      modifies other.obj
      ensures obj == other.obj && other.obj == old(other.obj)
      ensures obj != null ==> obj.count == old(other.obj.count) + 1 && obj.alive && obj.deletions == old(other.obj.deletions)
    {
      obj := other.obj;
      new;
      AddRef(obj);
    }

    /** The move constructor: takes the other handle's object, which becomes null; no count changes. */
    constructor Move(other: SmartPointer)
      modifies other
      ensures obj == old(other.obj) && other.obj == null
    {
      obj := other.obj;
      new;
      other.obj := null;
    }

    /** The destructor: releases one reference when the handle is not null. */
    method Destroy()
      requires obj != null ==> obj.alive && obj.Valid()
      modifies obj
      ensures obj != null ==> obj.Valid() && obj.count == old(obj.count) - 1 && (obj.alive <==> obj.count > 0)
    {
      ReleaseRef(obj);
    }

    /**
     * `operator=(T*)`, both overloads: nothing happens for the object
     * already held; otherwise the new object gains a reference before the
     * old one loses its reference, and the handle switches.
     */
    method Assign(p: Object?)
      requires p != null ==> p.alive
      requires obj != null ==> obj.alive && obj.Valid()
      modifies this, obj, p
      ensures p == old(obj) ==> obj == old(obj) && (p != null ==> p.count == old(p.count) && p.alive == old(p.alive) && p.deletions == old(p.deletions))
      ensures p != old(obj) ==> obj == p
      ensures p != old(obj) && p != null ==> p.count == old(p.count) + 1 && p.alive && p.deletions == old(p.deletions)
      ensures p != old(obj) && old(obj) != null ==>
        old(obj).Valid() && old(obj).count == old(obj.count) - 1 && (old(obj).alive <==> old(obj).count > 0)
    {
      if obj != p {
        AddRef(p);
        ReleaseRef(obj);
        obj := p;
      }
    }

    /** `operator=(SmartPointer&)`, both overloads: assignment of the other handle's object. */
    method AssignHandle(other: SmartPointer)
      requires other.obj != null ==> other.obj.alive
      requires obj != null ==> obj.alive && obj.Valid()
      modifies this, obj, other.obj
      ensures other.obj == old(other.obj)
      ensures old(other.obj) == old(obj) ==>
        obj == old(obj)
        && (obj != null ==>
              obj.count == old(obj.count) && obj.alive == old(obj.alive) && obj.deletions == old(obj.deletions))
      ensures old(other.obj) != old(obj) ==> obj == old(other.obj)
      ensures old(other.obj) != old(obj) && old(other.obj) != null ==>
        old(other.obj).count == old(other.obj.count) + 1 && old(other.obj).alive
        && old(other.obj).deletions == old(other.obj.deletions)
      ensures old(other.obj) != old(obj) && old(obj) != null ==>
        old(obj).Valid() && old(obj).count == old(obj.count) - 1 && (old(obj).alive <==> old(obj).count > 0)
    {
      Assign(other.obj);
    }

    /** `IsNull()`. */
    predicate IsNull()
      reads this
      ensures IsNull() <==> obj == null
    {
      obj == null
    }

    /** `Pointer()` and the conversions to `T*`. */
    function Pointer(): (p: Object?)
      reads this
      ensures p == null <==> IsNull()
    {
      obj
    }

    /** `Attach(p)`: takes over an already counted object; no count changes. */
    method Attach(p: Object?)
      modifies this
      ensures obj == p
    {
      obj := p;
    }

    /** `Detach()`: hands the object back still counted, leaving the handle null. */
    method Detach() returns (p: Object?)
      modifies this
      ensures p == old(obj) && obj == null
    {
      p := obj;
      obj := null;
    }

    /** `operator==(T*)` and `operator!=(T*)`: address comparison. */
    predicate EqualsRaw(p: Object?)
      reads this
      ensures EqualsRaw(p) <==> Pointer() == p
    {
      obj == p
    }

    /** `operator==(const SmartPointer&)` and `!=`: the held addresses only. */
    predicate EqualsHandle(other: SmartPointer)
      reads this, other
      ensures EqualsHandle(other) <==> Pointer() == other.Pointer()
    {
      obj == other.obj
    }
  }

  /**
   * `n` handles made from an object and then destroyed leave its count
   * where it was; an object starting at 0 is deleted exactly once, by the
   * last release.
   */
  method ShareAndRelease(o: Object, n: nat) returns (handles: seq<SmartPointer>)
    requires o.alive && o.Valid() && o.count >= 0
    modifies o
    ensures |handles| == n
    ensures o.Valid() && o.count == old(o.count)
    ensures o.alive <==> old(o.count) > 0 || n == 0
    ensures o.deletions == if o.alive then 0 else 1
  {
    handles := [];
    while |handles| < n
      invariant |handles| <= n && o.alive && o.Valid()
      invariant o.count == old(o.count) + |handles|
      invariant forall k :: 0 <= k < |handles| ==> handles[k].obj == o && fresh(handles[k])
    {
      var h := new SmartPointer.FromRaw(o);
      handles := handles + [h];
    }
    var j := 0;
    while j < n
      invariant j <= n && o.Valid()
      invariant o.count == old(o.count) + n - j
      invariant o.alive <==> o.count > 0 || j == 0
      invariant forall k :: 0 <= k < |handles| ==> handles[k].obj == o
    {
      handles[j].Destroy();
      j := j + 1;
    }
  }

  /**
   * Reference traffic through every kind of handle operation balances:
   * `a` is held, assigned to itself, copied, moved and reassigned away,
   * `b` is held, assigned to itself and then assigned into two other
   * handles, and all four handles are destroyed.
   * Both counts end where they started, and an object starting at 0 is
   * deleted exactly once.
   */
  method HandleTraffic(a: Object, b: Object)
    requires a != b && a.alive && a.Valid() && b.alive && b.Valid()
    requires a.count >= 0 && b.count >= 0
    modifies a, b
    ensures a.Valid() && a.count == old(a.count) && (a.alive <==> old(a.count) > 0)
    ensures b.Valid() && b.count == old(b.count) && (b.alive <==> old(b.count) > 0)
    ensures a.deletions == (if old(a.count) > 0 then 0 else 1)
    ensures b.deletions == (if old(b.count) > 0 then 0 else 1)
  {
    var h := new SmartPointer.FromRaw(a);   // a: +1
    h.Assign(a);                            // its own object: no change
    var k := new SmartPointer.Copy(h);      // a: +2
    var g := new SmartPointer.FromRaw(b);   // b: +1
    g.AssignHandle(g);                      // its own object: no change
    k.AssignHandle(g);                      // b: +2, a: +1
    var m := new SmartPointer.Move(h);      // h is null, m holds a
    m.Assign(b);                            // b: +3, a: +0
    h.Destroy();
    m.Destroy();
    k.Destroy();
    g.Destroy();
  }
}
