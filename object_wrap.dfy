/** Lifetime bridge between a native object and a host (V8) object.
    The host runtime's persistent handle is abstracted into three pieces of state on the
    wrapper: the host object it points at (`persistent`, null when the handle is empty),
    whether the handle is weak (a finalization callback is registered), and whether the
    native object has been deleted. */
module NapaModule {

  /** The lifetime modes a wrapper goes through. */
  datatype Lifetime = Unattached | Weak | Strong | Finalized

  /** A host object with internal fields; only internal field 0, which holds the
      back-reference to the native wrapper, is modelled. `collected` records that the
      collector has reclaimed it: no handle to it can be used any more. */
  class HostObject {
    const internalFieldCount: nat
    var internalField: ObjectWrap?
    var collected: bool

    constructor (fieldCount: nat)
      ensures internalFieldCount == fieldCount && internalField == null && !collected
    {
      internalFieldCount := fieldCount;
      internalField := null;
      collected := false;
    }
  }

  class ObjectWrap {
    /** Reference (pin) count. */
    var refs: int
    /** Target of the persistent handle; null is the empty handle. */
    var persistent: HostObject?
    /** The persistent handle is weak: the collector may call WeakCallback. */
    var weak: bool
    /** The native object has been deleted. */
    var destroyed: bool

    /** The object invariant: a non-negative count, an empty and strong handle while
        unattached or deleted, and, while attached, a live host object that points
        back here and a handle that is weak exactly when nobody holds a reference. */
    ghost predicate Valid()
      reads this, persistent
    {
      refs >= 0 &&
      (destroyed ==> persistent == null && !weak) &&
      (!destroyed && persistent == null ==> !weak && refs == 0) &&
      (persistent != null ==>
         !persistent.collected &&
         persistent.internalFieldCount > 0 && persistent.internalField == this &&
         (weak <==> refs == 0))
    }

    /** The lifetime mode the state encodes. */
    function Mode(): (m: Lifetime)
      reads this
      ensures m == Finalized <==> destroyed
      ensures m == Unattached <==> !destroyed && persistent == null
      ensures m == Weak ==> weak && persistent != null
      ensures m == Strong ==> !weak && persistent != null
    {
      if destroyed then Finalized
      else if persistent == null then Unattached
      else if weak then Weak
      else Strong
    }

    /** A fresh wrapper: no references and an empty handle. */
    constructor ()
      ensures Valid() && Mode() == Unattached && refs == 0
    {
      refs := 0;
      persistent := null;
      weak := false;
      destroyed := false;
    }

    /** The destructor. An attached handle may only be torn down while the collector
        reports it near death (`nearDeath`), which it does only for a weak handle whose
        host object it is reclaiming; the handle is then cleared and reset. */
    method Destroy(nearDeath: bool)
      requires Valid() && !destroyed
      requires persistent != null ==> nearDeath && weak
      modifies this, persistent
      ensures Valid() && Mode() == Finalized
      ensures destroyed && persistent == null && !weak && refs == old(refs)
      ensures old(persistent) != null ==>
                old(refs) == 0 && old(persistent).collected && old(persistent).internalField == this
    {
      if persistent == null {
        destroyed := true;
        return;
      }
      persistent.collected := true;
      weak := false;        // ClearWeak
      persistent := null;   // Reset
      destroyed := true;
    }

    /** Resolves the native wrapper stored in internal field 0 of a non-empty handle
        to a host object that has not been collected. */
    static function Unwrap(handle: HostObject?): (w: ObjectWrap?)
      reads handle
      requires handle != null && !handle.collected && handle.internalFieldCount > 0
      ensures w == handle.internalField
    {
      handle.internalField
    }

    /** A local handle to the host object; changes no state. */
    method Handle() returns (h: HostObject?)
      requires !destroyed
      ensures h == persistent
    {
      h := persistent;
    }

    /** Attaches this wrapper to an unattached host object and makes the handle weak. */
    method Wrap(handle: HostObject)
      requires Valid() && !destroyed
      requires persistent == null
      requires !handle.collected && handle.internalFieldCount > 0
      modifies this, handle
      ensures Valid() && Mode() == Weak
      ensures persistent == handle && weak && refs == old(refs) == 0
      ensures Unwrap(handle) == this
    {
      handle.internalField := this;   // SetAlignedPointerInInternalField(0, this)
      persistent := handle;           // Reset(isolate, handle): a strong handle
      weak := false;
      MakeWeak();
    }

    /** Registers the weak callback on the (non-empty) handle. */
    method MakeWeak()
      requires !destroyed && persistent != null
      modifies this
      ensures weak
      ensures persistent == old(persistent) && refs == old(refs) && destroyed == old(destroyed)
    {
      weak := true;
    }

    /** Pins the object: the handle becomes strong and the count goes up by one. */
    method Ref()
      requires Valid() && !destroyed
      requires persistent != null
      modifies this
      ensures Valid() && Mode() == Strong
      ensures refs == old(refs) + 1 && !weak
      ensures persistent == old(persistent) && destroyed == old(destroyed)
    {
      weak := false;   // ClearWeak
      refs := refs + 1;
    }

    /** Unpins the object: the count goes down by one and the handle becomes weak
        again exactly when the count reaches zero. */
    method Unref()
      requires Valid() && !destroyed
      requires persistent != null
      requires !weak
      requires refs > 0
      modifies this
      ensures Valid()
      ensures refs == old(refs) - 1
      ensures weak <==> refs == 0
      ensures Mode() == if refs == 0 then Weak else Strong
      ensures persistent == old(persistent) && destroyed == old(destroyed)
    {
      refs := refs - 1;
      if refs == 0 {
        MakeWeak();
      }
    }

    /** The collector's finalization callback: only on a weak handle, only with no
        references, while it reclaims the host object; resets the handle and deletes
        the native object. */
    method WeakCallback()
      requires Valid() && !destroyed
      requires persistent != null && weak
      requires refs == 0
      modifies this, persistent
      ensures Valid() && Mode() == Finalized
      ensures destroyed && persistent == null && !weak && refs == 0
      ensures old(persistent).collected && old(persistent).internalField == this
    {
      persistent.collected := true;   // the collector reclaims the host object
      persistent := null;             // _handle.Reset()
      weak := false;
      Destroy(true);
    }
  }

  /** While attached, the handle is weak exactly when the count is zero, so the
      collector can only finalize an unpinned object and the count check in
      WeakCallback always holds. */
  lemma WeakIffUnpinned(w: ObjectWrap)
    requires w.Valid() && w.Mode() in {Weak, Strong}
    ensures w.Mode() == Weak <==> w.refs == 0
    ensures w.Mode() == Strong <==> w.refs > 0
  {
  }

  /** Unwrap of an attached wrapper's own handle gives back that wrapper. */
  lemma UnwrapOfHandle(w: ObjectWrap)
    requires w.Valid() && w.persistent != null
    ensures ObjectWrap.Unwrap(w.persistent) == w
  {
  }

  /** The protocol of the design end to end: attach, pin twice, unpin twice and let the
      collector finalize; finalization is only possible once the last pin is gone. */
  method PinTwiceThenFinalize(host: HostObject) returns (w: ObjectWrap)
    requires !host.collected && host.internalFieldCount > 0
    modifies host
    ensures fresh(w) && w.Valid() && w.Mode() == Finalized && w.refs == 0
    ensures host.collected && host.internalField == w
  {
    w := new ObjectWrap();
    w.Wrap(host);
    w.Ref();
    w.Ref();
    assert w.Mode() == Strong && w.refs == 2;
    w.Unref();
    assert w.Mode() == Strong;
    w.Unref();
    assert w.Mode() == Weak;
    w.WeakCallback();
  }
}
