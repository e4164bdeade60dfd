/** Poco/AutoPtr.h over Poco/RefCountedObject.h: who owns which reference of an object. */
module AutoPtrs {

  class RefCounted {
    var count: int
    var deleted: bool
    /** The AutoPtrs that point to the object, and how many references belong to nobody yet: that of
        whoever made the object, and those of callers of Duplicate. */
    ghost var owners: set<AutoPtr>
    ghost var loose: nat

    /** Every reference is accounted for, and the object goes with the last one. */
    ghost predicate Valid()
      reads this, owners
    {
      && count == |owners| + loose && (deleted <==> count == 0)
      && forall a :: a in owners ==> a.ptr == this
    }

    constructor ()
      ensures Valid() && !deleted && owners == {} && loose == 1
    {
      count, deleted := 1, false;
      owners, loose := {}, 1;
    }

    method Duplicate()
      requires Valid() && !deleted
      modifies `count, `loose
      ensures Valid() && !deleted && loose == old(loose) + 1
    {
      count, loose := count + 1, loose + 1;
    }

    method Release()
      requires Valid() && 0 < loose
      modifies `count, `deleted, `loose
      ensures Valid() && loose == old(loose) - 1
      ensures deleted <==> owners == {} && loose == 0
    {
      count, loose := count - 1, loose - 1;
      if count == 0 {
        deleted := true;
      }
    }

    /** A loose reference becomes that of a. */
    ghost method Adopt(a: AutoPtr)
      requires Valid() && 0 < loose && a !in owners && a.ptr == this
      modifies `owners, `loose
      ensures Valid() && owners == old(owners) + {a} && loose == old(loose) - 1
    {
      owners, loose := owners + {a}, loose - 1;
    }

    /** And the other way round. */
    ghost method Disown(a: AutoPtr)
      requires Valid() && a in owners
      modifies `owners, `loose
      ensures Valid() && owners == old(owners) - {a} && loose == old(loose) + 1
    {
      owners, loose := owners - {a}, loose + 1;
    }
  }

  /** As long as anything refers to an object it is not deleted; in particular two AutoPtrs to the same
      object make two references, so that one of them can release its own and take a new one. */
  lemma {:induction false} OwnersKeepAlive(p: RefCounted, owners: set<AutoPtr>)
    requires p.Valid() && owners <= p.owners
    ensures |owners| + p.loose <= p.count
    ensures owners != {} || 0 < p.loose ==> !p.deleted
    ensures p.deleted <==> p.owners == {} && p.loose == 0
  {
    var rest := p.owners - owners;
    assert p.owners == owners + rest;
  }

  class AutoPtr {
    var ptr: RefCounted?

    /** An AutoPtr that is not null owns one of the references of its object. */
    ghost predicate Valid()
      reads this, ptr, if ptr == null then {} else ptr.owners
    {
      ptr != null ==> this in ptr.owners && ptr.Valid()
    }

    /** Takes over a loose reference; with `shared` it takes a new one instead. */
    constructor (p: RefCounted?, shared: bool)
      requires p != null ==> p.Valid() && if shared then !p.deleted else 0 < p.loose
      modifies p
      ensures ptr == p && Valid()
      ensures p != null ==>
                && !p.deleted && p.owners == old(p.owners) + {this}
                && p.loose == old(p.loose) - if shared then 0 else 1
    {
      ptr := p;
      new;
      if ptr != null {
        if shared {
          ptr.Duplicate();
        }
        ptr.Adopt(this);
      }
    }

    constructor Copy(other: AutoPtr)
      requires other.Valid()
      modifies other.ptr
      ensures ptr == other.ptr && Valid() && other.Valid()
      ensures ptr != null ==> ptr.owners == old(other.ptr.owners) + {this} && ptr.loose == old(other.ptr.loose)
    {
      ptr := other.ptr;
      new;
      if ptr != null {
        OwnersKeepAlive(ptr, {other});
        ptr.Duplicate();
        ptr.Adopt(this);
      }
    }

    /** The destructor: no AutoPtr but this one loses its reference, and the object is deleted exactly if
        this was the last of all references. */
    method Drop()
      requires Valid()
      modifies ptr
      ensures ptr != null ==>
                && ptr.Valid() && ptr.owners == old(ptr.owners) - {this} && ptr.loose == old(ptr.loose)
                && (ptr.deleted <==> ptr.owners == {} && ptr.loose == 0)
      ensures ptr != null ==> forall a :: a in ptr.owners ==> a.Valid()
    {
      if ptr != null {
        ptr.Disown(this);
        ptr.Release();
      }
    }

    /** Assigning a bare pointer takes over a loose reference, unless the pointer is the one held. */
    method AssignPointer(p: RefCounted?, shared: bool)
      requires Valid() && (p != null && p != ptr ==> p.Valid() && if shared then !p.deleted else 0 < p.loose)
      modifies this, ptr, p
      ensures ptr == p && Valid()
      ensures old(ptr) == p && p != null ==> p.owners == old(p.owners) && p.loose == old(p.loose)
      ensures old(ptr) != p && old(ptr) != null ==>
                && old(ptr).Valid() && old(ptr).owners == old(ptr.owners) - {this} && old(ptr).loose == old(ptr.loose)
                && (old(ptr).deleted <==> old(ptr).owners == {} && old(ptr).loose == 0)
      ensures old(ptr) != p && p != null ==>
                && p.owners == old(p.owners) + {this}
                && p.loose == old(p.loose) - if shared then 0 else 1
    {
      if ptr != p {
        if ptr != null {
          ptr.Disown(this);
          ptr.Release();
        }
        ptr := p;
        if ptr != null {
          if shared {
            ptr.Duplicate();
          }
          ptr.Adopt(this);
        }
      }
    }

    /** Assigning another AutoPtr releases first and duplicates afterwards. That is safe also when both
        hold the same object: the reference of the other keeps it alive. */
    method Assign(other: AutoPtr)
      requires Valid() && other.Valid()
      modifies this, ptr, other.ptr
      ensures ptr == old(other.ptr) == other.ptr && Valid() && other.Valid()
      ensures old(ptr) == ptr && ptr != null ==>
                ptr.owners == old(ptr.owners) && ptr.loose == old(ptr.loose) && !ptr.deleted
      ensures old(ptr) != ptr && old(ptr) != null ==>
                && old(ptr).Valid() && old(ptr).owners == old(ptr.owners) - {this} && old(ptr).loose == old(ptr.loose)
                && (old(ptr).deleted <==> old(ptr).owners == {} && old(ptr).loose == 0)
      ensures old(ptr) != ptr && ptr != null ==>
                ptr.owners == old(other.ptr.owners) + {this} && ptr.loose == old(other.ptr.loose)
    {
      if other != this {
        if ptr != null {
          ptr.Disown(this);
          ptr.Release();
        }
        ptr := other.ptr;
        if ptr != null {
          OwnersKeepAlive(ptr, {other});
          ptr.Duplicate();
          ptr.Adopt(this);
        }
      } else if ptr != null {
        OwnersKeepAlive(ptr, {this});
      }
    }

    /** swap: the two exchange their references, and no count changes. */
    method SwapWith(other: AutoPtr)
      requires Valid() && other.Valid()
      modifies this, other, ptr, other.ptr
      ensures ptr == old(other.ptr) && other.ptr == old(ptr) && Valid() && other.Valid()
      ensures old(ptr) != null ==> old(ptr).count == old(ptr.count) && old(ptr).deleted == old(ptr.deleted)
      ensures ptr != null ==> ptr.count == old(other.ptr.count) && ptr.deleted == old(other.ptr.deleted)
    {
      if ptr == other.ptr {
        return;
      }
      ghost var p, q := ptr, other.ptr;
      if p != null {
        p.Disown(this);
      }
      if q != null {
        q.Disown(other);
      }
      ptr, other.ptr := other.ptr, ptr;
      if p != null {
        p.Adopt(other);
      }
      if q != null {
        q.Adopt(this);
      }
    }
  }
}
