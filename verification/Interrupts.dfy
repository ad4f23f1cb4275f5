/** Interrupt bookkeeping of fuse_lowlevel.c as steps under the library's lock: requests on a list,
    interrupts that arrive before their request is known, and the reference count and lock of each
    request.  Every method is one stretch of code that runs without giving up `f->lock` (or, where the
    request's own lock is held, one stretch between two such points). */
module Interrupts {

  import opened Options

  type Id = nat      // identity of a request object, never reused
  type Func = nat    // a registered callback

  datatype Req = Req(unique: nat, ctr: int, interrupted: bool, func: Option<Func>, owned: bool)

  // An interrupt request kept on f->interrupts, and the request it is about.
  datatype Parked = Parked(id: Id, target: nat)

  // Where the handling of an interrupt request that found its target stands.
  datatype Phase = Found(req: Id) | Calling(req: Id, func: Option<Func>) | Called(req: Id)

  // Who holds a request's own lock: the thread that registers a callback, with the callback it is going
  // to call at once, or an interrupt being delivered.
  datatype Locker = Owner(call: Option<Func>) | Handler(id: Id)

  type Reqs = map<Id, Req>
  type Handlers = map<Id, Phase>

  // -------------------------------------------------------------------------
  // Invariants

  ghost function HandlersOn(handlers: Handlers, r: Id): set<Id> {
    set h | h in handlers && handlers[h].req == r
  }

  /** The count is exact: one for the owner, one for each interrupt being delivered; a request whose
      count is zero is only waiting to be destroyed. */
  ghost predicate CountOk(reqs: Reqs, handlers: Handlers, list: seq<Id>, r: Id)
    requires r in reqs
  {
    && reqs[r].ctr == (if reqs[r].owned then 1 else 0) + |HandlersOn(handlers, r)|
    && (r in list <==> reqs[r].owned)
  }

  /** An interrupt is delivered to a request that exists, and while it calls back it holds the
      request's lock. */
  ghost predicate HandlerOk(reqs: Reqs, handlers: Handlers, lockers: map<Id, Locker>, h: Id)
    requires h in handlers
  {
    var p := handlers[h];
    && p.req in reqs
    && (p.Calling? <==> p.req in lockers && lockers[p.req] == Handler(h))
    && (p.Calling? ==> reqs[p.req].interrupted && (reqs[p.req].func == p.func || reqs[p.req].func == None))
    && (p.Called? ==> reqs[p.req].interrupted)
  }

  /** Whenever a request's lock is free, a callback registered with an interrupted request has been
      called, no matter which came first. */
  ghost predicate Delivered(reqs: Reqs, lockers: map<Id, Locker>, called: set<(Id, Func)>, r: Id)
    requires r in reqs
  {
    r !in lockers && reqs[r].interrupted && reqs[r].func.Some? ==> (r, reqs[r].func.value) in called
  }

  /** The lock of a request is held for an interrupt that is calling back, or in order to register a
      callback, which is called if an interrupt came first. In the second case alone the request may
      have been answered, and even be gone. */
  ghost predicate LockerOk(reqs: Reqs, handlers: Handlers, lockers: map<Id, Locker>, r: Id)
    requires r in lockers
  {
    match lockers[r]
    case Owner(call) => r in reqs && reqs[r].interrupted && reqs[r].func.Some? ==> call == reqs[r].func
    case Handler(h) => r in reqs && h in handlers && handlers[h].req == r && handlers[h].Calling?
  }

  /** No request is both parked about and live; nothing is parked twice. */
  ghost predicate ParkedOk(reqs: Reqs, list: seq<Id>, parked: seq<Parked>) {
    && (forall i, j :: 0 <= i < j < |parked| ==> parked[i].target != parked[j].target && parked[i].id != parked[j].id)
    && (forall i, r :: 0 <= i < |parked| && r in list && r in reqs ==> reqs[r].unique != parked[i].target)
  }

  ghost predicate ListOk(reqs: Reqs, list: seq<Id>) {
    && (forall i, j :: 0 <= i < j < |list| ==> list[i] != list[j])
    && (forall r :: r in list ==> r in reqs)
    && (forall r, s :: r in list && s in list && r in reqs && s in reqs && r != s ==> reqs[r].unique != reqs[s].unique)
  }

  function ParkedIds(parked: seq<Parked>): set<Id> {
    set i | 0 <= i < |parked| :: parked[i].id
  }

  /** Every object is in one place: a request, an interrupt being delivered, parked or about to be
      answered, or destroyed. */
  ghost predicate OnePlace(reqs: Reqs, handlers: Handlers, parked: seq<Parked>, popped: set<Id>, destroyed: set<Id>) {
    reqs.Keys !! handlers.Keys !! ParkedIds(parked) !! popped !! destroyed
  }

  ghost predicate AllOk(reqs: Reqs, handlers: Handlers, list: seq<Id>, lockers: map<Id, Locker>,
                        called: set<(Id, Func)>) {
    && (forall r {:trigger CountOk(reqs, handlers, list, r)} :: r in reqs ==> CountOk(reqs, handlers, list, r))
    && (forall h {:trigger HandlerOk(reqs, handlers, lockers, h)} :: h in handlers ==>
          HandlerOk(reqs, handlers, lockers, h))
    && (forall r {:trigger Delivered(reqs, lockers, called, r)} :: r in reqs ==> Delivered(reqs, lockers, called, r))
    && (forall r {:trigger LockerOk(reqs, handlers, lockers, r)} :: r in lockers ==>
          LockerOk(reqs, handlers, lockers, r))
  }

  lemma AddHandler(handlers: Handlers, h: Id, p: Phase, r: Id)
    requires h !in handlers
    ensures |HandlersOn(handlers[h := p], r)| == |HandlersOn(handlers, r)| + (if p.req == r then 1 else 0)
  {
    if p.req == r {
      assert HandlersOn(handlers[h := p], r) == HandlersOn(handlers, r) + {h};
    } else {
      assert HandlersOn(handlers[h := p], r) == HandlersOn(handlers, r);
    }
  }

  lemma MoveHandler(handlers: Handlers, h: Id, p: Phase, r: Id)
    requires h in handlers && p.req == handlers[h].req
    ensures |HandlersOn(handlers[h := p], r)| == |HandlersOn(handlers, r)|
  {
    assert HandlersOn(handlers[h := p], r) == HandlersOn(handlers, r);
  }

  lemma RemoveHandler(handlers: Handlers, h: Id, r: Id)
    requires h in handlers
    ensures |HandlersOn(handlers - {h}, r)| == |HandlersOn(handlers, r)| - (if handlers[h].req == r then 1 else 0)
  {
    var less := handlers - {h};
    assert handlers == less[h := handlers[h]];
    AddHandler(less, h, handlers[h], r);
  }

  lemma NoHandlers(handlers: Handlers, r: Id)
    requires |HandlersOn(handlers, r)| == 0
    ensures forall h :: h in handlers ==> handlers[h].req != r
  {
    forall h | h in handlers ensures handlers[h].req != r {
      assert h !in HandlersOn(handlers, r);
    }
  }

  class LowLevel {
    var list: seq<Id>                  // f->list
    var parked: seq<Parked>            // f->interrupts
    var reqs: Reqs                     // the request objects
    var handlers: Handlers             // the interrupts being delivered
    var lockers: map<Id, Locker>       // the request locks that are held
    var popped: set<Id>                // interrupts taken off the list to be answered with EAGAIN
    ghost var called: set<(Id, Func)>  // the callbacks called so far
    ghost var destroyed: set<Id>

    ghost predicate Valid()
      reads this
    {
      && ListOk(reqs, list) && ParkedOk(reqs, list, parked)
      && OnePlace(reqs, handlers, parked, popped, destroyed)
      && AllOk(reqs, handlers, list, lockers, called)
      && forall r :: r in lockers ==> r in reqs || r in destroyed
    }

    /** No lock is held that has been destroyed with its request; to unlock such a lock is an error. */
    ghost predicate Safe()
      reads this
    {
      forall r :: r in lockers ==> r in reqs
    }

    /** Nobody has answered a request whose lock is held in order to register a callback. */
    ghost predicate Polite()
      reads this
    {
      forall r :: r in lockers && lockers[r].Owner? ==> r in reqs && reqs[r].owned
    }

    /** An identity that no object has or had. */
    ghost predicate New(id: Id)
      reads this
    {
      id !in reqs && id !in handlers && id !in ParkedIds(parked) && id !in popped && id !in destroyed
    }

    constructor ()
      ensures Valid() && Safe() && Polite() && list == [] && parked == [] && reqs == map[] && handlers == map[]
      ensures lockers == map[] && popped == {} && called == {} && destroyed == {}
    {
      list, parked, reqs, handlers, lockers, popped, called, destroyed := [], [], map[], map[], map[], {}, {}, {};
    }

    /** Destroying an object happens once. */
    ghost method Destroy(id: Id)
      requires id !in destroyed
      modifies this`destroyed
      ensures destroyed == old(destroyed) + {id}
    {
      destroyed := destroyed + {id};
    }

    // -----------------------------------------------------------------------
    // A request arrives

    /** check_interrupt and list_add_req, in fuse_ll_process_buf. A parked interrupt about this
        request is used up; otherwise the oldest parked one is taken off to be answered. */
    method Arrive(id: Id, unique: nat) returns (intr: Option<Id>)
      requires Valid() && New(id)
      requires forall r :: r in list && r in reqs ==> reqs[r].unique != unique
      modifies this
      ensures Valid() && list == old(list) + [id] && handlers == old(handlers) && lockers == old(lockers) &&
        called == old(called)
      ensures id in reqs && reqs == old(reqs)[id := Req(unique, 1, reqs[id].interrupted, None, true)]
      ensures ParkedIds(parked) + popped + destroyed == old(ParkedIds(parked) + popped + destroyed)
      ensures reqs[id].interrupted <==> exists i :: 0 <= i < |old(parked)| && old(parked)[i].target == unique
      ensures forall i :: 0 <= i < |parked| ==> parked[i].target != unique
      ensures intr.Some? <==> old(parked) != [] && !reqs[id].interrupted
      ensures intr.Some? ==>
        intr.value == old(parked)[0].id && popped == old(popped) + {intr.value} && parked == old(parked)[1..]
      ensures reqs[id].interrupted ==> |parked| == |old(parked)| - 1 && destroyed > old(destroyed)
      ensures (old(Safe()) ==> Safe()) && (old(Polite()) ==> Polite())
    {
      hide AllOk, ListOk, ParkedOk;
      var interrupted;
      interrupted, intr := CheckInterrupt(unique);
      ghost var wasReqs, wasList := reqs, list;
      reqs := reqs[id := Req(unique, 1, interrupted, None, true)];
      list := list + [id];
      ListGrows(wasReqs, reqs, wasList, parked, id);
      ArriveKeeps(wasReqs, reqs, handlers, wasList, list, lockers, called, id);
    }

    /** The searches along the two lists. */
    method FindLive(target: nat) returns (i: nat)
      requires ListOk(reqs, list)
      ensures i <= |list| && (forall j :: 0 <= j < i ==> reqs[list[j]].unique != target)
      ensures i < |list| ==> reqs[list[i]].unique == target
    {
      i := 0;
      while i < |list| && reqs[list[i]].unique != target
        invariant 0 <= i <= |list| && forall j :: 0 <= j < i ==> reqs[list[j]].unique != target
      {
        i := i + 1;
      }
    }

    method FindParked(target: nat) returns (i: nat)
      ensures i <= |parked| && (forall j :: 0 <= j < i ==> parked[j].target != target)
      ensures i < |parked| ==> parked[i].target == target
    {
      i := 0;
      while i < |parked| && parked[i].target != target
        invariant 0 <= i <= |parked| && forall j :: 0 <= j < i ==> parked[j].target != target
      {
        i := i + 1;
      }
    }

    /** check_interrupt. */
    method CheckInterrupt(unique: nat) returns (interrupted: bool, intr: Option<Id>)
      requires Valid()
      modifies this`parked, this`popped, this`destroyed
      ensures Valid() && ParkedIds(parked) + popped + destroyed == old(ParkedIds(parked) + popped + destroyed)
      ensures interrupted <==> exists i :: 0 <= i < |old(parked)| && old(parked)[i].target == unique
      ensures forall i :: 0 <= i < |parked| ==> parked[i].target != unique
      ensures intr.Some? <==> old(parked) != [] && !interrupted
      ensures intr.Some? ==>
        intr.value == old(parked)[0].id && popped == old(popped) + {intr.value} && parked == old(parked)[1..]
      ensures interrupted ==> |parked| == |old(parked)| - 1 && destroyed > old(destroyed)
      ensures (old(Safe()) ==> Safe()) && (old(Polite()) ==> Polite())
    {
      hide AllOk, ListOk, ParkedOk, OnePlace, ParkedIds;
      var i := FindParked(unique);
      intr := None;
      interrupted := i < |parked|;
      if interrupted {
        ParkedTaken(reqs, handlers, list, parked, popped, destroyed, i);
        Destroy(parked[i].id);
        parked := parked[..i] + parked[i + 1..];
      } else if parked != [] {
        ParkedTaken(reqs, handlers, list, parked, popped, destroyed, 0);
        assert parked[..0] + parked[1..] == parked[1..];
        intr := Some(parked[0].id);
        popped := popped + {parked[0].id};
        parked := parked[1..];
      }
    }

    /** fuse_reply_err(intr, EAGAIN) for an interrupt that was taken off the list. */
    method AnswerPopped(id: Id)
      requires Valid() && id in popped
      modifies this`popped, this`destroyed
      ensures Valid() && popped == old(popped) - {id} && destroyed == old(destroyed) + {id}
      ensures (old(Safe()) ==> Safe()) && (old(Polite()) ==> Polite())
    {
      popped := popped - {id};
      Destroy(id);
    }

    // -----------------------------------------------------------------------
    // An interrupt arrives

    /** do_interrupt, up to the point where find_interrupted gives up the lock: the interrupt found its
        request, or is a duplicate of a parked one and is destroyed, or is parked. */
    method Interrupt(id: Id, target: nat) returns (found: bool)
      requires Valid() && New(id)
      modifies this
      ensures Valid() && list == old(list) && lockers == old(lockers) && called == old(called)
      ensures found <==> exists r :: r in list && r in old(reqs) && old(reqs)[r].unique == target
      ensures found ==> id in handlers && handlers == old(handlers)[id := handlers[id]] && handlers[id].Found?
      ensures found ==>
        handlers[id].req in list && handlers[id].req in old(reqs) && old(reqs)[handlers[id].req].unique == target
      ensures found ==> var r := handlers[id].req;
        parked == old(parked) && reqs == old(reqs)[r := old(reqs)[r].(ctr := old(reqs)[r].ctr + 1)]
      ensures !found ==>
        reqs == old(reqs) && handlers == old(handlers) && exists i :: 0 <= i < |parked| && parked[i].target == target
      ensures popped == old(popped) && (found ==> destroyed == old(destroyed))
      ensures !found ==> if exists i :: 0 <= i < |old(parked)| && old(parked)[i].target == target
                         then parked == old(parked) && destroyed == old(destroyed) + {id}
                         else parked == old(parked) + [Parked(id, target)] && destroyed == old(destroyed)
      ensures (old(Safe()) ==> Safe()) && (old(Polite()) ==> Polite())
    {
      hide AllOk, ParkedOk, OnePlace;
      var i := FindLive(target);
      found := i < |list|;
      if found {
        Reference(id, list[i]);
      } else {
        Park(id, target);
      }
    }

    /** An interrupt that found its request takes a reference on it. */
    method Reference(id: Id, r: Id)
      requires Valid() && New(id) && r in list
      modifies this`reqs, this`handlers
      ensures Valid() && r in old(reqs) && reqs == old(reqs)[r := old(reqs)[r].(ctr := old(reqs)[r].ctr + 1)]
      ensures handlers == old(handlers)[id := Found(r)]
      ensures (old(Safe()) ==> Safe()) && (old(Polite()) ==> Polite())
    {
      hide AllOk;
      FoundKeeps(reqs, handlers, list, lockers, called, r, id);
      ListsKept(reqs, reqs[r := reqs[r].(ctr := reqs[r].ctr + 1)], list, parked);
      reqs := reqs[r := reqs[r].(ctr := reqs[r].ctr + 1)];
      handlers := handlers[id := Found(r)];
    }

    /** An interrupt whose request is not known: a duplicate of a parked one is destroyed, others are
        parked. */
    method Park(id: Id, target: nat)
      requires Valid() && New(id) && forall r :: r in list && r in reqs ==> reqs[r].unique != target
      modifies this`parked, this`destroyed
      ensures Valid() && exists i :: 0 <= i < |parked| && parked[i].target == target
      ensures if exists i :: 0 <= i < |old(parked)| && old(parked)[i].target == target
              then parked == old(parked) && destroyed == old(destroyed) + {id}
              else parked == old(parked) + [Parked(id, target)] && destroyed == old(destroyed)
      ensures (old(Safe()) ==> Safe()) && (old(Polite()) ==> Polite())
    {
      hide AllOk, ListOk;
      var i := FindParked(target);
      if i < |parked| {
        Destroy(id);
      } else {
        ParkedAdded(parked, Parked(id, target));
        parked := parked + [Parked(id, target)];
        assert parked[|parked| - 1].target == target;
      }
    }

    /** find_interrupted, with the request's lock and f->lock both held: mark the request and fetch its
        callback. The request's lock must be free, or the handler waits. */
    method HandlerMark(h: Id)
      requires Valid() && h in handlers && handlers[h].Found? && handlers[h].req !in lockers
      modifies this`reqs, this`handlers, this`lockers
      ensures Valid() && old(handlers)[h].req in old(reqs)
      ensures handlers == old(handlers)[h := Calling(old(handlers)[h].req, old(reqs)[old(handlers)[h].req].func)]
      ensures var r := old(handlers)[h].req;
        reqs == old(reqs)[r := old(reqs)[r].(interrupted := true)] && lockers == old(lockers)[r := Handler(h)]
      ensures (old(Safe()) ==> Safe()) && (old(Polite()) ==> Polite())
    {
      assert HandlerOk(reqs, handlers, lockers, h);
      var r := handlers[h].req;
      MarkKeeps(reqs, handlers, list, lockers, called, r, h);
      handlers := handlers[h := Calling(r, reqs[r].func)];
      reqs := reqs[r := reqs[r].(interrupted := true)];
      lockers := lockers[r := Handler(h)];
    }

    /** The callback runs and the request's lock is released. */
    method HandlerCall(h: Id)
      requires Valid() && h in handlers && handlers[h].Calling?
      modifies this`handlers, this`lockers, this`called
      ensures Valid() && handlers == old(handlers)[h := Called(old(handlers)[h].req)] &&
        lockers == old(lockers) - {old(handlers)[h].req}
      ensures var r := old(handlers)[h].req;
        called == old(called) + (match old(handlers)[h].func case None => {} case Some(f) => {(r, f)})
      ensures (old(Safe()) ==> Safe()) && (old(Polite()) ==> Polite())
    {
      var r, func := handlers[h].req, handlers[h].func;
      assert HandlerOk(reqs, handlers, lockers, h);
      CallKeeps(reqs, handlers, list, lockers, called, r, h);
      if func.Some? {
        called := called + {(r, func.value)};
      }
      handlers := handlers[h := Called(r)];
      lockers := lockers - {r};
    }

    /** The end of find_interrupted and of do_interrupt: the last reference destroys the request, and
        the interrupt request itself is destroyed. */
    method HandlerDone(h: Id)
      requires Valid() && h in handlers && handlers[h].Called?
      modifies this`handlers, this`reqs, this`destroyed
      ensures Valid() && handlers == old(handlers) - {h}
      ensures old(handlers)[h].req in old(reqs) && old(reqs)[old(handlers)[h].req].interrupted
      ensures var r := old(handlers)[h].req;
        if old(reqs)[r].ctr == 1 then reqs == old(reqs) - {r} && destroyed == old(destroyed) + {r, h}
        else reqs == old(reqs)[r := old(reqs)[r].(ctr := old(reqs)[r].ctr - 1)] && destroyed == old(destroyed) + {h}
      ensures old(Polite()) ==> Polite()
      ensures var r := old(handlers)[h].req; old(Safe()) ==> (Safe() <==> !(old(reqs)[r].ctr == 1 && r in lockers))
      ensures var r := old(handlers)[h].req; old(Polite()) && old(reqs)[r].ctr == 1 ==> r !in lockers
    {
      hide AllOk, ListOk, ParkedOk, OnePlace;
      var r := handlers[h].req;
      DropReference(h);
      if reqs[r].ctr == 0 {
        DestroyReq(r);
      }
    }

    /** The interrupt request goes, and with it its reference. */
    method DropReference(h: Id)
      requires Valid() && h in handlers && handlers[h].Called?
      modifies this`handlers, this`reqs, this`destroyed
      ensures Valid() && handlers == old(handlers) - {h} && destroyed == old(destroyed) + {h}
      ensures var r := old(handlers)[h].req;
        && r in old(reqs) && old(reqs)[r].interrupted
        && reqs == old(reqs)[r := old(reqs)[r].(ctr := old(reqs)[r].ctr - 1)]
      ensures (old(Safe()) ==> Safe()) && (old(Polite()) ==> Polite())
    {
      hide AllOk, ListOk, ParkedOk, ParkedIds;
      ghost var was := reqs;
      var r := handlers[h].req;
      CalledOk(reqs, handlers, list, lockers, called, h);
      DoneKeeps(reqs, handlers, list, lockers, called, r, h);
      handlers := handlers - {h};
      reqs := reqs[r := reqs[r].(ctr := reqs[r].ctr - 1)];
      ListsKept(was, reqs, list, parked);
      Destroy(h);
    }

    // -----------------------------------------------------------------------
    // The file system's side

    /** fuse_req_interrupt_func, with both locks held. Whether the callback is to be called at once cannot
        change any more while the request's lock is held. */
    method Register(r: Id, func: Option<Func>)
      requires Valid() && r in reqs && reqs[r].owned && r !in lockers
      modifies this`reqs, this`lockers
      ensures Valid() && reqs == old(reqs)[r := old(reqs)[r].(func := func)]
      ensures lockers == old(lockers)[r := Owner(if old(reqs)[r].interrupted then func else None)]
      ensures (old(Safe()) ==> Safe()) && (old(Polite()) ==> Polite())
    {
      RegisterKeeps(reqs, handlers, list, lockers, called, r, func);
      reqs := reqs[r := reqs[r].(func := func)];
      lockers := lockers[r := Owner(if reqs[r].interrupted then func else None)];
    }

    /** ... and its end: an interrupt that came first has been delivered, and the lock is released. */
    method RegisterCall(r: Id)
      requires Valid() && r in lockers && lockers[r].Owner?
      modifies this`lockers, this`called
      ensures Valid() && lockers == old(lockers) - {r}
      ensures called == old(called) + (match old(lockers)[r].call case None => {} case Some(f) => {(r, f)})
      ensures (old(Safe()) ==> Safe() && r in reqs) && (old(Polite()) ==> Polite())
    {
      RegisteredKeeps(reqs, handlers, list, lockers, called, r);
      assert called + {} == called;
      if lockers[r].call.Some? {
        called := called + {(r, lockers[r].call.value)};
      }
      lockers := lockers - {r};
    }

    /** list_del_req. */
    method ListDelReq(r: Id)
      requires ListOk(reqs, list) && r in list
      modifies this`list
      ensures ListOk(reqs, list) && r !in list && (forall s :: s != r ==> (s in list <==> s in old(list)))
    {
      var i := 0;
      while list[i] != r
        invariant 0 <= i < |list| && forall j :: 0 <= j < i ==> list[j] != r
        decreases |list| - i
      {
        i := i + 1;
      }
      Unlisted(list, i);
      list := list[..i] + list[i + 1..];
    }

    /** fuse_free_req, after the reply: off the list, no more callbacks, one reference less. A reply while
        the request's lock is held to register a callback takes the last reference from under that lock,
        unless an interrupt is still being delivered. */
    method FreeReq(r: Id) returns (last: bool)
      requires Valid() && r in reqs && reqs[r].owned
      modifies this`list, this`reqs
      ensures Valid() && r !in list && (forall s :: s != r ==> (s in list <==> s in old(list)))
      ensures reqs == old(reqs)[r := old(reqs)[r].(func := None, owned := false, ctr := old(reqs)[r].ctr - 1)]
      ensures last <==> reqs[r].ctr == 0
      ensures last <==> forall h :: h in handlers ==> handlers[h].req != r
      ensures last && r in lockers <==>
        r in lockers && lockers[r].Owner? && forall h :: h in handlers ==> handlers[h].req != r
      ensures old(Safe()) ==> Safe()
      ensures old(Polite()) ==> (Polite() <==> !(r in lockers && lockers[r].Owner?))
    {
      assert CountOk(reqs, handlers, list, r);
      ghost var wasList := list;
      ListDelReq(r);
      hide AllOk;
      FreeKeeps(reqs, handlers, wasList, list, lockers, called, r);
      reqs := reqs[r := reqs[r].(func := None, owned := false, ctr := reqs[r].ctr - 1)];
      last := reqs[r].ctr == 0;
      if last {
        NoHandlers(handlers, r);
      } else if h :| h in HandlersOn(handlers, r) {
        assert handlers[h].req == r;
      }
      LockedByWhom(reqs, handlers, list, lockers, called, r);
    }

    /** The end of fuse_free_req when the count reached zero. */
    method DestroyReq(r: Id)
      requires Valid() && r in reqs && reqs[r].ctr == 0
      modifies this`reqs, this`destroyed
      ensures Valid() && reqs == old(reqs) - {r} && destroyed == old(destroyed) + {r} && r !in list
      ensures forall h :: h in handlers ==> handlers[h].req != r
      ensures old(Safe()) ==> (Safe() <==> r !in lockers)
      ensures old(Polite()) ==> Polite() && r !in lockers
    {
      hide AllOk, ListOk, ParkedOk, ParkedIds;
      UnreferencedGoes(reqs, handlers, list, lockers, called, r);
      ListsKept(reqs, reqs - {r}, list, parked);
      reqs := reqs - {r};
      Destroy(r);
    }
  }

  lemma CalledOk(reqs: Reqs, handlers: Handlers, list: seq<Id>, lockers: map<Id, Locker>, called: set<(Id, Func)>,
                 h: Id)
    requires AllOk(reqs, handlers, list, lockers, called) && h in handlers && handlers[h].Called?
    ensures handlers[h].req in reqs && reqs[handlers[h].req].interrupted
  {
    assert HandlerOk(reqs, handlers, lockers, h);
  }

  /** The lists look at nothing but the ids of the requests on them. */
  lemma ListsKept(reqs: Reqs, reqs': Reqs, list: seq<Id>, parked: seq<Parked>)
    requires ListOk(reqs, list) && ParkedOk(reqs, list, parked)
    requires forall s :: s in list && s in reqs ==> s in reqs' && reqs'[s].unique == reqs[s].unique
    ensures ListOk(reqs', list) && ParkedOk(reqs', list, parked)
  {
  }

  /** A new request joins the list, with an id that is neither live nor parked about. */
  lemma ListGrows(reqs: Reqs, reqs': Reqs, list: seq<Id>, parked: seq<Parked>, id: Id)
    requires ListOk(reqs, list) && ParkedOk(reqs, list, parked) && id !in reqs
    requires id in reqs' && reqs' == reqs[id := reqs'[id]]
    requires forall r :: r in list && r in reqs ==> reqs[r].unique != reqs'[id].unique
    requires forall i :: 0 <= i < |parked| ==> parked[i].target != reqs'[id].unique
    ensures ListOk(reqs', list + [id]) && ParkedOk(reqs', list + [id], parked)
  {
  }

  lemma ParkedRemoved(parked: seq<Parked>, i: nat)
    requires i < |parked| && forall i, j :: 0 <= i < j < |parked| ==>
      parked[i].target != parked[j].target && parked[i].id != parked[j].id
    ensures var less := parked[..i] + parked[i + 1..];
      && ParkedIds(less) == ParkedIds(parked) - {parked[i].id} && parked[i].id in ParkedIds(parked)
      && (forall j :: 0 <= j < |less| ==> less[j].target != parked[i].target && less[j] in parked)
      && (forall j, k :: 0 <= j < k < |less| ==> less[j].target != less[k].target && less[j].id != less[k].id)
  {
    var less := parked[..i] + parked[i + 1..];
    assert forall j :: 0 <= j < |less| ==> less[j] == parked[if j < i then j else j + 1];
    forall x ensures x in ParkedIds(less) <==> x in ParkedIds(parked) - {parked[i].id} {
      if x in ParkedIds(parked) && x != parked[i].id {
        var j :| 0 <= j < |parked| && parked[j].id == x;
        assert less[if j < i then j else j - 1].id == x;
      }
    }
  }

  /** An interrupt taken off the list leaves the other parked ones in order, and itself either waits to
      be answered or is destroyed. */
  lemma ParkedTaken(reqs: Reqs, handlers: Handlers, list: seq<Id>, parked: seq<Parked>, popped: set<Id>,
                    destroyed: set<Id>, i: nat)
    requires i < |parked| && ParkedOk(reqs, list, parked) && OnePlace(reqs, handlers, parked, popped, destroyed)
    ensures var id, less := parked[i].id, parked[..i] + parked[i + 1..];
      && ParkedOk(reqs, list, less) && id !in destroyed && |less| == |parked| - 1
      && (forall j :: 0 <= j < |less| ==> less[j].target != parked[i].target && less[j] in parked)
      && OnePlace(reqs, handlers, less, popped + {id}, destroyed)
      && OnePlace(reqs, handlers, less, popped, destroyed + {id})
      && ParkedIds(less) + {id} == ParkedIds(parked)
  {
    ParkedRemoved(parked, i);
  }

  lemma ArriveKeeps(reqs: Reqs, reqs': Reqs, handlers: Handlers, list: seq<Id>, list': seq<Id>,
                    lockers: map<Id, Locker>, called: set<(Id, Func)>, id: Id)
    requires AllOk(reqs, handlers, list, lockers, called) && id !in reqs
    requires list' == list + [id] && id in reqs' && reqs' == reqs[id := reqs'[id]]
    requires reqs'[id].ctr == 1 && reqs'[id].owned && reqs'[id].func == None
    ensures AllOk(reqs', handlers, list', lockers, called)
  {
    assert HandlersOn(handlers, id) == {} by {
      forall h | h in handlers ensures handlers[h].req != id { assert HandlerOk(reqs, handlers, lockers, h); }
    }
    forall r | r in reqs' ensures CountOk(reqs', handlers, list', r) && Delivered(reqs', lockers, called, r) {
      if r != id { assert CountOk(reqs, handlers, list, r) && Delivered(reqs, lockers, called, r); }
    }
    forall h | h in handlers ensures HandlerOk(reqs', handlers, lockers, h) {
      assert HandlerOk(reqs, handlers, lockers, h);
    }
    forall r | r in lockers ensures LockerOk(reqs', handlers, lockers, r) {
      assert LockerOk(reqs, handlers, lockers, r);
    }
  }

  lemma ParkedAdded(parked: seq<Parked>, p: Parked)
    ensures ParkedIds(parked + [p]) == ParkedIds(parked) + {p.id}
  {
    var more := parked + [p];
    forall x ensures x in ParkedIds(more) <==> x in ParkedIds(parked) + {p.id} {
      if x in ParkedIds(parked) {
        var j :| 0 <= j < |parked| && parked[j].id == x;
        assert more[j].id == x;
      }
      if x == p.id { assert more[|parked|].id == x; }
      if x in ParkedIds(more) {
        var j :| 0 <= j < |more| && more[j].id == x;
        assert j < |parked| ==> parked[j].id == x;
      }
    }
  }

  lemma FoundKeeps(reqs: Reqs, handlers: Handlers, list: seq<Id>, lockers: map<Id, Locker>, called: set<(Id, Func)>,
                   r: Id, h: Id)
    requires AllOk(reqs, handlers, list, lockers, called) && r in reqs && h !in handlers
    ensures AllOk(reqs[r := reqs[r].(ctr := reqs[r].ctr + 1)], handlers[h := Found(r)], list, lockers, called)
  {
    var reqs', handlers' := reqs[r := reqs[r].(ctr := reqs[r].ctr + 1)], handlers[h := Found(r)];
    forall s | s in reqs' ensures CountOk(reqs', handlers', list, s) && Delivered(reqs', lockers, called, s) {
      assert CountOk(reqs, handlers, list, s) && Delivered(reqs, lockers, called, s);
      AddHandler(handlers, h, Found(r), s);
    }
    forall k | k in handlers' ensures HandlerOk(reqs', handlers', lockers, k) {
      if k != h {
        assert HandlerOk(reqs, handlers, lockers, k);
      } else if r in lockers {
        assert LockerOk(reqs, handlers, lockers, r);
      }
    }
    forall s | s in lockers ensures LockerOk(reqs', handlers', lockers, s) {
      assert LockerOk(reqs, handlers, lockers, s);
    }
  }

  lemma MarkKeeps(reqs: Reqs, handlers: Handlers, list: seq<Id>, lockers: map<Id, Locker>, called: set<(Id, Func)>,
                  r: Id, h: Id)
    requires AllOk(reqs, handlers, list, lockers, called) && h in handlers && handlers[h] == Found(r) && r in reqs &&
      r !in lockers
    ensures AllOk(reqs[r := reqs[r].(interrupted := true)], handlers[h := Calling(r, reqs[r].func)], list,
                  lockers[r := Handler(h)], called)
  {
    var reqs', lockers' := reqs[r := reqs[r].(interrupted := true)], lockers[r := Handler(h)];
    var handlers' := handlers[h := Calling(r, reqs[r].func)];
    forall s | s in reqs' ensures CountOk(reqs', handlers', list, s) && Delivered(reqs', lockers', called, s) {
      assert CountOk(reqs, handlers, list, s) && Delivered(reqs, lockers, called, s);
      MoveHandler(handlers, h, Calling(r, reqs[r].func), s);
    }
    forall k | k in handlers' ensures HandlerOk(reqs', handlers', lockers', k) {
      assert HandlerOk(reqs, handlers, lockers, k);
    }
    forall s | s in lockers' ensures LockerOk(reqs', handlers', lockers', s) {
      if s != r { assert LockerOk(reqs, handlers, lockers, s); }
    }
  }

  lemma CallKeeps(reqs: Reqs, handlers: Handlers, list: seq<Id>, lockers: map<Id, Locker>, called: set<(Id, Func)>,
                  r: Id, h: Id)
    requires AllOk(reqs, handlers, list, lockers, called) && h in handlers && handlers[h].Calling? &&
      handlers[h].req == r
    ensures var called' := called + (match handlers[h].func case None => {} case Some(f) => {(r, f)});
      AllOk(reqs, handlers[h := Called(r)], list, lockers - {r}, called')
  {
    var handlers', lockers' := handlers[h := Called(r)], lockers - {r};
    var called' := called + (match handlers[h].func case None => {} case Some(f) => {(r, f)});
    assert HandlerOk(reqs, handlers, lockers, h);
    forall s | s in reqs ensures CountOk(reqs, handlers', list, s) && Delivered(reqs, lockers', called', s) {
      assert CountOk(reqs, handlers, list, s) && Delivered(reqs, lockers, called, s);
      MoveHandler(handlers, h, Called(r), s);
    }
    forall k | k in handlers' ensures HandlerOk(reqs, handlers', lockers', k) {
      assert HandlerOk(reqs, handlers, lockers, k);
    }
    forall s | s in lockers' ensures LockerOk(reqs, handlers', lockers', s) {
      assert LockerOk(reqs, handlers, lockers, s);
    }
  }

  lemma DoneKeeps(reqs: Reqs, handlers: Handlers, list: seq<Id>, lockers: map<Id, Locker>, called: set<(Id, Func)>,
                  r: Id, h: Id)
    requires AllOk(reqs, handlers, list, lockers, called) && h in handlers && handlers[h] == Called(r)
    ensures r in reqs && AllOk(reqs[r := reqs[r].(ctr := reqs[r].ctr - 1)], handlers - {h}, list, lockers, called)
  {
    assert HandlerOk(reqs, handlers, lockers, h);
    var reqs', handlers' := reqs[r := reqs[r].(ctr := reqs[r].ctr - 1)], handlers - {h};
    forall s | s in reqs' ensures CountOk(reqs', handlers', list, s) && Delivered(reqs', lockers, called, s) {
      assert CountOk(reqs, handlers, list, s) && Delivered(reqs, lockers, called, s);
      RemoveHandler(handlers, h, s);
    }
    forall k | k in handlers' ensures HandlerOk(reqs', handlers', lockers, k) {
      assert HandlerOk(reqs, handlers, lockers, k);
    }
    forall s | s in lockers ensures LockerOk(reqs', handlers', lockers, s) {
      assert LockerOk(reqs, handlers, lockers, s);
    }
  }

  /** A request without references is off the list and no interrupt is being delivered to it; its lock
      is free or held to register a callback. */
  lemma UnreferencedGoes(reqs: Reqs, handlers: Handlers, list: seq<Id>, lockers: map<Id, Locker>,
                         called: set<(Id, Func)>, r: Id)
    requires AllOk(reqs, handlers, list, lockers, called) && r in reqs && reqs[r].ctr == 0
    ensures r !in list && !reqs[r].owned && (r in lockers ==> lockers[r].Owner?)
    ensures forall h :: h in handlers ==> handlers[h].req != r
    ensures AllOk(reqs - {r}, handlers, list, lockers, called)
  {
    var reqs' := reqs - {r};
    assert CountOk(reqs, handlers, list, r);
    NoHandlers(handlers, r);
    assert r in lockers ==> LockerOk(reqs, handlers, lockers, r);
    forall s | s in reqs' ensures CountOk(reqs', handlers, list, s) && Delivered(reqs', lockers, called, s) {
      assert CountOk(reqs, handlers, list, s) && Delivered(reqs, lockers, called, s);
    }
    forall k | k in handlers ensures HandlerOk(reqs', handlers, lockers, k) {
      assert HandlerOk(reqs, handlers, lockers, k);
    }
    forall s | s in lockers ensures LockerOk(reqs', handlers, lockers, s) {
      assert LockerOk(reqs, handlers, lockers, s);
    }
  }

  /** An interrupt that holds a request's lock is being delivered to it. */
  lemma LockedByWhom(reqs: Reqs, handlers: Handlers, list: seq<Id>, lockers: map<Id, Locker>,
                     called: set<(Id, Func)>, r: Id)
    requires AllOk(reqs, handlers, list, lockers, called)
    ensures r in lockers && !lockers[r].Owner? ==> lockers[r].id in handlers && handlers[lockers[r].id].req == r
  {
    assert r in lockers ==> LockerOk(reqs, handlers, lockers, r);
  }

  lemma RegisterKeeps(reqs: Reqs, handlers: Handlers, list: seq<Id>, lockers: map<Id, Locker>, called: set<(Id, Func)>,
                      r: Id, func: Option<Func>)
    requires AllOk(reqs, handlers, list, lockers, called) && r in reqs && reqs[r].owned && r !in lockers
    ensures AllOk(reqs[r := reqs[r].(func := func)], handlers, list,
                  lockers[r := Owner(if reqs[r].interrupted then func else None)], called)
  {
    var reqs' := reqs[r := reqs[r].(func := func)];
    var lockers' := lockers[r := Owner(if reqs[r].interrupted then func else None)];
    forall s | s in reqs' ensures CountOk(reqs', handlers, list, s) && Delivered(reqs', lockers', called, s) {
      assert CountOk(reqs, handlers, list, s) && Delivered(reqs, lockers, called, s);
    }
    forall k | k in handlers ensures HandlerOk(reqs', handlers, lockers', k) {
      assert HandlerOk(reqs, handlers, lockers, k);
    }
    forall s | s in lockers' ensures LockerOk(reqs', handlers, lockers', s) {
      if s != r { assert LockerOk(reqs, handlers, lockers, s); }
    }
  }

  lemma RegisteredKeeps(reqs: Reqs, handlers: Handlers, list: seq<Id>, lockers: map<Id, Locker>,
                        called: set<(Id, Func)>, r: Id)
    requires AllOk(reqs, handlers, list, lockers, called) && r in lockers && lockers[r].Owner?
    ensures AllOk(reqs, handlers, list, lockers - {r},
                  called + (match lockers[r].call case None => {} case Some(f) => {(r, f)}))
  {
    assert LockerOk(reqs, handlers, lockers, r);
    var lockers' := lockers - {r};
    var called' := called + (match lockers[r].call case None => {} case Some(f) => {(r, f)});
    forall s | s in reqs ensures CountOk(reqs, handlers, list, s) && Delivered(reqs, lockers', called', s) {
      assert CountOk(reqs, handlers, list, s) && Delivered(reqs, lockers, called, s);
    }
    forall k | k in handlers ensures HandlerOk(reqs, handlers, lockers', k) {
      assert HandlerOk(reqs, handlers, lockers, k);
    }
    forall s | s in lockers' ensures LockerOk(reqs, handlers, lockers', s) {
      assert LockerOk(reqs, handlers, lockers, s);
    }
  }

  lemma Unlisted(list: seq<Id>, i: nat)
    requires i < |list| && forall j, k :: 0 <= j < k < |list| ==> list[j] != list[k]
    ensures var less := list[..i] + list[i + 1..];
      && list[i] !in less && (forall s :: s != list[i] ==> (s in less <==> s in list))
      && (forall j, k :: 0 <= j < k < |less| ==> less[j] != less[k])
  {
    var less := list[..i] + list[i + 1..];
    assert forall j :: 0 <= j < |less| ==> less[j] == list[if j < i then j else j + 1];
    forall s | s != list[i] && s in list ensures s in less {
      var j :| 0 <= j < |list| && list[j] == s;
      assert less[if j < i then j else j - 1] == s;
    }
  }

  lemma FreeKeeps(reqs: Reqs, handlers: Handlers, list: seq<Id>, list': seq<Id>, lockers: map<Id, Locker>,
                  called: set<(Id, Func)>, r: Id)
    requires AllOk(reqs, handlers, list, lockers, called) && r in reqs && reqs[r].owned
    requires r !in list' && forall s :: s != r ==> (s in list' <==> s in list)
    ensures AllOk(reqs[r := reqs[r].(func := None, owned := false, ctr := reqs[r].ctr - 1)], handlers, list', lockers,
                  called)
  {
    var reqs' := reqs[r := reqs[r].(func := None, owned := false, ctr := reqs[r].ctr - 1)];
    forall s | s in reqs' ensures CountOk(reqs', handlers, list', s) && Delivered(reqs', lockers, called, s) {
      assert CountOk(reqs, handlers, list, s) && Delivered(reqs, lockers, called, s);
    }
    forall k | k in handlers ensures HandlerOk(reqs', handlers, lockers, k) {
      assert HandlerOk(reqs, handlers, lockers, k);
    }
    forall s | s in lockers ensures LockerOk(reqs', handlers, lockers, s) {
      assert LockerOk(reqs, handlers, lockers, s);
    }
  }

  // -------------------------------------------------------------------------
  // A reply from inside the callback

  /** As long as no request is answered while its lock is held to register a callback, no lock is ever
      destroyed while it is held. */
  lemma PoliteIsSafe(l: LowLevel)
    requires l.Valid() && l.Polite()
    ensures l.Safe()
  {
    forall r | r in l.lockers ensures r in l.reqs {
      assert LockerOk(l.reqs, l.handlers, l.lockers, r);
    }
  }

  /** From every state with a parked interrupt: its request arrives and registers a callback, which is
      called at once and answers the request. The request is destroyed while its lock is held. */
  method RepliesAtOnce(l: LowLevel, i: nat, r: Id, func: Func)
    requires l.Valid() && i < |l.parked| && l.New(r)
    modifies l
    ensures l.Valid() && r in l.lockers && r in l.destroyed && !l.Safe()
    ensures old(l.Safe()) ==> forall s :: s in l.lockers && s != r ==> s in l.reqs
  {
    ghost var unique := l.parked[i].target;
    ParkedAbout(l.reqs, l.list, l.parked, i);
    hide AllOk, ListOk, ParkedOk;
    assert forall s :: s in l.list && s in l.reqs ==> l.reqs[s].unique != unique;
    var _ := l.Arrive(r, l.parked[i].target);
    l.Register(r, Some(func));
    var last := l.FreeReq(r);
    l.DestroyReq(r);
  }

  lemma ParkedAbout(reqs: Reqs, list: seq<Id>, parked: seq<Parked>, i: nat)
    requires ParkedOk(reqs, list, parked) && i < |parked|
    ensures forall r :: r in list && r in reqs ==> reqs[r].unique != parked[i].target
  {
  }

  /** The whole run, with the interrupt arriving first. */
  method ReplyInCallback(func: Func) returns (l: LowLevel)
    ensures fresh(l) && l.Valid() && !l.Safe()
  {
    hide AllOk, ListOk, ParkedOk;
    l := new LowLevel();
    var found := l.Interrupt(1, 7);
    RepliesAtOnce(l, 0, 2, func);
  }

  /** The other way: an interrupt is still being delivered when the callback answers the request, and the
      end of its delivery destroys it. */
  method DeliveryEndsFirst(func: Func) returns (l: LowLevel)
    ensures fresh(l) && l.Valid() && !l.Safe()
  {
    hide AllOk, ListOk, ParkedOk;
    l := new LowLevel();
    var _ := l.Arrive(1, 7);
    var found := l.Interrupt(2, 7);
    l.HandlerMark(2);
    l.HandlerCall(2);
    l.Register(1, Some(func));
    var last := l.FreeReq(1);
    l.HandlerDone(2);
  }
}
