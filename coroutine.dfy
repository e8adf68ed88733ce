/**
  The result holder, the awaitables, the promise and the task, as objects.

  Locking is left out: every operation is one atomic step. Resuming and
  destroying a coroutine frame are opaque effects recorded in a `Runtime`
  log. `std::terminate()` is the `Terminated` outcome. The `void`
  specialisations are the same classes at Dafny's unit type `()`.
 */
module Coroutine {
  import opened Completion

  /** The result of an operation that either returns normally or calls `std::terminate()`. */
  datatype Result<T> = Ok(value: T) | Terminated

  /** What happens to coroutine frames: the order of `resume()` and `destroy()` calls. */
  class Runtime {
    ghost var resumed: seq<Handle>
    ghost var destroyed: seq<object>

    constructor ()
      ensures resumed == [] && destroyed == []
    {
      resumed, destroyed := [], [];
    }

    /** `h.resume()`: what the resumed coroutine then does is not modelled. */
    method Resume(h: Handle)
      modifies this
      ensures resumed == old(resumed) + [h] && destroyed == old(destroyed)
    {
      resumed := resumed + [h];
    }

    /** `handle.destroy()`. */
    method Destroy(frame: object)
      modifies this
      ensures destroyed == old(destroyed) + [frame] && resumed == old(resumed)
    {
      destroyed := destroyed + [frame];
    }
  }

  /** `CoroutineRetvalHolder<T>`: a single result and the continuations waiting for it. */
  class RetvalHolder<T(0)> {
    var returned: bool
    var value: T
    var toResume: seq<Handle>

    /** Not returned, nobody waiting; `value` is default-initialised. */
    constructor ()
      ensures !returned && toResume == []
    {
      returned := false;
      toResume := [];
    }

    /** The holder as a value of the completion state machine. */
    function State(): Cell<T>
      reads this
    {
      Cell(returned, value, toResume)
    }
  }

  /**
    `Async<T>` (with its base `CoroutineAwaitResume<T>`): either an immediate
    value, which refers to no holder, or a reference to another coroutine's holder.
   */
  datatype Async<T(0)> = Immediate(immediateValue: T) | Deferred(pself: RetvalHolder<T>)
  {
    /** `await_ready`: an immediate value is always ready; a deferred one when its holder has returned. */
    method AwaitReady() returns (ready: bool)
      ensures Immediate? ==> ready
      ensures Deferred? ==> (ready <==> pself.returned)
    {
      if Deferred? {
        ready := pself.returned;
      } else {
        ready := true;
      }
    }

    /**
      `await_suspend(h)`: suspending on an immediate value terminates. On a
      deferred one, `h` is resumed at once if the holder has returned and is
      queued at the end of `toResume` otherwise.
     */
    method AwaitSuspend(h: Handle, rt: Runtime) returns (r: Result<()>)
      modifies (if Deferred? then {pself} else {}), rt
      ensures Immediate? ==> r == Terminated && unchanged(rt)
      ensures Deferred? ==> r == Ok(())
      ensures Deferred? && old(pself.returned) ==>
        unchanged(pself) && rt.resumed == old(rt.resumed) + [h]
      ensures Deferred? && !old(pself.returned) ==>
        pself.toResume == old(pself.toResume) + [h] && !pself.returned && pself.value == old(pself.value)
        && rt.resumed == old(rt.resumed)
      ensures Deferred? ==>
        var step := Step(old(pself.State()), Suspend(h));
        pself.State() == step.cell && rt.resumed == old(rt.resumed) + step.resumed
      ensures rt.destroyed == old(rt.destroyed)
    {
      if Deferred? {
        if pself.returned {
          rt.Resume(h);
        } else {
          pself.toResume := pself.toResume + [h];
        }
        r := Ok(());
      } else {
        r := Terminated;
      }
    }

    /**
      `await_resume`: an immediate value is returned as constructed; a
      deferred one yields the holder's value, and terminates if the holder
      has not returned.
     */
    method AwaitResume() returns (r: Result<T>)
      ensures Immediate? ==> r == Ok(immediateValue)
      ensures Deferred? && pself.returned ==> r == Ok(pself.value)
      ensures Deferred? && !pself.returned ==> r == Terminated
      ensures Deferred? ==> r == DeferredResult(pself.State())
    {
      if Deferred? {
        if !pself.returned {
          return Terminated;
        }
        r := Ok(pself.value);
      } else {
        r := Ok(immediateValue);
      }
    }
  }

  /** `Promise<T>`: the coroutine side, which owns the holder and publishes the result. */
  class Promise<T(0)> {
    const holder: RetvalHolder<T>

    constructor ()
      ensures fresh(holder) && !holder.returned && holder.toResume == []
    {
      holder := new RetvalHolder();
    }

    /**
      `return_value(v)`: store `v`, set `returned`, then resume every queued
      waiter once, in registration order. `returned` is not checked first and
      `toResume` is not cleared.
     */
    method ReturnValue(v: T, rt: Runtime)
      modifies holder, rt
      ensures holder.returned && holder.value == v && holder.toResume == old(holder.toResume)
      ensures rt.resumed == old(rt.resumed) + old(holder.toResume)
      ensures rt.destroyed == old(rt.destroyed)
      ensures var step := Step(old(holder.State()), Return(v));
        holder.State() == step.cell && rt.resumed == old(rt.resumed) + step.resumed
    {
      holder.value := v;
      holder.returned := true;
      var i := 0;
      while i < |holder.toResume|
        invariant 0 <= i <= |holder.toResume|
        invariant holder.returned && holder.value == v && holder.toResume == old(holder.toResume)
        invariant rt.resumed == old(rt.resumed) + holder.toResume[..i]
        invariant rt.destroyed == old(rt.destroyed)
      {
        rt.Resume(holder.toResume[i]);
        i := i + 1;
      }
      assert holder.toResume[..i] == holder.toResume;
    }
  }

  /** `Promise<void>::return_void`: set `returned` and resume every queued waiter once, in order. */
  method ReturnVoid(p: Promise<()>, rt: Runtime)
    modifies p.holder, rt
    ensures p.holder.returned && p.holder.toResume == old(p.holder.toResume)
    ensures rt.resumed == old(rt.resumed) + old(p.holder.toResume)
    ensures rt.destroyed == old(rt.destroyed)
    ensures var step := Step(old(p.holder.State()), Return(()));
      p.holder.State() == step.cell && rt.resumed == old(rt.resumed) + step.resumed
  {
    p.ReturnValue((), rt);
  }

  /** `Task<T>`: the caller's handle on a coroutine frame, which it owns; `null` once moved from. */
  class Task<T(0)> {
    var handle: Promise?<T>

    /** `Task(h)`: take ownership of the frame. */
    constructor (h: Promise<T>)
      ensures handle == h
    {
      handle := h;
    }

    /** The move constructor: the frame moves here and `rhs` is left holding none. */
    constructor Move(rhs: Task<T>)
      modifies rhs
      ensures handle == old(rhs.handle) && rhs.handle == null
    {
      handle := rhs.handle;
      new;
      rhs.handle := null;
    }

    /** The destructor: destroy the frame if this task still owns one. */
    method Destroy(rt: Runtime)
      modifies rt
      ensures handle == null ==> rt.destroyed == old(rt.destroyed)
      ensures handle != null ==> rt.destroyed == old(rt.destroyed) + [handle]
      ensures rt.resumed == old(rt.resumed)
    {
      if handle != null {
        rt.Destroy(handle);
      }
    }

    /** `await_ready`: whether the frame's holder has returned. */
    method AwaitReady() returns (ready: bool)
      requires handle != null
      ensures ready <==> handle.holder.returned
    {
      ready := handle.holder.returned;
    }

    /** `await_suspend(h)`: resume `h` now if the holder has returned, else queue it. */
    method AwaitSuspend(h: Handle, rt: Runtime)
      requires handle != null
      modifies handle.holder, rt
      ensures old(handle.holder.returned) ==>
        unchanged(handle.holder) && rt.resumed == old(rt.resumed) + [h]
      ensures !old(handle.holder.returned) ==>
        handle.holder.toResume == old(handle.holder.toResume) + [h]
        && !handle.holder.returned && handle.holder.value == old(handle.holder.value)
        && rt.resumed == old(rt.resumed)
      ensures var step := Step(old(handle.holder.State()), Suspend(h));
        handle.holder.State() == step.cell && rt.resumed == old(rt.resumed) + step.resumed
      ensures rt.destroyed == old(rt.destroyed)
    {
      var holder := handle.holder;
      if holder.returned {
        rt.Resume(h);
      } else {
        holder.toResume := holder.toResume + [h];
      }
    }

    /**
      `await_resume`: the holder's value, read without checking `returned`
      (unlike a deferred `Async`). When the holder has returned it agrees
      with what a deferred `Async` on the same holder yields.
     */
    method AwaitResume() returns (v: T)
      requires handle != null
      ensures v == handle.holder.value
      ensures handle.holder.returned ==> Ok(v) == DeferredResult(handle.holder.State())
    {
      v := handle.holder.value;
    }
  }

  /** What a deferred awaitable's `await_resume` yields on a holder in state `c`. */
  function DeferredResult<T>(c: Cell<T>): Result<T>
  {
    if c.returned then Ok(c.value) else Terminated
  }

  /**
    `Task b = std::move(a);` followed by `a` leaving scope: the frame passes
    to `b` and the moved-from `a` destroys nothing.
   */
  method MoveThenDrop<T(0)>(a: Task<T>, rt: Runtime) returns (b: Task<T>)
    modifies a, rt
    ensures fresh(b) && b.handle == old(a.handle) && a.handle == null
    ensures rt.destroyed == old(rt.destroyed) && rt.resumed == old(rt.resumed)
  {
    b := new Task.Move(a);
    a.Destroy(rt);
  }
}
