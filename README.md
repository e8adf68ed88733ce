# Coroutine completion state machine

This project models the completion machinery of a small C++20 coroutine
task library (`code.cc`). The pieces are:

- a result holder (`CoroutineRetvalHolder<T>`) with a `returned` flag, a
  `value` and a list `to_resume` of waiting continuations;
- awaitables (`Async<T>` with its base `CoroutineAwaitResume<T>`) that are
  either an immediate value or a reference to another coroutine's holder;
- the promise (`Promise<T>`), whose `return_value` / `return_void` publishes
  the result and resumes the waiters;
- the task (`Task<T>`), which owns the coroutine frame, can be moved, and is
  itself awaitable over its own holder.

Two modules:

- `Completion` (`completion.dfy`) is the holder's state machine as values.
  `Step` gives the effect of one event: a waiter suspending, or a result
  being published. `Run` applies a sequence of events. The lemmas about `Run`
  hold for every sequence of events: readiness is monotonic, no wakeup is
  missed, and waiters are resumed in registration order.
- `Coroutine` (`coroutine.dfy`) holds the objects. `RetvalHolder`, `Promise`
  and `Task` are classes with mutable fields, and `Async` is a datatype with
  methods. `Runtime` records the `resume()` and `destroy()` calls made on
  coroutine frames in ghost logs. Each state-changing method states its new
  state outright. Each one that changes a holder is also proved to take exactly
  the step `Completion.Step` gives for its event. The trace lemmas are stated
  over event sequences, and no member chains method calls into a `Run`.

Conventions of the model:

- A continuation (`std::coroutine_handle<>`) is an opaque `Handle`.
  Resuming one appends it to `Runtime.resumed`.
- `std::terminate()` is the result `Terminated`.
- The `void` specialisations (`CoroutineRetvalHolder<void>`,
  `CoroutineAwaitResume<void>`, `Promise<void>`) are the same classes at
  Dafny's unit type `()`. There `value` carries no information.
- The unset `value` of a new holder is Dafny's default value of `T`. In C++ it
  is default-initialised.

A single-assignment future is usually expected to behave in three ways that
this code does not. The model follows the code:

- A result should be published at most once, and a second publication should
  be caught. `return_value` does not check `returned`. Publishing again
  overwrites the value and resumes every waiter queued before the first
  publication a second time (`SecondReturnResumesAgain`,
  `DoubleReturnResumesTwice`).
- The wait list should be emptied once its waiters are resumed.
  `return_value` resumes the waiters but never clears `to_resume`.
- Reading the result before completion should be caught, as
  `Async::await_resume` does (code.cc:53-56). `Task::await_resume` reads
  `value` without checking `returned`.

## Model

| member | source | states |
|---|---|---|
| Coroutine.RetvalHolder.constructor | code.cc:23-36 | a new holder has not returned and has no waiters |
| Coroutine.Async.AwaitReady | code.cc:90-110 | an immediate awaitable is always ready; a deferred one is ready exactly when its holder has returned; no state changes |
| Coroutine.Async.AwaitSuspend | code.cc:112-124 | suspending on an immediate value terminates and touches nothing; on a deferred one, a returned holder resumes `h` at once and stays unchanged, otherwise `h` is appended to `to_resume`, nothing is resumed and `returned`/`value` stay put; this is the `Suspend` step of the state machine |
| Coroutine.Async.AwaitResume | code.cc:38-84 | an immediate awaitable yields exactly the value it was built with; a deferred one yields the holder's value when returned and terminates otherwise; no state changes |
| Coroutine.Promise.constructor | code.cc:131-137 | the promise owns a fresh holder that has not returned and has no waiters |
| Coroutine.Promise.ReturnValue | code.cc:140-147 | `value` becomes `v` and `returned` true, every queued handle is resumed once in registration order, `to_resume` is kept and `returned` is not checked; this is the `Return` step of the state machine |
| Coroutine.ReturnVoid | code.cc:159-165 | sets `returned` and resumes every queued handle once, in order, keeping `to_resume`; this is the `Return` step at the unit type |
| Coroutine.Task.constructor | code.cc:173 | the task owns the given frame |
| Coroutine.Task.Move | code.cc:174-175 | moving transfers the frame and leaves the source with a null handle |
| Coroutine.Task.Destroy | code.cc:176-178 | the destructor destroys the frame exactly when the handle is non-null, and nothing else |
| Coroutine.MoveThenDrop | code.cc:174-178 | after a move, the moved-from task's destructor destroys nothing and the frame now belongs to the new task |
| Coroutine.Task.AwaitReady | code.cc:180-182 | a task is ready exactly when its holder has returned; no state changes |
| Coroutine.Task.AwaitSuspend | code.cc:184-191 | same effect as a deferred awaitable's `await_suspend` on the task's own holder: resume now if returned, else append to `to_resume` |
| Coroutine.Task.AwaitResume | code.cc:193-199 | yields the holder's value without checking `returned`; once the holder has returned this agrees with a deferred awaitable's `await_resume` |
| Completion.RunMonotone | code.cc:112-147 | over any sequence of suspends and publications, `returned` never goes back to false and `to_resume` only grows, keeping its old entries as a prefix |
| Completion.RunBeforeReturn | code.cc:112-119 | before any publication, suspending waiters are queued in registration order, nobody is resumed, and `returned` and `value` are unchanged |
| Completion.RunAfterReturn | code.cc:112-119 | after publication, every suspending waiter is resumed at once, in order, and the holder does not change |
| Completion.NoMissedWakeup | code.cc:140-147 | with exactly one publication, every waiter, whether queued before it or suspending after it, is resumed exactly once in registration order, and the holder ends returned with the published value |
| Completion.SecondReturnResumesAgain | code.cc:140-147 | for a trace `pre + [Return(v)] + post` with one publication, publishing again resumes `c.toResume + Registered(pre)`, the waiters queued before the first publication, a second time in the same order, after each waiter's first resumption; the holder ends with the second value and that same wait list |
| Completion.DoubleReturnResumesTwice | code.cc:140-147 | concretely: one waiter, two publications, and that waiter is resumed twice |

## Left out

- Locking (`std::mutex`, `std::lock_guard`) and multi-threaded interleaving: every operation is one atomic sequential step.
- What runs inside `h.resume()`, including re-entrant calls into the same holder while its lock is held: a resumption is an opaque logged event.
- C++20 coroutine machinery: `initial_suspend` returning `suspend_never` (eager start), `final_suspend` returning `suspend_never`, `get_return_object` and `coroutine_handle::from_promise`. These are language and runtime features.
- Frame lifetime: the model never frees a frame or its holder. Destroying a task while others still wait on its holder is therefore not modelled as a hazard.
- Coroutine.Task.Destroy: the model assumes the frame outlives the body's completion. In the code, `final_suspend` returning `suspend_never` (code.cc:134, 153) frees the frame as soon as the body finishes, so `~Task` (code.cc:176-178) then destroys it a second time. The model logs a single `destroy()`.
- Coroutine.Task.AwaitReady: the model assumes the frame outlives the body's completion. Once the body has finished, its frame and holder are freed (code.cc:134, 153), so `Task::await_ready` (code.cc:180-182) reads freed memory. The model reads a still-live holder.
- Coroutine.Task.AwaitResume: the model assumes the frame outlives the body's completion. Once the body has finished, its frame and holder are freed (code.cc:134, 153), so `Task::await_resume` (code.cc:193-199) reads freed memory. The model reads a still-live holder.
- `unhandled_exception` calling `std::terminate()`: the model has no exceptions.
- The `TELEMETRY` counters and the `Executor` singleton: they only observe.
- The `std::cout` diagnostic before terminating in `await_suspend`: it is I/O.
- The demo coroutines `foo`, `bar` and `main`.
- Coroutine.Task.AwaitReady: calling it on a moved-from task dereferences a null handle in C++ (undefined behaviour). The model requires a non-null handle instead.
- Coroutine.Task.AwaitSuspend: calling it on a moved-from task dereferences a null handle in C++ (undefined behaviour). The model requires a non-null handle instead.
- Coroutine.Task.AwaitResume: calling it on a moved-from task dereferences a null handle in C++ (undefined behaviour). The model requires a non-null handle instead.
