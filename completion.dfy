/**
  The completion state machine of a coroutine result holder, as values.

  A result holder is a `returned` flag, a `value` and the list `toResume` of
  continuations waiting for the value. Two events change it: a waiter
  suspending on it (`await_suspend`) and the coroutine publishing its result
  (`return_value` / `return_void`). Each event may resume continuations; the
  resumed handles are reported in the order the code resumes them.

  Each state-changing method in module Coroutine is proved to take exactly
  the `Step` for its event. The lemmas below are stated over event
  sequences; no member composes the method calls into a `Run`.
 */
module Completion {

  /** An opaque coroutine handle (a continuation). */
  datatype Handle = Handle(id: nat)

  /** The state of one result holder; `value` is meaningless while `!returned`. */
  datatype Cell<T> = Cell(returned: bool, value: T, toResume: seq<Handle>)

  /** A freshly created holder: not returned, nobody waiting. */
  function Fresh<T>(init: T): (c: Cell<T>)
    ensures !c.returned && c.toResume == []
  {
    Cell(false, init, [])
  }

  /** The two operations that change a holder. */
  datatype Event<T> = Suspend(h: Handle) | Return(v: T)

  /** The holder after one or more events, and the handles resumed meanwhile, in order. */
  datatype Effect<T> = Effect(cell: Cell<T>, resumed: seq<Handle>)

  /**
    One event. A suspending waiter is resumed at once when the holder has
    returned, and is appended to `toResume` otherwise. Publishing a result
    stores it, sets `returned`, and resumes every queued waiter in order;
    it neither checks `returned` nor clears `toResume`.
   */
  function Step<T>(c: Cell<T>, e: Event<T>): Effect<T>
  {
    match e
    case Suspend(h) =>
      if c.returned then Effect(c, [h])
      else Effect(c.(toResume := c.toResume + [h]), [])
    case Return(v) =>
      Effect(Cell(true, v, c.toResume), c.toResume)
  }

  /** A sequence of events, applied left to right. */
  function Run<T>(c: Cell<T>, es: seq<Event<T>>): Effect<T>
    decreases |es|
  {
    if es == [] then Effect(c, [])
    else
      var first := Step(c, es[0]);
      var rest := Run(first.cell, es[1..]);
      Effect(rest.cell, first.resumed + rest.resumed)
  }

  /** The handles that suspend in `es`, in registration order. */
  function Registered<T>(es: seq<Event<T>>): seq<Handle>
  {
    if es == [] then []
    else if es[0].Suspend? then [es[0].h] + Registered(es[1..])
    else Registered(es[1..])
  }

  /** The values published in `es`, in order. */
  function Published<T>(es: seq<Event<T>>): seq<T>
  {
    if es == [] then []
    else if es[0].Return? then [es[0].v] + Published(es[1..])
    else Published(es[1..])
  }

  /**
    Readiness is monotonic and the wait list only grows: `returned` is never
    reset and `toResume` is never shortened, whatever happens.
   */
  lemma {:induction false} RunMonotone<T>(c: Cell<T>, es: seq<Event<T>>)
    ensures c.returned ==> Run(c, es).cell.returned
    ensures c.toResume <= Run(c, es).cell.toResume
    decreases |es|
  {
    if es != [] {
      RunMonotone(Step(c, es[0]).cell, es[1..]);
    }
  }

  /**
    Before the result is published, suspending waiters are queued in
    registration order and nobody is resumed; the flag and value stay as they were.
   */
  lemma {:induction false} RunBeforeReturn<T>(c: Cell<T>, es: seq<Event<T>>)
    requires !c.returned && Published(es) == []
    ensures Run(c, es) == Effect(c.(toResume := c.toResume + Registered(es)), [])
    decreases |es|
  {
    if es != [] {
      var c' := Step(c, es[0]).cell;
      RunBeforeReturn(c', es[1..]);
      assert c'.toResume + Registered(es[1..]) == c.toResume + Registered(es);
    }
  }

  /**
    After the result is published, every waiter that suspends is resumed
    immediately, in order, and the holder is left exactly as it was.
   */
  lemma {:induction false} RunAfterReturn<T>(c: Cell<T>, es: seq<Event<T>>)
    requires c.returned && Published(es) == []
    ensures Run(c, es) == Effect(c, Registered(es))
    decreases |es|
  {
    if es != [] {
      RunAfterReturn(c, es[1..]);
    }
  }

  /**
    No missed wakeup: when a holder that has not returned sees exactly one
    publication, every waiter already queued and every waiter that suspends
    later, before or after the publication, is resumed exactly once, in
    registration order; and the holder ends returned with the published value.
   */
  lemma {:induction false} NoMissedWakeup<T>(c: Cell<T>, es: seq<Event<T>>, v: T)
    requires !c.returned && Published(es) == [v]
    ensures Run(c, es).resumed == c.toResume + Registered(es)
    ensures Run(c, es).cell.returned && Run(c, es).cell.value == v
    decreases |es|
  {
    var first := Step(c, es[0]);
    var rest := Run(first.cell, es[1..]);
    assert Run(c, es) == Effect(rest.cell, first.resumed + rest.resumed);
    if es[0].Return? {
      assert es[0].v == v && Published(es[1..]) == [] by {
        var vs := [es[0].v] + Published(es[1..]);
        assert vs == [v];
        assert vs[0] == es[0].v && |vs| == 1 + |Published(es[1..])|;
      }
      assert first == Effect(Cell(true, v, c.toResume), c.toResume);
      RunAfterReturn(first.cell, es[1..]);
      assert Registered(es) == Registered(es[1..]);
    } else {
      assert Published(es[1..]) == [v];
      NoMissedWakeup(first.cell, es[1..], v);
      assert first.cell.toResume + Registered(es[1..]) == c.toResume + Registered(es);
    }
  }

  /**
    The code does not guard against a second publication. Take a trace with
    one publication, `pre + [Return(v)] + post`, and publish again: every
    waiter is resumed once as usual, and then every waiter queued before the
    first publication is resumed a second time, in the same order. The value
    becomes the second one.
   */
  lemma {:induction false} SecondReturnResumesAgain<T>(
    c: Cell<T>, pre: seq<Event<T>>, v: T, post: seq<Event<T>>, w: T)
    requires !c.returned && Published(pre) == [] && Published(post) == []
    ensures var es := pre + [Return(v)] + post + [Return(w)];
      Run(c, es).resumed == c.toResume + Registered(pre) + Registered(post) + c.toResume + Registered(pre)
      && Run(c, es).cell == Cell(true, w, c.toResume + Registered(pre))
  {
    var queued := c.toResume + Registered(pre);
    var before := c.(toResume := queued);
    var after := Cell(true, v, queued);
    RunBeforeReturn(c, pre);
    RunAfterReturn(after, post);
    assert Run(before, [Return(v)] + post) == Effect(after, queued + Registered(post)) by {
      assert ([Return(v)] + post)[1..] == post;
    }
    RunSplit(c, pre, [Return(v)] + post);
    assert pre + [Return(v)] + post == pre + ([Return(v)] + post);
    RunAppend(c, pre + [Return(v)] + post, Return(w));
  }

  /** Running `a + b` is running `a`, then `b` from where `a` left the holder. */
  lemma {:induction false} RunSplit<T>(c: Cell<T>, a: seq<Event<T>>, b: seq<Event<T>>)
    ensures Run(c, a + b).cell == Run(Run(c, a).cell, b).cell
    ensures Run(c, a + b).resumed == Run(c, a).resumed + Run(Run(c, a).cell, b).resumed
    decreases |a|
  {
    if a == [] {
      assert a + b == b;
    } else {
      assert (a + b)[0] == a[0] && (a + b)[1..] == a[1..] + b;
      RunSplit(Step(c, a[0]).cell, a[1..], b);
    }
  }

  /** Running `es` then one more event is running `es` and stepping its final holder. */
  lemma {:induction false} RunAppend<T>(c: Cell<T>, es: seq<Event<T>>, e: Event<T>)
    ensures Run(c, es + [e]).cell == Step(Run(c, es).cell, e).cell
    ensures Run(c, es + [e]).resumed == Run(c, es).resumed + Step(Run(c, es).cell, e).resumed
    decreases |es|
  {
    if es == [] {
      assert es + [e] == [e];
    } else {
      assert (es + [e])[1..] == es[1..] + [e];
      RunAppend(Step(c, es[0]).cell, es[1..], e);
    }
  }

  /** A waiter queued before a second publication is resumed twice. */
  lemma DoubleReturnResumesTwice<T>(h: Handle, init: T, v: T, w: T)
    ensures Run(Fresh(init), [Suspend(h), Return(v), Return(w)]).resumed == [h, h]
  {
    var pre: seq<Event<T>> := [Suspend(h)];
    assert Published(pre) == [] && Registered(pre) == [h] by {
      assert pre[1..] == [];
    }
    SecondReturnResumesAgain(Fresh(init), pre, v, [], w);
    assert pre + [Return(v)] + [] + [Return(w)] == [Suspend(h), Return(v), Return(w)];
  }
}
