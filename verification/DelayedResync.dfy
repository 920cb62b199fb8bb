/** The policy plugin delays a resync, and all changes after it, until the resync of the Contiv
    plugin has started (plugins/policy/plugin_impl_policy.go).  Each step runs under one lock. */
module DelayedResync {
  import opened Base

  /** The policy cache: a resync replaces the content, an update changes it, and both report
      whether they succeeded. */
  datatype Cache<!S, !R, !C> = Cache(resync: R -> (S, bool), update: (S, C) -> (S, bool))

  datatype Event<R, C> = Resync(ev: R) | Change(change: C) | Started

  datatype State<S, R, C> = State(content: S, pendingResync: Option<R>, pendingChanges: seq<C>)

  /** Updates one after the other, whether they succeed or not. */
  function UpdateAll<S, R, C>(cache: Cache<S, R, C>, s: S, changes: seq<C>): S {
    if changes == [] then s
    else cache.update(UpdateAll(cache, s, changes[..|changes| - 1]), changes[|changes| - 1]).0
  }

  /** The loop over the pending changes stops at the first error, be it of the resync. */
  function UpdateUntilError<S, R, C>(cache: Cache<S, R, C>, start: (S, bool), changes: seq<C>): (S, bool) {
    if changes == [] then start
    else
      var (t, ok) := UpdateUntilError(cache, start, changes[..|changes| - 1]);
      if ok then cache.update(t, changes[|changes| - 1]) else (t, false)
  }

  function Step<S, R, C>(cache: Cache<S, R, C>, s: State<S, R, C>, e: Event<R, C>): State<S, R, C> {
    match e
    case Resync(r) => State(s.content, Some(r), [])
    case Change(c) =>
      if s.pendingResync.Some? then s.(pendingChanges := s.pendingChanges + [c])
      else s.(content := cache.update(s.content, c).0)
    case Started =>
      if s.pendingResync.Some?
      then State(UpdateUntilError(cache, cache.resync(s.pendingResync.value), s.pendingChanges).0, None, [])
      else s
  }

  function Run<S, R, C>(cache: Cache<S, R, C>, s: State<S, R, C>, events: seq<Event<R, C>>): State<S, R, C> {
    if events == [] then s else Step(cache, Run(cache, s, events[..|events| - 1]), events[|events| - 1])
  }

  /** What applying every event at once would give. */
  function Immediate<S, R, C>(cache: Cache<S, R, C>, content: S, events: seq<Event<R, C>>): S {
    if events == [] then content
    else
      var before := Immediate(cache, content, events[..|events| - 1]);
      match events[|events| - 1]
      case Resync(r) => cache.resync(r).0
      case Change(c) => cache.update(before, c).0
      case Started => before
  }

  /** The content with everything that is pending on top. */
  function Folded<S, R, C>(cache: Cache<S, R, C>, s: State<S, R, C>): S {
    if s.pendingResync.None? then s.content
    else UpdateAll(cache, cache.resync(s.pendingResync.value).0, s.pendingChanges)
  }

  /** The resync succeeds if changes follow it, and so does every change that is followed by
      another one. */
  ghost predicate NoneFails<S, R, C>(cache: Cache<S, R, C>, start: (S, bool), changes: seq<C>) {
    changes != [] ==>
      start.1 && forall k :: 0 <= k < |changes| - 1 ==> cache.update(UpdateAll(cache, start.0, changes[..k]), changes[k]).1
  }

  /** No pending change is cut off by an error before it. */
  ghost predicate NothingDropped<S, R, C>(cache: Cache<S, R, C>, s: State<S, R, C>, e: Event<R, C>) {
    e.Started? && s.pendingResync.Some? ==> NoneFails(cache, cache.resync(s.pendingResync.value), s.pendingChanges)
  }

  ghost predicate NothingDroppedIn<S, R, C>(cache: Cache<S, R, C>, s: State<S, R, C>, events: seq<Event<R, C>>) {
    forall n :: 0 <= n < |events| ==> NothingDropped(cache, Run(cache, s, events[..n]), events[n])
  }

  lemma {:induction false} UntilErrorIsAll<S, R, C>(cache: Cache<S, R, C>, start: (S, bool), changes: seq<C>)
    requires NoneFails(cache, start, changes)
    ensures UpdateUntilError(cache, start, changes).0 == UpdateAll(cache, start.0, changes)
    ensures changes != [] ==>
              UpdateUntilError(cache, start, changes).1 ==
              cache.update(UpdateAll(cache, start.0, changes[..|changes| - 1]), changes[|changes| - 1]).1
  {
    if changes != [] {
      var init := changes[..|changes| - 1];
      assert forall k :: 0 <= k < |init| ==> init[..k] == changes[..k];
      assert init != [] ==> init[..|init| - 1] == changes[..|init| - 1] && init[|init| - 1] == changes[|init| - 1];
      UntilErrorIsAll(cache, start, init);
    }
  }

  lemma UpdateAllSnoc<S, R, C>(cache: Cache<S, R, C>, s: S, changes: seq<C>, c: C)
    ensures UpdateAll(cache, s, changes + [c]) == cache.update(UpdateAll(cache, s, changes), c).0
  {
    assert (changes + [c])[..|changes|] == changes;
  }

  /** For every interleaving of resyncs, changes and started events in which no pending change
      is dropped: the content with the pending events on top is what applying every event
      immediately gives, and once nothing is pending the content itself is. */
  lemma {:induction false} RunIsImmediate<S, R, C>(cache: Cache<S, R, C>, s: State<S, R, C>, events: seq<Event<R, C>>)
    requires s.pendingResync.None? && NothingDroppedIn(cache, s, events)
    ensures Folded(cache, Run(cache, s, events)) == Immediate(cache, s.content, events)
    ensures events != [] && events[|events| - 1].Started? ==> Run(cache, s, events).content == Immediate(cache, s.content, events)
    ensures Run(cache, s, events).pendingResync.None? ==> Run(cache, s, events).content == Immediate(cache, s.content, events)
  {
    if events != [] {
      var init, last := events[..|events| - 1], events[|events| - 1];
      forall n | 0 <= n < |init| ensures NothingDropped(cache, Run(cache, s, init[..n]), init[n]) {
        assert init[..n] == events[..n];
      }
      RunIsImmediate(cache, s, init);
      var before := Run(cache, s, init);
      assert NothingDropped(cache, before, last);
      if last.Started? && before.pendingResync.Some? {
        UntilErrorIsAll(cache, cache.resync(before.pendingResync.value), before.pendingChanges);
      } else if last.Change? && before.pendingResync.Some? {
        UpdateAllSnoc(cache, cache.resync(before.pendingResync.value).0, before.pendingChanges, last.change);
      }
    }
  }

  // ----- No change is repeated or reordered, and which ones are lost -----

  /** Which resyncs and which changes report an error. */
  datatype Failing<!R, !C> = Failing(resync: R -> bool, change: C -> bool)

  /** A cache that records what it is given. */
  function Recorder<R(!new), C(!new)>(fails: Failing<R, C>): Cache<seq<Event<R, C>>, R, C> {
    Cache((r: R) => ([Resync(r)], !fails.resync(r)), (s: seq<Event<R, C>>, c: C) => (s + [Change(c)], !fails.change(c)))
  }

  /** The latest resync and the changes after it, or all changes if there was no resync. */
  function SinceResync<R, C>(events: seq<Event<R, C>>): seq<Event<R, C>> {
    if events == [] then []
    else match events[|events| - 1]
         case Resync(r) => [Resync(r)]
         case Change(c) => SinceResync(events[..|events| - 1]) + [Change(c)]
         case Started => SinceResync(events[..|events| - 1])
  }

  lemma {:induction false} ImmediateRecords<R(!new), C(!new)>(fails: Failing<R, C>, events: seq<Event<R, C>>)
    ensures Immediate(Recorder(fails), [], events) == SinceResync(events)
  {
    if events != [] {
      ImmediateRecords(fails, events[..|events| - 1]);
    }
  }

  /** Whatever the interleaving, the cache is given the latest resync and every change after it,
      once and in order, as soon as nothing is pending. */
  lemma EveryChangeOnce<R(!new), C(!new)>(fails: Failing<R, C>, events: seq<Event<R, C>>)
    requires NothingDroppedIn(Recorder(fails), State([], None, []), events)
    ensures var s := Run(Recorder(fails), State([], None, []), events);
            && Folded(Recorder(fails), s) == SinceResync(events)
            && (s.pendingResync.None? ==> s.content == SinceResync(events))
  {
    RunIsImmediate(Recorder(fails), State([], None, []), events);
    ImmediateRecords(fails, events);
  }

  lemma {:induction false} RecorderFails<R(!new), C(!new)>(fails: Failing<R, C>, start: (seq<Event<R, C>>, bool), changes: seq<C>)
    ensures |UpdateAll(Recorder(fails), start.0, changes)| == |start.0| + |changes|
    ensures |UpdateUntilError(Recorder(fails), start, changes).0| <= |start.0| + |changes|
    ensures UpdateUntilError(Recorder(fails), start, changes).1 <==>
            start.1 && forall k :: 0 <= k < |changes| ==> !fails.change(changes[k])
  {
    if changes != [] {
      RecorderFails(fails, start, changes[..|changes| - 1]);
      assert forall k :: 0 <= k < |changes| - 1 ==> changes[..|changes| - 1][k] == changes[k];
    }
  }

  /** When the resync starts, everything pending is applied exactly if nothing is pending after
      it, or neither the resync nor a change before the last one fails. */
  lemma AppliedIffNoneDropped<R(!new), C(!new)>(fails: Failing<R, C>, s: State<seq<Event<R, C>>, R, C>)
    requires s.pendingResync.Some?
    ensures Step(Recorder(fails), s, Started).content == Folded(Recorder(fails), s) <==>
            s.pendingChanges == [] ||
            (!fails.resync(s.pendingResync.value) && forall k :: 0 <= k < |s.pendingChanges| - 1 ==> !fails.change(s.pendingChanges[k]))
  {
    var cache, changes := Recorder(fails), s.pendingChanges;
    var start := cache.resync(s.pendingResync.value);
    if changes != [] {
      var init := changes[..|changes| - 1];
      RecorderFails(fails, start, init);
      assert forall k :: 0 <= k < |init| ==> init[k] == changes[k];
      RecorderFails(fails, start, changes);
      hide UpdateAll, UpdateUntilError;
      if start.1 && forall k :: 0 <= k < |init| ==> !fails.change(changes[k]) {
        UntilErrorIsAll(cache, start, changes);
      } else {
        StoppedIs(cache, start, changes, |changes| - 1);
      }
    }
  }

  lemma RunSnoc<S, R, C>(cache: Cache<S, R, C>, s: State<S, R, C>, events: seq<Event<R, C>>, e: Event<R, C>)
    ensures Run(cache, s, events + [e]) == Step(cache, Run(cache, s, events), e)
    ensures e.Change? ==> Immediate(cache, s.content, events + [e]) == cache.update(Immediate(cache, s.content, events), e.change).0
    ensures e.Started? ==> Immediate(cache, s.content, events + [e]) == Immediate(cache, s.content, events)
  {
    assert (events + [e])[..|events|] == events;
  }

  /** With an error among the pending changes the ones after it are lost: a change that fails and
      leaves the content alone, followed by one that would change it. */
  lemma ErrorDropsRest<S, R, C>(cache: Cache<S, R, C>, s: State<S, R, C>, r: R, bad: C, good: C)
    requires s.pendingResync.None? && cache.update(cache.resync(r).0, bad) == (cache.resync(r).0, false)
    ensures var events := [Resync(r)] + [Change(bad)] + [Change(good)] + [Started];
            && Run(cache, s, events).content == cache.resync(r).0
            && Immediate(cache, s.content, events) == cache.update(cache.resync(r).0, good).0
  {
    var e1: seq<Event<R, C>> := [Resync(r)];
    assert e1 == [] + [Resync(r)];
    RunSnoc(cache, s, [], Resync(r));
    RunSnoc(cache, s, e1, Change(bad));
    RunSnoc(cache, s, e1 + [Change(bad)], Change(good));
    RunSnoc(cache, s, e1 + [Change(bad)] + [Change(good)], Started);
    var changes := [bad] + [good];
    assert [] + [bad] == [bad];
    assert Run(cache, s, e1 + [Change(bad)] + [Change(good)]) == State(s.content, Some(r), changes);
    assert changes[..1] == [bad] && [bad][..0] == [];
    StoppedIs(cache, cache.resync(r), changes, 1);
    assert Immediate(cache, s.content, e1) == cache.resync(r).0;
  }

  /** A resync that fails drops every change after it. */
  lemma {:induction false} FailedResyncDropsAll<S, R, C>(cache: Cache<S, R, C>, s: State<S, R, C>)
    requires s.pendingResync.Some? && !cache.resync(s.pendingResync.value).1
    ensures Step(cache, s, Started).content == cache.resync(s.pendingResync.value).0
  {
    StoppedIs(cache, cache.resync(s.pendingResync.value), s.pendingChanges, 0);
  }

  // ----- The plugin -----

  class Plugin<S, R, C> {
    const cache: Cache<S, R, C>
    var content: S
    var pendingResync: Option<R>
    var pendingChanges: seq<C>

    ghost function AsState(): State<S, R, C>
      reads this
    {
      State(content, pendingResync, pendingChanges)
    }

    constructor (cache: Cache<S, R, C>, content: S)
      ensures this.cache == cache && AsState() == State(content, None, [])
    {
      this.cache, this.content, pendingResync, pendingChanges := cache, content, None, [];
    }

    /** watchEvents: a resync event. */
    method OnResync(ev: R)
      modifies this
      ensures AsState() == Step(cache, old(AsState()), Resync(ev))
    {
      pendingResync := Some(ev);
      pendingChanges := [];
    }

    /** watchEvents: a change event. */
    method OnChange(ev: C)
      modifies this
      ensures AsState() == Step(cache, old(AsState()), Change(ev))
    {
      if pendingResync.Some? {
        pendingChanges := pendingChanges + [ev];
      } else {
        var (s, ok) := cache.update(content, ev);
        content := s;
      }
    }

    /** handleResync: the resync of the Contiv plugin has started. */
    method OnStarted()
      modifies this
      ensures AsState() == Step(cache, old(AsState()), Started)
    {
      if pendingResync.Some? {
        ghost var start := cache.resync(pendingResync.value);
        var (replaced, ok) := cache.resync(pendingResync.value);
        content := replaced;
        var i := 0;
        while ok && i < |pendingChanges|
          invariant 0 <= i <= |pendingChanges| && pendingChanges == old(pendingChanges)
          invariant (content, ok) == UpdateUntilError(cache, start, pendingChanges[..i])
        {
          assert pendingChanges[..i + 1][..i] == pendingChanges[..i];
          var (s, succeeded) := cache.update(content, pendingChanges[i]);
          content, ok, i := s, succeeded, i + 1;
        }
        StoppedIs(cache, start, pendingChanges, i);
        pendingResync := None;
        pendingChanges := [];
      }
    }
  }

  /** After an error nothing more is applied. */
  lemma {:induction false} StoppedIs<S, R, C>(cache: Cache<S, R, C>, start: (S, bool), changes: seq<C>, i: nat)
    requires i <= |changes| && (i == |changes| || !UpdateUntilError(cache, start, changes[..i]).1)
    ensures UpdateUntilError(cache, start, changes).0 == UpdateUntilError(cache, start, changes[..i]).0
    ensures i < |changes| ==> !UpdateUntilError(cache, start, changes).1
  {
    if i == |changes| {
      assert changes[..i] == changes;
    } else if i == |changes| - 1 {
    } else {
      assert changes[..|changes| - 1][..i] == changes[..i];
      StoppedIs(cache, start, changes[..|changes| - 1], i);
    }
  }
}
