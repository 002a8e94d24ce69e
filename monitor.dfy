/**
 * SignaledChangeMonitor: a change monitor bound to a cache name and an
 * optional signal (tag) name, the rule by which it reacts to a signal, and the
 * process-wide subscriber list that `Signal` fans out over.
 */
module Monitors {
  import opened Wrappers
  import opened Text

  /** A monitor of cache `cacheName`; `signalName` None is the cache-wide monitor. */
  datatype Monitor = Monitor(cacheName: string, signalName: Option<string>)

  /** The test in OnSignalRaised: does the monitor react to signal (cacheName, name)? */
  predicate Reacts(m: Monitor, cacheName: string, name: Option<string>) {
    && EqualsIgnoreCase(Some(cacheName), Some(m.cacheName))
    && (IsNullOrWhiteSpace(name) || EqualsIgnoreCase(name, m.signalName))
  }

  /** Whether any of an entry's monitors reacts, so that the entry is removed. */
  predicate AnyReacts(ms: seq<Monitor>, cacheName: string, name: Option<string>) {
    exists i :: 0 <= i < |ms| && Reacts(ms[i], cacheName, name)
  }

  /** The matching rule, case by case. */
  lemma ReactsCases(m: Monitor, c: string, n: Option<string>)
    // a cache-wide signal (blank name) reaches every monitor of that cache, tagged or not
    ensures IsNullOrWhiteSpace(n) ==> (Reacts(m, c, n) <==> EqualsIgnoreCase(Some(c), Some(m.cacheName)))
    // a signal for another cache never reaches the monitor
    ensures !EqualsIgnoreCase(Some(c), Some(m.cacheName)) ==> !Reacts(m, c, n)
    // a cache-wide monitor ignores tag signals
    ensures m.signalName.None? && !IsNullOrWhiteSpace(n) ==> !Reacts(m, c, n)
    // a tag monitor reacts to a tag signal iff both names agree ignoring case
    ensures m.signalName.Some? && !IsNullOrWhiteSpace(n) ==>
              (Reacts(m, c, n) <==> EqualsIgnoreCase(Some(c), Some(m.cacheName)) && EqualsIgnoreCase(n, m.signalName))
  {
  }

  /** The subscribers that react to a signal, in subscription order. */
  function Fired(subs: seq<Monitor>, cacheName: string, name: Option<string>): seq<Monitor> {
    if subs == [] then []
    else
      var last := subs[|subs| - 1];
      Fired(subs[..|subs| - 1], cacheName, name) + (if Reacts(last, cacheName, name) then [last] else [])
  }

  lemma {:induction false} FiredSpec(subs: seq<Monitor>, c: string, n: Option<string>)
    ensures forall m :: m in Fired(subs, c, n) <==> m in subs && Reacts(m, c, n)
    ensures |Fired(subs, c, n)| <= |subs|
  {
    if subs != [] {
      var init := subs[..|subs| - 1];
      FiredSpec(init, c, n);
      assert subs == init + [subs[|subs| - 1]];
    }
  }

  /** The subscribers that do not react to a signal, in subscription order. */
  function Kept(subs: seq<Monitor>, cacheName: string, name: Option<string>): seq<Monitor> {
    if subs == [] then []
    else
      var last := subs[|subs| - 1];
      Kept(subs[..|subs| - 1], cacheName, name) + (if Reacts(last, cacheName, name) then [] else [last])
  }

  lemma {:induction false} KeptSpec(subs: seq<Monitor>, c: string, n: Option<string>)
    ensures forall m :: m in Kept(subs, c, n) <==> m in subs && !Reacts(m, c, n)
  {
    if subs != [] {
      var init := subs[..|subs| - 1];
      KeptSpec(init, c, n);
      assert subs == init + [subs[|subs| - 1]];
    }
  }

  /**
   * A signal splits the subscriber list: every subscription either fires (and
   * its monitor is disposed) or stays.
   */
  lemma {:induction false} SignalSplitsSubscribers(subs: seq<Monitor>, c: string, n: Option<string>)
    ensures multiset(Fired(subs, c, n)) + multiset(Kept(subs, c, n)) == multiset(subs)
  {
    if subs != [] {
      var init := subs[..|subs| - 1];
      SignalSplitsSubscribers(init, c, n);
      assert subs == init + [subs[|subs| - 1]];
    }
  }

  /** The delegate list after `-=`: the last occurrence of `m` is dropped. */
  function RemoveLast(subs: seq<Monitor>, m: Monitor): seq<Monitor> {
    if subs == [] then []
    else if subs[|subs| - 1] == m then subs[..|subs| - 1]
    else RemoveLast(subs[..|subs| - 1], m) + [subs[|subs| - 1]]
  }

  /** Dispose drops exactly one subscription of the monitor, if it has one. */
  lemma {:induction false} RemoveLastSpec(subs: seq<Monitor>, m: Monitor)
    ensures multiset(RemoveLast(subs, m)) == multiset(subs) - multiset{m}
  {
    if subs != [] {
      var init := subs[..|subs| - 1];
      assert subs == init + [subs[|subs| - 1]];
      if subs[|subs| - 1] != m {
        RemoveLastSpec(init, m);
      }
    }
  }

  /** Subscribing and then disposing a monitor restores the subscriber list. */
  lemma SubscribeDisposeRoundTrip(subs: seq<Monitor>, m: Monitor)
    ensures RemoveLast(subs + [m], m) == subs
  {
    assert (subs + [m])[..|subs + [m]| - 1] == subs;
  }

  /** The static event `Signaled` with its invocation list. */
  class SignalHub {
    var subscribers: seq<Monitor>

    constructor ()
      ensures subscribers == []
    {
      subscribers := [];
    }

    /** The monitor constructor: `Signaled += OnSignalRaised`. */
    method Subscribe(m: Monitor)
      modifies this
      ensures subscribers == old(subscribers) + [m]
    {
      subscribers := subscribers + [m];
    }

    /** Dispose: `Signaled -= OnSignalRaised`. */
    method Unsubscribe(m: Monitor)
      modifies this
      ensures subscribers == RemoveLast(old(subscribers), m)
      ensures multiset(subscribers) == multiset(old(subscribers)) - multiset{m}
    {
      var j := |subscribers|;
      ghost var suffix: seq<Monitor> := [];
      assert subscribers[..j] == subscribers;
      while j > 0 && subscribers[j - 1] != m
        invariant 0 <= j <= |subscribers|
        invariant suffix == subscribers[j..]
        invariant RemoveLast(subscribers, m) == RemoveLast(subscribers[..j], m) + suffix
        invariant m !in suffix
      {
        assert subscribers[..j][..j - 1] == subscribers[..j - 1];
        suffix := [subscribers[j - 1]] + suffix;
        j := j - 1;
      }
      if j > 0 {
        assert subscribers[..j][..j - 1] == subscribers[..j - 1];
        subscribers := subscribers[..j - 1] + subscribers[j..];
      }
      RemoveLastSpec(old(subscribers), m);
    }

    /**
     * Signal: invokes every subscriber of the list as it stood when the event
     * was raised; the ones that react fire OnChanged, the cache answers by
     * removing the owning entry, and disposing that entry's monitor
     * unsubscribes it.
     */
    method Signal(cacheName: string, name: Option<string>) returns (fired: seq<Monitor>)
      modifies this
      ensures fired == Fired(old(subscribers), cacheName, name)
      ensures subscribers == Kept(old(subscribers), cacheName, name)
      ensures forall m :: m in fired <==> m in old(subscribers) && Reacts(m, cacheName, name)
      ensures forall m :: m in subscribers <==> m in old(subscribers) && !Reacts(m, cacheName, name)
      ensures multiset(fired) + multiset(subscribers) == multiset(old(subscribers))
    {
      var subs := subscribers;
      fired := [];
      var kept := [];
      var i := 0;
      while i < |subs|
        invariant 0 <= i <= |subs|
        invariant fired == Fired(subs[..i], cacheName, name)
        invariant kept == Kept(subs[..i], cacheName, name)
      {
        assert subs[..i + 1][..i] == subs[..i];
        if Reacts(subs[i], cacheName, name) {
          fired := fired + [subs[i]];
        } else {
          kept := kept + [subs[i]];
        }
        i := i + 1;
      }
      assert subs[..i] == subs;
      subscribers := kept;
      FiredSpec(subs, cacheName, name);
      KeptSpec(subs, cacheName, name);
      SignalSplitsSubscribers(subs, cacheName, name);
    }
  }
}
