/** Scroll-triggered reveal animations of the landing page.

    Elements are numbered `0 .. n-1`; `active[k]` is the `active` class
    marker of element `k`.  The intersection observer's callback receives a
    batch of entries and adds the marker to the target of every entry that
    is intersecting; an entry that is not intersecting changes nothing (the
    removing branch is disabled).  At start-up the three hero elements get
    the marker, each one only if the page has it. */
module RevealOnScroll {

  datatype Option<T> = None | Some(value: T)

  /** One intersection-observer entry: the observed element and whether it
      now intersects the viewport. */
  datatype Entry = Entry(target: nat, isIntersecting: bool)

  /** Every entry of the batch names one of the `n` elements. */
  predicate TargetsIn(entries: seq<Entry>, n: nat)
  {
    forall t :: 0 <= t < |entries| ==> entries[t].target < n
  }

  /** Element `k` is the target of an intersecting entry of the batch. */
  predicate Revealed(entries: seq<Entry>, k: nat)
  {
    exists t :: 0 <= t < |entries| && entries[t] == Entry(k, true)
  }

  /** The markers after the callback has handled `entries`: a marker is set
      afterwards exactly when it was set before or an intersecting entry
      targets its element. */
  function AfterCallback(m: seq<bool>, entries: seq<Entry>): (r: seq<bool>)
    requires TargetsIn(entries, |m|)
    ensures |r| == |m|
    ensures forall k :: 0 <= k < |m| ==> (r[k] <==> m[k] || Revealed(entries, k))
    decreases |entries|
  {
    if entries == [] then m
    else
      var e := entries[|entries| - 1];
      var before := AfterCallback(m, entries[..|entries| - 1]);
      assert forall k :: Revealed(entries[..|entries| - 1], k) ==> Revealed(entries, k);
      assert forall k :: Revealed(entries, k) && k != e.target ==> Revealed(entries[..|entries| - 1], k);
      if e.isIntersecting then before[e.target := true] else before
  }

  /** A callback never clears a marker. */
  lemma CallbackNeverClears(m: seq<bool>, entries: seq<Entry>, k: nat)
    requires TargetsIn(entries, |m|) && k < |m| && m[k]
    ensures AfterCallback(m, entries)[k]
  {
  }

  /** Entries that are not intersecting change nothing. */
  lemma NotIntersectingChangesNothing(m: seq<bool>, entries: seq<Entry>)
    requires TargetsIn(entries, |m|)
    requires forall t :: 0 <= t < |entries| ==> !entries[t].isIntersecting
    ensures AfterCallback(m, entries) == m
  {
  }

  /** The markers after several callbacks, one after the other.  This only
      replays callbacks; what they do is stated by `AfterCallback` and
      `MarkersOnlyGrow`. */
  function AfterCallbacks(m: seq<bool>, batches: seq<seq<Entry>>): (r: seq<bool>)
    requires forall b :: 0 <= b < |batches| ==> TargetsIn(batches[b], |m|)
    ensures |r| == |m|
    decreases |batches|
  {
    if batches == [] then m else AfterCallbacks(AfterCallback(m, batches[0]), batches[1..])
  }

  /** Once set, a marker stays set through any number of callbacks. */
  lemma {:induction false} MarkersOnlyGrow(m: seq<bool>, batches: seq<seq<Entry>>, k: nat)
    requires forall b :: 0 <= b < |batches| ==> TargetsIn(batches[b], |m|)
    requires k < |m| && m[k]
    ensures AfterCallbacks(m, batches)[k]
    decreases |batches|
  {
    if batches != [] {
      var next := AfterCallback(m, batches[0]);
      assert forall b :: 0 <= b < |batches[1..]| ==> TargetsIn(batches[1..][b], |next|);
      MarkersOnlyGrow(next, batches[1..], k);
    }
  }

  /** Every hero element the page has is one of the `n` elements. */
  predicate HeroIn(hero: seq<Option<nat>>, n: nat)
  {
    forall i :: 0 <= i < |hero| && hero[i].Some? ==> hero[i].value < n
  }

  /** The hero elements that the page has: the heading, the paragraph and
      the call-to-action of the hero section, each looked up on its own. */
  function Present(hero: seq<Option<nat>>): set<nat>
  {
    set h | h in hero && h.Some? :: h.value
  }

  /** The markers after one guarded `add`: the element's marker is set if
      the page has the element, otherwise nothing changes. */
  function ActivateIfPresent(m: seq<bool>, h: Option<nat>): (r: seq<bool>)
    requires h.Some? ==> h.value < |m|
    ensures |r| == |m|
    ensures forall k :: 0 <= k < |m| ==> (r[k] <==> m[k] || h == Some(k))
  {
    if h.Some? then m[h.value := true] else m
  }

  /** The markers after start-up, the hero elements being activated in
      turn: the marker of each hero element the page has is set, and nothing
      else changes. */
  function AfterHeroStart(m: seq<bool>, hero: seq<Option<nat>>): (r: seq<bool>)
    requires HeroIn(hero, |m|)
    ensures |r| == |m|
    ensures forall k :: 0 <= k < |m| ==> (r[k] <==> m[k] || k in Present(hero))
    decreases |hero|
  {
    if hero == [] then m
    else
      assert Present(hero) == Present([hero[0]]) + Present(hero[1..]) by {
        assert hero == [hero[0]] + hero[1..];
      }
      AfterHeroStart(ActivateIfPresent(m, hero[0]), hero[1..])
  }

  /** All `active` markers of the page's elements. */
  class RevealMarkers {
    var active: array<bool>

    /** A page of `n` elements, none of them active. */
    constructor (n: nat)
      ensures fresh(active) && active[..] == seq(n, _ => false)
    {
      active := new bool[n](_ => false);
    }

    /** The intersection observer's callback. */
    method Process(entries: seq<Entry>)
      requires TargetsIn(entries, active.Length)
      modifies active
      ensures active[..] == AfterCallback(old(active[..]), entries)
    {
      ghost var m := active[..];
      for t := 0 to |entries|
        invariant active[..] == AfterCallback(m, entries[..t])
      {
        var e := entries[t];
        assert entries[..t + 1][..t] == entries[..t];
        assert entries[..t + 1][t] == e;
        if e.isIntersecting {
          active[e.target] := true;
        }
      }
      assert entries[..|entries|] == entries;
    }

    /** The start-up activation of the hero heading, paragraph and
        call-to-action, each one only if the page has it. */
    method ActivateHero(h1: Option<nat>, p: Option<nat>, cta: Option<nat>)
      requires HeroIn([h1, p, cta], active.Length)
      modifies active
      ensures active[..] == AfterHeroStart(old(active[..]), [h1, p, cta])
    {
      assert [h1, p, cta][0] == h1 && [h1, p, cta][1] == p && [h1, p, cta][2] == cta;
      if h1.Some? {
        active[h1.value] := true;
      }
      if p.Some? {
        active[p.value] := true;
      }
      if cta.Some? {
        active[cta.value] := true;
      }
    }
  }
}
