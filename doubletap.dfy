/**
  The double-tap (tap dance) processor. Each tracked key moves through
  FirstPress -> WaitingSecondTap -> DoubleTapDetected; a second press inside the
  window is a double tap, and a periodic sweep turns expired entries into single
  taps. Time is an explicit millisecond timestamp `now` supplied by the caller.

  The processor only ever compares key codes for equality, so it is stated for
  any key type `K`; the daemon uses it with `Configuration.KeyCode`.
 */
module DoubleTap {
  import opened Text

  datatype DtState =
    | FirstPress          // pressed once, waiting for the release
    | WaitingSecondTap    // released, waiting for a second press
    | DoubleTapDetected   // second press seen, double tap emitted

  /** One tracked key; timestamps are milliseconds on a monotonic clock. */
  datatype DtKey<K> = DtKey(
    keycode: K,
    tapKey: K,
    doubleTapKey: K,
    firstPressAt: nat,
    firstReleaseAt: Option<nat>,
    state: DtState)

  datatype DtResolution<K> = SingleTap(key: K) | DoubleTap(key: K) | Undecided

  type U64 = n: int | 0 <= n < 0x1_0000_0000_0000_0000

  datatype DtConfig = DtConfig(doubleTapWindowMs: U64)

  /** The default configuration: a 250 ms window. */
  function DefaultDtConfig(): (c: DtConfig)
    ensures c.doubleTapWindowMs == 250
  {
    DtConfig(250)
  }

  /** Milliseconds from `since` to `now`; a monotonic clock never runs backwards, so this saturates at 0. */
  function Elapsed(now: nat, since: nat): nat {
    if now >= since then now - since else 0
  }

  type Table<K(==)> = map<K, DtKey<K>>

  /**
    The table invariant: each entry is filed under its own key code, and the
    release time is recorded exactly when the entry has left FirstPress.
   */
  predicate WellFormed<K(==)>(t: Table<K>) {
    forall k :: k in t ==>
      t[k].keycode == k && (t[k].firstReleaseAt.Some? <==> t[k].state != FirstPress)
  }

  /** A fresh entry for a first press at `now`. */
  function NewEntry<K(==)>(keycode: K, tapKey: K, doubleTapKey: K, now: nat): DtKey<K> {
    DtKey(keycode, tapKey, doubleTapKey, now, None, FirstPress)
  }

  /** A press of this entry's key at `now` completes a double tap (inclusive window). */
  predicate SecondTapInWindow<K(==)>(e: DtKey<K>, windowMs: nat, now: nat) {
    e.state == WaitingSecondTap && e.firstReleaseAt.Some? && Elapsed(now, e.firstReleaseAt.value) <= windowMs
  }

  /** The entry's window has run out (exclusive: at exactly the window it has not). */
  predicate Expired<K(==)>(e: DtKey<K>, windowMs: nat, now: nat) {
    match e.state
    case WaitingSecondTap => e.firstReleaseAt.Some? && Elapsed(now, e.firstReleaseAt.value) > windowMs
    case FirstPress => Elapsed(now, e.firstPressAt) > windowMs
    case DoubleTapDetected => false
  }

  // ---------------------------------------------------------------------------
  // The processor's transitions, as functions of the table

  function PressResult<K(==)>(t: Table<K>, windowMs: nat, keycode: K, now: nat): DtResolution<K> {
    if keycode in t && SecondTapInWindow(t[keycode], windowMs, now)
    then DoubleTap(t[keycode].doubleTapKey)
    else Undecided
  }

  function PressTable<K(==)>(t: Table<K>, windowMs: nat, keycode: K, tapKey: K, doubleTapKey: K, now: nat): Table<K> {
    if keycode in t && SecondTapInWindow(t[keycode], windowMs, now)
    then t[keycode := t[keycode].(state := DoubleTapDetected)]
    else t[keycode := NewEntry(keycode, tapKey, doubleTapKey, now)]
  }

  function ReleaseTable<K(==)>(t: Table<K>, keycode: K, now: nat): Table<K> {
    if keycode !in t then t
    else
      match t[keycode].state
      case FirstPress => t[keycode := t[keycode].(state := WaitingSecondTap, firstReleaseAt := Some(now))]
      case DoubleTapDetected => t - {keycode}
      case WaitingSecondTap => t
  }

  function ExpiredKeys<K(==)>(t: Table<K>, windowMs: nat, now: nat): set<K> {
    set k | k in t && Expired(t[k], windowMs, now)
  }

  function TimeoutTable<K(==)>(t: Table<K>, windowMs: nat, now: nat): Table<K> {
    t - ExpiredKeys(t, windowMs, now)
  }

  // ---------------------------------------------------------------------------
  // Properties of the transitions

  /** Pressing an untracked key starts tracking it in FirstPress and decides nothing yet. */
  lemma PressUntracked<K>(t: Table<K>, windowMs: nat, keycode: K, tapKey: K, doubleTapKey: K, now: nat)
    requires keycode !in t
    ensures PressResult(t, windowMs, keycode, now) == Undecided
    ensures var t' := PressTable(t, windowMs, keycode, tapKey, doubleTapKey, now);
            && keycode in t'
            && t'[keycode].state == FirstPress && t'[keycode].firstReleaseAt == None
            && t'[keycode].firstPressAt == now && t'[keycode].tapKey == tapKey
            && t'[keycode].doubleTapKey == doubleTapKey
            && |t'| == |t| + 1
            && forall k :: k in t ==> k in t' && t'[k] == t[k]
  {
  }

  /**
    A second press inside the window yields the double-tap key stored at the first
    press (not the one passed now), marks the entry DoubleTapDetected, and changes
    nothing else.
   */
  lemma PressDoubleTap<K>(t: Table<K>, windowMs: nat, keycode: K, tapKey: K, doubleTapKey: K, now: nat)
    requires keycode in t && t[keycode].state == WaitingSecondTap
    requires t[keycode].firstReleaseAt.Some? && Elapsed(now, t[keycode].firstReleaseAt.value) <= windowMs
    ensures PressResult(t, windowMs, keycode, now) == DoubleTap(t[keycode].doubleTapKey)
    ensures var t' := PressTable(t, windowMs, keycode, tapKey, doubleTapKey, now);
            && t'.Keys == t.Keys
            && t'[keycode] == t[keycode].(state := DoubleTapDetected)
            && forall k :: k in t && k != keycode ==> t'[k] == t[k]
  {
  }

  /**
    Any other press of a tracked key (still held, already double-tapped, or too late)
    starts over with a fresh FirstPress entry and decides nothing; the number of
    tracked keys stays the same.
   */
  lemma PressRestarts<K>(t: Table<K>, windowMs: nat, keycode: K, tapKey: K, doubleTapKey: K, now: nat)
    requires keycode in t && !SecondTapInWindow(t[keycode], windowMs, now)
    ensures PressResult(t, windowMs, keycode, now) == Undecided
    ensures var t' := PressTable(t, windowMs, keycode, tapKey, doubleTapKey, now);
            && t'.Keys == t.Keys && |t'| == |t|
            && t'[keycode] == NewEntry(keycode, tapKey, doubleTapKey, now)
            && forall k :: k in t && k != keycode ==> t'[k] == t[k]
  {
  }

  /** A press is a double tap exactly when the key waits for its second tap and the release is at most a window old. */
  lemma PressDoubleTapIff<K>(t: Table<K>, windowMs: nat, keycode: K, now: nat)
    ensures PressResult(t, windowMs, keycode, now).DoubleTap? <==>
              keycode in t && t[keycode].state == WaitingSecondTap && t[keycode].firstReleaseAt.Some?
              && Elapsed(now, t[keycode].firstReleaseAt.value) <= windowMs
    ensures !PressResult(t, windowMs, keycode, now).SingleTap?
  {
  }

  /** Releasing the first press starts the wait for a second tap at `now`. */
  lemma ReleaseFirstPress<K>(t: Table<K>, keycode: K, now: nat)
    requires keycode in t && t[keycode].state == FirstPress
    ensures var t' := ReleaseTable(t, keycode, now);
            && t'.Keys == t.Keys
            && t'[keycode] == t[keycode].(state := WaitingSecondTap, firstReleaseAt := Some(now))
            && forall k :: k in t && k != keycode ==> t'[k] == t[k]
  {
  }

  /** Releasing after a double tap forgets the key and nothing else. */
  lemma ReleaseAfterDoubleTap<K>(t: Table<K>, keycode: K, now: nat)
    requires keycode in t && t[keycode].state == DoubleTapDetected
    ensures var t' := ReleaseTable(t, keycode, now);
            && t'.Keys == t.Keys - {keycode} && |t'| == |t| - 1
            && forall k :: k in t' ==> t'[k] == t[k]
  {
    var t' := ReleaseTable(t, keycode, now);
    assert t'.Keys == t.Keys - {keycode};
    assert |t.Keys - {keycode}| == |t.Keys| - 1;
  }

  /** A release of an untracked key, or of one already waiting for its second tap, changes nothing. */
  lemma ReleaseIgnored<K>(t: Table<K>, keycode: K, now: nat)
    requires keycode !in t || t[keycode].state == WaitingSecondTap
    ensures ReleaseTable(t, keycode, now) == t
  {
  }

  /** The sweep removes exactly the expired entries and leaves every other entry as it was. */
  lemma TimeoutRemovesExactlyExpired<K>(t: Table<K>, windowMs: nat, now: nat)
    ensures var t' := TimeoutTable(t, windowMs, now);
            && (forall k :: k in t' <==> k in t && !Expired(t[k], windowMs, now))
            && (forall k :: k in t' ==> t'[k] == t[k])
  {
  }

  /** A double-tapped entry never expires; it leaves only on its release. */
  lemma TimeoutKeepsDoubleTapped<K>(t: Table<K>, windowMs: nat, now: nat, keycode: K)
    requires keycode in t && t[keycode].state == DoubleTapDetected
    ensures keycode in TimeoutTable(t, windowMs, now)
  {
  }

  /**
    The window boundary: a second press exactly one window after the release still
    counts as a double tap, and the sweep at that instant does not expire the entry.
   */
  lemma WindowBoundary<K>(e: DtKey<K>, windowMs: nat, release: nat)
    requires e.state == WaitingSecondTap && e.firstReleaseAt == Some(release)
    ensures SecondTapInWindow(e, windowMs, release + windowMs)
    ensures !Expired(e, windowMs, release + windowMs)
    ensures Expired(e, windowMs, release + windowMs + 1)
    ensures !SecondTapInWindow(e, windowMs, release + windowMs + 1)
  {
  }

  /**
    The same boundary for a key still held down: the sweep exactly one window after
    the press keeps the entry, and one millisecond later it expires.
   */
  lemma HeldKeyBoundary<K>(e: DtKey<K>, windowMs: nat)
    requires e.state == FirstPress
    ensures !Expired(e, windowMs, e.firstPressAt + windowMs)
    ensures Expired(e, windowMs, e.firstPressAt + windowMs + 1)
  {
  }

  /** Each transition keeps the table invariant. */
  lemma PressPreservesWellFormed<K>(t: Table<K>, windowMs: nat, keycode: K, tapKey: K, doubleTapKey: K, now: nat)
    requires WellFormed(t)
    ensures WellFormed(PressTable(t, windowMs, keycode, tapKey, doubleTapKey, now))
  {
    var t' := PressTable(t, windowMs, keycode, tapKey, doubleTapKey, now);
    forall k | k in t'
      ensures t'[k].keycode == k && (t'[k].firstReleaseAt.Some? <==> t'[k].state != FirstPress)
    {
      if k != keycode {
        assert t'[k] == t[k];
      }
    }
  }

  lemma ReleasePreservesWellFormed<K>(t: Table<K>, keycode: K, now: nat)
    requires WellFormed(t)
    ensures WellFormed(ReleaseTable(t, keycode, now))
  {
  }

  lemma TimeoutPreservesWellFormed<K>(t: Table<K>, windowMs: nat, now: nat)
    requires WellFormed(t)
    ensures WellFormed(TimeoutTable(t, windowMs, now))
  {
  }

  // ---------------------------------------------------------------------------
  // The processor

  class DtProcessor<K(==)> {
    const config: DtConfig
    var tracked: Table<K>

    ghost predicate Valid()
      reads this
    {
      WellFormed(tracked)
    }

    /** A new processor tracks no keys. */
    constructor (config: DtConfig)
      ensures Valid()
      ensures this.config == config && tracked == map[]
    {
      this.config := config;
      tracked := map[];
    }

    /** Handles a press of `keycode`, which taps `tapKey` and double-taps `doubleTapKey`. */
    method OnPress(keycode: K, tapKey: K, doubleTapKey: K, now: nat) returns (r: DtResolution<K>)
      requires Valid()
      modifies this
      ensures Valid()
      ensures r == PressResult(old(tracked), config.doubleTapWindowMs, keycode, now)
      ensures tracked == PressTable(old(tracked), config.doubleTapWindowMs, keycode, tapKey, doubleTapKey, now)
    {
      if keycode in tracked {
        var dtKey := tracked[keycode];
        if dtKey.state == WaitingSecondTap {
          if dtKey.firstReleaseAt.Some? {
            var elapsed := Elapsed(now, dtKey.firstReleaseAt.value);
            if elapsed <= config.doubleTapWindowMs {
              tracked := tracked[keycode := dtKey.(state := DoubleTapDetected)];
              return DoubleTap(dtKey.doubleTapKey);
            }
          }
        }
        // too late, or not waiting: complete the previous tap and start a new one
        tracked := tracked - {keycode};
      }
      tracked := tracked[keycode := NewEntry(keycode, tapKey, doubleTapKey, now)];
      r := Undecided;
    }

    /** Handles a release of `keycode`; a release never decides anything by itself. */
    method OnRelease(keycode: K, now: nat) returns (r: DtResolution<K>)
      requires Valid()
      modifies this
      ensures Valid()
      ensures r == Undecided
      ensures tracked == ReleaseTable(old(tracked), keycode, now)
    {
      if keycode in tracked {
        var dtKey := tracked[keycode];
        match dtKey.state {
          case FirstPress =>
            tracked := tracked[keycode := dtKey.(state := WaitingSecondTap, firstReleaseAt := Some(now))];
          case DoubleTapDetected =>
            tracked := tracked - {keycode};
          case WaitingSecondTap =>
        }
      }
      r := Undecided;
    }

    /**
      Resolves every expired entry as a single tap of its tap key and stops
      tracking it. Each expired key is reported exactly once; the order is
      unspecified.
     */
    method CheckTimeouts(now: nat) returns (resolutions: seq<(K, DtResolution<K>)>)
      requires Valid()
      modifies this
      ensures Valid()
      ensures tracked == TimeoutTable(old(tracked), config.doubleTapWindowMs, now)
      ensures forall i :: 0 <= i < |resolutions| ==>
                && resolutions[i].0 in ExpiredKeys(old(tracked), config.doubleTapWindowMs, now)
                && resolutions[i].1 == SingleTap(old(tracked)[resolutions[i].0].tapKey)
      ensures forall k :: k in ExpiredKeys(old(tracked), config.doubleTapWindowMs, now) ==>
                exists i :: 0 <= i < |resolutions| && resolutions[i].0 == k
      ensures forall i, j :: 0 <= i < j < |resolutions| ==> resolutions[i].0 != resolutions[j].0
    {
      var windowMs := config.doubleTapWindowMs;
      var expired := set k | k in tracked && Expired(tracked[k], windowMs, now);
      ghost var before := tracked;
      resolutions := [];
      var pending := expired;
      while pending != {}
        invariant pending <= expired
        invariant tracked == before - (expired - pending)
        invariant forall i :: 0 <= i < |resolutions| ==>
                    && resolutions[i].0 in expired - pending
                    && resolutions[i].1 == SingleTap(before[resolutions[i].0].tapKey)
        invariant forall k :: k in expired - pending ==> exists i :: 0 <= i < |resolutions| && resolutions[i].0 == k
        invariant forall i, j :: 0 <= i < j < |resolutions| ==> resolutions[i].0 != resolutions[j].0
        decreases pending
      {
        var keycode :| keycode in pending;
        if keycode in tracked {
          var dtKey := tracked[keycode];
          ghost var previous := resolutions;
          tracked := tracked - {keycode};
          resolutions := resolutions + [(keycode, SingleTap(dtKey.tapKey))];
          forall k | k in expired - (pending - {keycode})
            ensures exists i :: 0 <= i < |resolutions| && resolutions[i].0 == k
          {
            if k == keycode {
              assert resolutions[|previous|].0 == k;
            } else {
              assert k in expired - pending;
              var i :| 0 <= i < |previous| && previous[i].0 == k;
              assert resolutions[i] == previous[i];
            }
          }
        }
        pending := pending - {keycode};
      }
    }

    /** The number of keys currently tracked. */
    function TrackedCount(): nat
      reads this
    {
      |tracked|
    }
  }
}
