/**
 * The "metrics" rate-limit policy: a fixed-window limiter per remote
 * address, 10 permits per one-hour window, no queue. A request that finds
 * its partition's window used up is rejected with 429.
 *
 * Time is an abstract clock in seconds. A window opens when a partition is
 * first seen, and a fresh one opens at the first request after the current
 * one has elapsed.
 */
module RateLimiting {
  import opened Wrappers

  const PermitLimit: nat := 10
  /** One hour, in seconds. */
  const WindowLength: nat := 3600

  /** The state of one partition: when its window opened and how many permits it has handed out. */
  datatype Window = Window(start: nat, count: nat)

  /** The window in force at now: a fresh one for a new partition or once the old window has elapsed. */
  function Current(w: Option<Window>, now: nat): (c: Window)
    ensures now < c.start + WindowLength
    ensures c.start == now || (w.Some? && c == w.value)
    ensures w.None? ==> c.count == 0
    ensures w.Some? && now < w.value.start + WindowLength ==> c == w.value
    ensures (w.None? || w.value.start + WindowLength <= now) ==> c == Window(now, 0)
  {
    match w
    case None => Window(now, 0)
    case Some(x) => if x.start + WindowLength <= now then Window(now, 0) else x
  }

  datatype Decision = Decision(window: Window, permitted: bool)

  /** One request against a partition: take a permit if one is left in the current window. */
  function Acquire(w: Option<Window>, now: nat): (d: Decision)
    ensures d.permitted <==> Current(w, now).count < PermitLimit
    ensures d.window.start == Current(w, now).start
    ensures Current(w, now).count <= PermitLimit ==> d.window.count <= PermitLimit
    ensures d.window.count == Current(w, now).count + (if d.permitted then 1 else 0)
  {
    var c := Current(w, now);
    if c.count < PermitLimit then Decision(c.(count := c.count + 1), true) else Decision(c, false)
  }

  /** How many of the admission times in log are at or after from. */
  function CountSince(log: seq<nat>, from: nat): (n: nat)
    ensures n <= |log|
  {
    if log == [] then 0
    else CountSince(log[..|log| - 1], from) + (if log[|log| - 1] >= from then 1 else 0)
  }

  lemma {:induction false} CountSinceNone(log: seq<nat>, from: nat)
    requires forall n :: 0 <= n < |log| ==> log[n] < from
    ensures CountSince(log, from) == 0
  {
    if log != [] {
      CountSinceNone(log[..|log| - 1], from);
    }
  }

  /**
   * The bookkeeping of one partition agrees with the times it admitted: the
   * count is the number admitted since the window opened, never more than
   * the limit, and every admission happened before the window closes.
   */
  ghost predicate Consistent(w: Window, log: seq<nat>, clock: nat) {
    && w.start <= clock
    && w.count <= PermitLimit
    && CountSince(log, w.start) == w.count
    && forall n :: 0 <= n < |log| ==> log[n] <= clock && log[n] < w.start + WindowLength
  }

  /**
   * A request is admitted exactly when fewer than PermitLimit requests were
   * admitted in the current window, and the bookkeeping stays consistent.
   */
  lemma AcquirePreserves(w: Option<Window>, log: seq<nat>, clock: nat, now: nat)
    requires clock <= now
    requires w.None? ==> log == []
    requires w.Some? ==> Consistent(w.value, log, clock)
    ensures var d := Acquire(w, now);
      d.permitted <==> CountSince(log, Current(w, now).start) < PermitLimit
    ensures var d := Acquire(w, now);
      Consistent(d.window, if d.permitted then log + [now] else log, now)
  {
    var c := Current(w, now);
    var d := Acquire(w, now);
    if c.start == now && (w.None? || w.value.start + WindowLength <= now) {
      CountSinceNone(log, now);
    }
    if d.permitted {
      assert (log + [now])[..|log|] == log;
    }
  }

  /** A window that has handed out all its permits rejects until it elapses. */
  lemma FullWindowRejects(w: Window, now: nat)
    requires w.count >= PermitLimit && now < w.start + WindowLength
    ensures !Acquire(Some(w), now).permitted
  {
  }

  /** Once the window has elapsed, the next request is admitted and opens a new window. */
  lemma ElapsedWindowAdmits(w: Window, now: nat)
    requires w.start + WindowLength <= now
    ensures Acquire(Some(w), now) == Decision(Window(now, 1), true)
  {
  }

  /** The limiter's partitions: one window per remote address. */
  class FixedWindowLimiter<K(==)> {
    var windows: map<K, Window>
    /** The latest time a request was seen. */
    var clock: nat
    /** The times at which each partition admitted a request. */
    ghost var admitted: map<K, seq<nat>>

    ghost predicate Valid()
      reads this
    {
      && windows.Keys == admitted.Keys
      && forall p :: p in windows ==> Consistent(windows[p], admitted[p], clock)
    }

    constructor (start: nat)
      ensures Valid() && windows == map[] && admitted == map[] && clock == start
    {
      windows := map[];
      admitted := map[];
      clock := start;
    }

    function Lookup(p: K): Option<Window>
      reads this
    {
      if p in windows then Some(windows[p]) else None
    }

    ghost function History(p: K): seq<nat>
      reads this
    {
      if p in admitted then admitted[p] else []
    }

    /**
     * Asks for one permit for partition at time now. Only that partition's
     * window changes; every other partition is left as it was.
     */
    method TryAcquire(partition: K, now: nat) returns (permitted: bool)
      requires Valid() && clock <= now
      modifies this
      ensures Valid() && clock == now
      ensures permitted <==>
        CountSince(old(History(partition)), Current(old(Lookup(partition)), now).start) < PermitLimit
      ensures var d := Acquire(old(Lookup(partition)), now);
        permitted == d.permitted && windows == old(windows)[partition := d.window]
      ensures admitted == old(admitted)[partition := old(History(partition)) + if permitted then [now] else []]
      ensures forall p :: p != partition ==>
        (p in windows <==> p in old(windows)) && (p in windows ==> windows[p] == old(windows)[p])
    {
      ghost var d := Acquire(Lookup(partition), now);
      ghost var log := History(partition);
      var window: Window;
      if partition !in windows || windows[partition].start + WindowLength <= now {
        window := Window(now, 0);
      } else {
        window := windows[partition];
      }
      permitted := window.count < PermitLimit;
      if permitted {
        window := window.(count := window.count + 1);
      }
      assert window == d.window && permitted == d.permitted;
      AcquirePreserves(Lookup(partition), log, clock, now);
      windows := windows[partition := window];
      admitted := admitted[partition := log + if permitted then [now] else []];
      clock := now;
      forall p | p in windows
        ensures Consistent(windows[p], admitted[p], clock)
      {
        if p != partition {
          assert Consistent(old(windows)[p], old(admitted)[p], old(clock));
        } else {
          assert admitted[p] == if permitted then log + [now] else log;
        }
      }
    }
  }
}
