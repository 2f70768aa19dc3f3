/**
 How long disk requests take (machine/disk.cc): seek, rotation, and the track
 buffer. Time is counted in ticks; a sector passes under the head in ROTATION
 ticks and the head moves by one track in the same time.
 */
module DiskTiming {
  import opened Layout

  const SECTORS_PER_TRACK := 32

  type Ticks = n: int | 0 < n witness 1

  const ROTATION: Ticks

  predicate IsSector(s: int) { 0 <= s < NUM_SECTORS }

  function Track(s: int): int { s / SECTORS_PER_TRACK }

  function Distance(a: int, b: int): nat { if a < b then b - a else a - b }

  function SeekTime(last: int, s: int): nat { Times(Distance(Track(s), Track(last)), ROTATION) }

  /** The time from t to the next sector boundary. */
  function ToBoundary(t: nat): nat {
    var over := Remainder(t, ROTATION);
    if 0 < over <= ROTATION then ROTATION - over else 0
  }

  /** The rotational delay, in sectors, from position `from` to sector `to`. */
  function ModuloDiff(to: int, from: nat): (d: nat)
    ensures d < SECTORS_PER_TRACK && (from + d - to) % SECTORS_PER_TRACK == 0
  {
    ((to % SECTORS_PER_TRACK - from % SECTORS_PER_TRACK) + SECTORS_PER_TRACK) % SECTORS_PER_TRACK
  }

  /** When the head is over the track at a sector boundary. */
  function TimeAfter(last: int, now: nat, s: int): nat {
    var seek := SeekTime(last, s);
    now + seek + ToBoundary(now + seek)
  }

  /** The track buffer answers a read on the current track. */
  predicate Buffered(last: int, bufferInit: nat, now: nat, s: int, writing: bool)
    requires bufferInit <= TimeAfter(last, now, s)
  {
    !writing && SeekTime(last, s) == 0 &&
    Quotient(TimeAfter(last, now, s) - bufferInit, ROTATION) > ModuloDiff(s, Quotient(bufferInit, ROTATION))
  }

  function Latency(last: int, bufferInit: nat, now: nat, s: int, writing: bool): nat
    requires bufferInit <= TimeAfter(last, now, s)
  {
    if Buffered(last, bufferInit, now, s, writing) then ROTATION
    else SeekTime(last, s) + ToBoundary(now + SeekTime(last, s))
         + Times(ModuloDiff(s, Quotient(TimeAfter(last, now, s), ROTATION)), ROTATION) + ROTATION
  }

  // ----- rounding to sector boundaries -----

  lemma BoundaryReached(t: nat)
    ensures ToBoundary(t) < ROTATION && Remainder(t + ToBoundary(t), ROTATION) == 0
  {
    QuotientTimes(t, ROTATION);
    var q, over := Quotient(t, ROTATION), Remainder(t, ROTATION);
    if over > 0 {
      QuotientUnique(t + ToBoundary(t), ROTATION, q + 1, 0);
    }
  }

  /** Moving on by whole sectors. */
  lemma WholeSectors(t: nat, n: nat)
    requires Remainder(t, ROTATION) == 0
    ensures Remainder(t + Times(n, ROTATION), ROTATION) == 0
    ensures Quotient(t + Times(n, ROTATION), ROTATION) == Quotient(t, ROTATION) + n
  {
    QuotientTimes(t, ROTATION);
    TimesAdd(Quotient(t, ROTATION), n, ROTATION);
    QuotientUnique(t + Times(n, ROTATION), ROTATION, Quotient(t, ROTATION) + n, 0);
  }

  lemma SectorBefore(n: int, s: int)
    requires (n - s) % 32 == 0
    ensures (n + 1) % 32 == (s + 1) % 32
  {
  }

  /** Every request the track buffer does not answer completes exactly when the
      sector has passed under the head: at a boundary, one sector further. */
  lemma CompletesAfterSector(last: int, bufferInit: nat, now: nat, s: int, writing: bool)
    requires bufferInit <= TimeAfter(last, now, s) && !Buffered(last, bufferInit, now, s, writing)
    ensures var done := now + Latency(last, bufferInit, now, s, writing);
            Remainder(done, ROTATION) == 0 && Quotient(done, ROTATION) % SECTORS_PER_TRACK == (s + 1) % SECTORS_PER_TRACK
  {
    var after := TimeAfter(last, now, s);
    BoundaryReached(now + SeekTime(last, s));
    var d := ModuloDiff(s, Quotient(after, ROTATION));
    WholeSectors(after, d + 1);
    TimesAdd(d, 1, ROTATION);
    assert Times(1, ROTATION) == Times(0, ROTATION) + ROTATION;
    SectorBefore(Quotient(after, ROTATION) + d, s);
  }

  /** No request takes less than one sector or as long as NUM_TRACKS + 32 of them. */
  lemma LatencyBounds(last: int, bufferInit: nat, now: nat, s: int, writing: bool)
    requires bufferInit <= TimeAfter(last, now, s) && IsSector(s) && IsSector(last)
    ensures ROTATION <= Latency(last, bufferInit, now, s, writing) < Times(NUM_TRACKS + SECTORS_PER_TRACK, ROTATION)
  {
    BoundaryReached(now + SeekTime(last, s));
    var seeks, d := Distance(Track(s), Track(last)), ModuloDiff(s, Quotient(TimeAfter(last, now, s), ROTATION));
    assert seeks + 1 <= NUM_TRACKS;
    TimesAdd(seeks, d, ROTATION);
    TimesMono(seeks + d, NUM_TRACKS + SECTORS_PER_TRACK - 2, ROTATION);
    TimesAdd(NUM_TRACKS + SECTORS_PER_TRACK - 2, 2, ROTATION);
    assert Times(2, ROTATION) == Times(1, ROTATION) + ROTATION && Times(1, ROTATION) == Times(0, ROTATION) + ROTATION;
  }

  // ----- the track buffer -----

  /** Sector s goes by completely in slot a: from a * ROTATION to (a + 1) * ROTATION. */
  ghost predicate Passes(s: int, a: nat, from: nat, to: nat) {
    a % SECTORS_PER_TRACK == s % SECTORS_PER_TRACK && from <= Times(a, ROTATION) && Times(a + 1, ROTATION) <= to
  }

  lemma FirstPass(s: int, from: nat, to: nat)
    requires Remainder(from, ROTATION) == 0 && from <= to
    requires Quotient(to - from, ROTATION) > ModuloDiff(s, Quotient(from, ROTATION))
    ensures Passes(s, Quotient(from, ROTATION) + ModuloDiff(s, Quotient(from, ROTATION)), from, to)
  {
    var q, d := Quotient(from, ROTATION), ModuloDiff(s, Quotient(from, ROTATION));
    QuotientTimes(from, ROTATION);
    TimesAdd(q, d, ROTATION);
    TimesAdd(q, d + 1, ROTATION);
    SlotsFit(to - from, d + 1);
    SlotOf(s, q, d);
  }

  lemma SlotsFit(t: nat, n: nat)
    requires n <= Quotient(t, ROTATION)
    ensures Times(n, ROTATION) <= t
  {
    QuotientTimes(t, ROTATION);
    if n < Quotient(t, ROTATION) {
      TimesMono(n, Quotient(t, ROTATION), ROTATION);
    }
  }

  lemma SlotOf(s: int, q: nat, d: nat)
    requires d == ModuloDiff(s, q)
    ensures (q + d) % SECTORS_PER_TRACK == s % SECTORS_PER_TRACK
  {
    assert (q + d - s) % 32 == 0;
  }

  lemma NoEarlierPass(s: int, a: nat, from: nat, to: nat)
    requires Remainder(from, ROTATION) == 0 && from <= to && Passes(s, a, from, to)
    ensures Quotient(to - from, ROTATION) > ModuloDiff(s, Quotient(from, ROTATION))
  {
    var q := Quotient(from, ROTATION);
    QuotientTimes(from, ROTATION);
    if a < q {
      TimesMono(a, q, ROTATION);
    } else {
      SameSlot(s, a, q, ModuloDiff(s, q));
      TimesAdd(q, a + 1 - q, ROTATION);
      WholeSlots(to - from, a + 1 - q);
    }
  }

  /** A time that holds n slots has at least n whole ones. */
  lemma WholeSlots(t: nat, n: nat)
    requires Times(n, ROTATION) <= t
    ensures Quotient(t, ROTATION) >= n
  {
    QuotientTimes(t, ROTATION);
    var w := Quotient(t, ROTATION);
    if w < n {
      TimesMono(w + 1, n, ROTATION);
    }
  }

  /** The first slot of a sector at or after slot q is the ModuloDiff-th. */
  lemma SameSlot(s: int, a: nat, q: nat, d: nat)
    requires a % SECTORS_PER_TRACK == s % SECTORS_PER_TRACK && a >= q && d == ModuloDiff(s, q)
    ensures a - q >= d
  {
    assert (a - (q + d)) % 32 == 0;
  }

  /** The track buffer answers exactly the reads on the current track whose
      sector goes by completely between the arrival of the head and the next
      sector boundary. */
  lemma BufferedIff(last: int, bufferInit: nat, now: nat, s: int, writing: bool)
    requires bufferInit <= TimeAfter(last, now, s) && Remainder(bufferInit, ROTATION) == 0
    ensures Buffered(last, bufferInit, now, s, writing) <==>
              && !writing && Track(s) == Track(last)
              && exists a :: Passes(s, a, bufferInit, TimeAfter(last, now, s))
  {
    var to := TimeAfter(last, now, s);
    SeekTimeZero(last, s);
    if Quotient(to - bufferInit, ROTATION) > ModuloDiff(s, Quotient(bufferInit, ROTATION)) {
      FirstPass(s, bufferInit, to);
    }
    forall a: nat | Passes(s, a, bufferInit, to)
      ensures Quotient(to - bufferInit, ROTATION) > ModuloDiff(s, Quotient(bufferInit, ROTATION))
    {
      NoEarlierPass(s, a, bufferInit, to);
    }
  }

  /** A sector has gone by completely at time `now`, in terms of the clock. */
  lemma PassedByNowIff(s: int, bufferInit: nat, now: nat)
    requires bufferInit <= now && Remainder(bufferInit, ROTATION) == 0
    ensures (exists a :: Passes(s, a, bufferInit, now)) <==>
              Quotient(now - bufferInit, ROTATION) > ModuloDiff(s, Quotient(bufferInit, ROTATION))
  {
    if Quotient(now - bufferInit, ROTATION) > ModuloDiff(s, Quotient(bufferInit, ROTATION)) {
      FirstPass(s, bufferInit, now);
    }
    forall a: nat | Passes(s, a, bufferInit, now)
      ensures Quotient(now - bufferInit, ROTATION) > ModuloDiff(s, Quotient(bufferInit, ROTATION))
    {
      NoEarlierPass(s, a, bufferInit, now);
    }
  }

  /** Rounding up to the next boundary adds one slot inside a sector, none on a boundary. */
  lemma SlotsToBoundary(from: nat, now: nat)
    requires from <= now && Remainder(from, ROTATION) == 0
    ensures Quotient(now + ToBoundary(now) - from, ROTATION) ==
            Quotient(now - from, ROTATION) + if Remainder(now, ROTATION) > 0 then 1 else 0
  {
    var q, k, over := Quotient(from, ROTATION), Quotient(now, ROTATION), Remainder(now, ROTATION);
    QuotientTimes(from, ROTATION);
    QuotientTimes(now, ROTATION);
    if k < q {
      TimesMono(k, q, ROTATION);
    } else {
      TimesAdd(q, k - q, ROTATION);
      QuotientUnique(now - from, ROTATION, k - q, over);
      if over > 0 {
        QuotientUnique(now + ToBoundary(now) - from, ROTATION, k - q + 1, 0);
      }
    }
  }

  /** The track buffer answers too early exactly when the sector is under the
      head at that moment and goes by for the first time: it has not passed yet. */
  lemma BufferedTooEarlyIff(last: int, bufferInit: nat, now: nat, s: int)
    requires bufferInit <= now && Remainder(bufferInit, ROTATION) == 0 && Track(s) == Track(last)
    ensures bufferInit <= TimeAfter(last, now, s)
    ensures Buffered(last, bufferInit, now, s, false) && !(exists a :: Passes(s, a, bufferInit, now)) <==>
              && Quotient(now - bufferInit, ROTATION) == ModuloDiff(s, Quotient(bufferInit, ROTATION))
              && Remainder(now, ROTATION) > 0
  {
    SeekTimeZero(last, s);
    SlotsToBoundary(bufferInit, now);
    PassedByNowIff(s, bufferInit, now);
  }

  /** For example, a read of sector 0 in the first sector time of all. */
  lemma BufferedTooEarly(now: nat)
    requires 0 < now < ROTATION
    ensures Buffered(0, 0, now, 0, false) && !exists a :: Passes(0, a, 0, now)
  {
    QuotientUnique(0, ROTATION, 0, 0);
    QuotientUnique(now, ROTATION, 0, now);
    BufferedTooEarlyIff(0, 0, now, 0);
  }

  lemma SeekTimeZero(last: int, s: int)
    ensures SeekTime(last, s) == 0 <==> Track(s) == Track(last)
  {
    var n := Distance(Track(s), Track(last));
    if n > 0 {
      TimesMono(1, n, ROTATION);
      assert Times(1, ROTATION) == Times(0, ROTATION) + ROTATION;
    }
  }

  // ----- the disk over a whole run -----

  /** The head came to a track. */
  datatype Arrival = Arrival(at: nat, track: int)

  /** `doneAt` is when the interrupt of the current request is scheduled, and
      `arrivals` is everything the head has done so far. */
  class Disk {
    var lastSector: int
    var bufferInit: nat
    var active: bool
    ghost var doneAt: nat
    ghost var arrivals: seq<Arrival>

    /** Whenever the disk is idle, the head has arrived where it is. */
    ghost predicate Valid(now: nat)
      reads this
    {
      && IsSector(lastSector) && Remainder(bufferInit, ROTATION) == 0
      && bufferInit <= (if active then doneAt else now)
      && arrivals != [] && arrivals[|arrivals| - 1] == Arrival(bufferInit, Track(lastSector))
    }

    constructor (now: nat)
      ensures Valid(now) && !active
    {
      lastSector, bufferInit, active, doneAt, arrivals := 0, 0, false, 0, [Arrival(0, 0)];
    }

    /** Time passes. */
    lemma Later(now: nat, later: nat)
      requires Valid(now) && now <= later
      ensures Valid(later)
    {
    }

    method TimeToSeek(now: nat, newSector: int) returns (seek: nat, rotation: nat)
      requires IsSector(newSector) && IsSector(lastSector)
      ensures seek == SeekTime(lastSector, newSector) && rotation == ToBoundary(now + seek)
    {
      seek := SeekTime(lastSector, newSector);
      rotation := ToBoundary(now + seek);
    }

    /** The unsigned difference timeAfter - bufferInit does not wrap. */
    method ComputeLatency(now: nat, newSector: int, writing: bool) returns (ticks: nat)
      requires Valid(now) && !active && IsSector(newSector)
      ensures bufferInit <= TimeAfter(lastSector, now, newSector)
      ensures ticks == Latency(lastSector, bufferInit, now, newSector, writing)
    {
      var seek, rotation := TimeToSeek(now, newSector);
      var timeAfter := now + seek + rotation;
      if !writing && seek == 0 && Quotient(timeAfter - bufferInit, ROTATION) > ModuloDiff(newSector, Quotient(bufferInit, ROTATION)) {
        return ROTATION;
      }
      rotation := rotation + Times(ModuloDiff(newSector, Quotient(timeAfter, ROTATION)), ROTATION);
      ticks := seek + rotation + ROTATION;
    }

    method UpdateLast(now: nat, newSector: int)
      requires IsSector(newSector) && IsSector(lastSector)
      modifies this`lastSector, this`bufferInit, this`arrivals
      ensures lastSector == newSector
      ensures var seek := SeekTime(old(lastSector), newSector);
              if seek != 0 then
                bufferInit == TimeAfter(old(lastSector), now, newSector)
                && arrivals == old(arrivals) + [Arrival(bufferInit, Track(newSector))]
              else bufferInit == old(bufferInit) && arrivals == old(arrivals)
    {
      var seek, rotate := TimeToSeek(now, newSector);
      if seek != 0 {
        bufferInit := now + seek + rotate;
        arrivals := arrivals + [Arrival(bufferInit, Track(newSector))];
      }
      lastSector := newSector;
    }

    /** ReadRequest and WriteRequest: the interrupt is at least one sector away. */
    method Request(now: nat, newSector: int, writing: bool) returns (ticks: nat)
      requires Valid(now) && !active && IsSector(newSector)
      modifies this
      ensures Valid(now) && active && lastSector == newSector && doneAt == now + ticks
      ensures old(bufferInit) <= TimeAfter(old(lastSector), now, newSector)
      ensures ticks == Latency(old(lastSector), old(bufferInit), now, newSector, writing)
      ensures if Buffered(old(lastSector), old(bufferInit), now, newSector, writing) then ticks == ROTATION
              else Remainder(doneAt, ROTATION) == 0
                   && Quotient(doneAt, ROTATION) % SECTORS_PER_TRACK == (newSector + 1) % SECTORS_PER_TRACK
      ensures ROTATION <= ticks < Times(NUM_TRACKS + SECTORS_PER_TRACK, ROTATION)
    {
      ticks := ComputeLatency(now, newSector, writing);
      LatencyBounds(lastSector, bufferInit, now, newSector, writing);
      if !Buffered(lastSector, bufferInit, now, newSector, writing) {
        CompletesAfterSector(lastSector, bufferInit, now, newSector, writing);
      }
      BoundaryReached(now + SeekTime(lastSector, newSector));
      SeekTimeZero(lastSector, newSector);
      active := true;
      doneAt := now + ticks;
      UpdateLast(now, newSector);
    }

    /** The completion interrupt, which is never early. */
    method HandleInterrupt(now: nat)
      requires Valid(now) && active && doneAt <= now
      modifies this`active
      ensures Valid(now) && !active
    {
      active := false;
    }
  }
}
