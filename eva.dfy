/** The EVA life-support part module (EVALifeSupportModule), which lives in
    an EVA kerbal: on start it gives the kerbal an EVA life-support pool
    (from the registry) or charges the existing one for the time it was
    unloaded; every tick it mirrors the pool into the registry, drains the
    pool by EVA_LS_DRAIN_PER_SEC·dt outside breathable air, clamps a
    downward crossing of the 30-second threshold, and kills the kerbal once
    the pool yields nothing. */
module EvaLifeSupport {
  import opened Host
  import opened Resources
  import opened Tracking
  import LifeSupport

  /** A withdrawal from a pool leaves what the registry's clamped deduction
      would leave: the reserve lowered by the request, never below 0. */
  lemma WithdrawalClamps(amount: real, max: real, req: real)
    requires 0.0 <= amount <= max && 0.0 <= req
    ensures amount - Transfer(amount, max, req) == Clamp(amount - req, 0.0, max)
  {
  }

  /** The kerbal's reserve after a drained tick: the craft ticker's drain of
      the same reserve by the same request. */
  function EvaDrained(amount: real, req: real, c: Config): (r: real)
    requires c.Valid() && 0.0 <= amount <= c.evaMax && 0.0 <= req
    ensures 0.0 <= r <= amount
  {
    LifeSupport.Drain(Info(amount, c.evaMax), req, c).current
  }

  /** The startup charge of an existing pool: the reserve after the charge,
      raised to KILL_BUFFER when that left it below. */
  function StartupFloor(charged: real, c: Config): (r: real)
    requires c.Valid()
    ensures c.killBuffer <= r
    ensures charged < c.killBuffer ==> r == c.killBuffer
    ensures c.killBuffer <= charged ==> r == charged
  {
    if charged < c.killBuffer then c.killBuffer else charged
  }

  class EvaLifeSupportModule {
    const kerbal: string        // part.protoModuleCrew[0].name
    var pool: Pool?             // the part's EVA life-support resource, if any
    var alive: bool             // false once KillKerbals and explode have run
    const c: Config
    const tracker: Tracker      // EVALifeSupportTracker
    ghost var notices: seq<Notice>
    ghost var warpForced: bool  // TimeWarp.SetRate(0) was called

    /** The registry is well formed and the pool, once there, has the
        registry's capacity. */
    predicate Valid()
      reads this, pool, tracker
    {
      && c.Valid() && tracker.Valid() && tracker.defaultMax == c.evaMax
      && (pool != null ==> pool.Valid() && pool.maxAmount == c.evaMax)
    }

    constructor (kerbal: string, pool: Pool?, c: Config, tracker: Tracker)
      requires c.Valid() && tracker.Valid() && tracker.defaultMax == c.evaMax
      requires pool != null ==> pool.Valid() && pool.maxAmount == c.evaMax
      ensures Valid() && alive && notices == [] && !warpForced
      ensures this.kerbal == kerbal && this.pool == pool && this.c == c && this.tracker == tracker
    {
      this.kerbal := kerbal;
      this.pool := pool;
      this.c := c;
      this.tracker := tracker;
      alive := true;
      notices := [];
      warpForced := false;
    }

    /** OnStart. The kerbal is tracked (full, if new). Without a pool the
        part gets one holding the kerbal's registry reserve; an existing
        pool is an EVA already under way, charged for the elapsed time (see
        StartupRequest) and floored at KILL_BUFFER, with a "seconds to live"
        message for a charged reserve between KILL_BUFFER and 30 seconds.
        The answer is the reserve right after the charge, before the
        floor. */
    method OnStart(elapsed: real) returns (charged: real)
      requires Valid() && 0.0 <= elapsed
      modifies this, tracker, pool
      ensures Valid() && pool != null && alive == old(alive) && warpForced == old(warpForced)
      ensures tracker.entries == WithTracked(old(tracker.entries), kerbal, c.evaMax)
      ensures old(pool) == null ==>
        && fresh(pool)
        && pool.amount == charged == tracker.entries[kerbal].current
        && notices == old(notices)
      ensures old(pool) != null ==>
        && pool == old(pool)
        && 0.0 <= charged <= old(pool.amount)
        && pool.amount == StartupFloor(charged, c)
        && notices == old(notices)
             + (if c.killBuffer <= charged < c.eva30Seconds then [SecondsToLive(kerbal)] else [])
    {
      tracker.AddKerbalToTracking(kerbal);
      if pool == null {
        var info := tracker.GetEVALSInfo(kerbal);
        pool := new Pool(info.current, info.max);
        charged := info.current;
      } else {
        var _ := StartupRequest(pool, c.evaDrainPerSec, elapsed);
        charged := pool.amount;
        if pool.amount < c.killBuffer {
          pool.amount := c.killBuffer;
        } else if pool.amount < c.eva30Seconds {
          notices := notices + [SecondsToLive(kerbal)];
        }
      }
    }

    /** FixedUpdate. The pool's amount is copied into the registry (the
        pool leads, the registry follows a tick behind). In breathable air
        nothing else happens. Otherwise the pool is drained by the tick's
        request and its reserve ends where the craft ticker's drain of a
        reserve would put it: a downward crossing of the 30-second
        threshold stops time warp, posts a message and sets the pool to
        exactly that threshold. The kerbal dies iff the pool handed over
        nothing, which is iff it was empty when the tick began. */
    method FixedUpdate(env: Environment, dt: real)
      requires Valid() && alive && pool != null && tracker.InTracking(kerbal) && 0.0 < dt
      modifies pool, tracker, this`alive, this`notices, this`warpForced
      ensures Valid()
      ensures tracker.entries == WithCurrent(old(tracker.entries), kerbal, old(pool.amount))
      ensures tracker.entries[kerbal].current == old(pool.amount)
      ensures Breathable(env, c) ==>
        && pool.amount == old(pool.amount) && alive
        && notices == old(notices) && warpForced == old(warpForced)
      ensures !Breathable(env, c) ==>
        var info := Info(old(pool.amount), c.evaMax);
        var req := LifeSupport.ReserveShare(dt, c);
        && pool.amount == EvaDrained(old(pool.amount), req, c)
        && notices == old(notices)
             + (if LifeSupport.Crosses(info, req, c) then [ThirtySeconds(kerbal)] else [])
        && warpForced == (old(warpForced) || LifeSupport.Crosses(info, req, c))
        && (alive <==> old(pool.amount) != 0.0)
    {
      var initial := pool.amount;
      tracker.SetCurrentEVAAmount(kerbal, initial);
      if Breathable(env, c) {
        return;
      }
      var request := c.evaDrainPerSec * dt;
      assert request == LifeSupport.ReserveShare(dt, c);
      var retd := pool.Request(request);
      WithdrawalClamps(initial, pool.maxAmount, request);
      TransferNothing(initial, pool.maxAmount, request);
      if initial > c.eva30Seconds && pool.amount <= c.eva30Seconds {
        warpForced := true;
        notices := notices + [ThirtySeconds(kerbal)];
        pool.amount := c.eva30Seconds;
      }
      if retd == 0.0 {
        alive := false;
      }
    }
  }
}
