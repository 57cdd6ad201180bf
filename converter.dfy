/** The Consumables-to-LifeSupport converter part module (Cons2LSModule):
    a READY/CONVERTING machine that, while converting and manned by an
    engineer, pulls electricity and consumables from its part and pushes
    life support into the vessel, rolling every resource back to the
    worst-supplied fraction on a shortfall; and the "Refill EVA" command. */
module Converter {
  import opened Host
  import opened Resources
  import opened Tracking

  datatype ConverterStatus = Ready | Converting

  /** ToggleStatus swaps the two states. */
  function Toggled(s: ConverterStatus): (r: ConverterStatus)
    ensures r != s
  {
    match s
    case Converting => Ready
    case Ready => Converting
  }

  lemma ToggleTwice(s: ConverterStatus)
    ensures Toggled(Toggled(s)) == s
  {
  }

  /** The text shown in the part's "Converter" field; distinct states get
      distinct texts. */
  function StatusToString(s: ConverterStatus): (r: string)
    ensures r == "Ready" <==> s == Ready
    ensures r == "Converting" <==> s == Converting
  {
    match s
    case Converting => "Converting"
    case Ready => "Ready"
  }

  /** The converter may run only if some crew member in the part has the
      Engineer trait. */
  predicate HasEngineer(crew: seq<CrewMember>) {
    exists i :: 0 <= i < |crew| && crew[i].traitName == "Engineer"
  }

  /** ProperlyManned: scans the part's crew for an engineer. */
  method ProperlyManned(crew: seq<CrewMember>) returns (r: bool)
    ensures r <==> HasEngineer(crew)
  {
    var i := 0;
    while i < |crew|
      invariant 0 <= i <= |crew|
      invariant forall j :: 0 <= j < i ==> crew[j].traitName != "Engineer"
    {
      if crew[i].traitName == "Engineer" {
        return true;
      }
      i := i + 1;
    }
    return false;
  }

  function MinFrac(a: real, b: real, c: real): (m: real)
    ensures m <= a && m <= b && m <= c
    ensures m == a || m == b || m == c
  {
    Min(Min(a, b), c)
  }

  /** One pull: the signed amount obtained and the fraction of the request
      it represents. */
  datatype Pulled = Pulled(obtained: real, frac: real)

  /** PullResource as the converter's model performs it: a request of req
      (rate·dt) from a pool holding amount out of max. The fraction lies in
      [0, 1], times the request it gives back the amount obtained, and it is
      1 exactly when the pool honours the request in full. */
  function Pull(amount: real, max: real, req: real): (p: Pulled)
    requires 0.0 <= amount <= max && req != 0.0
    ensures 0.0 <= p.frac <= 1.0
    ensures 0.0 <= amount - p.obtained <= max
  {
    var got := Transfer(amount, max, req);
    FractionOfRequest(got, req);
    Pulled(got, Abs(got / req))
  }

  /** The fraction times the request gives back the amount obtained, and
      the fraction is 1 exactly when the request is honoured in full. */
  lemma PullScales(amount: real, max: real, req: real)
    requires 0.0 <= amount <= max && req != 0.0
    ensures var p := Pull(amount, max, req);
      && p.obtained == p.frac * req
      && (p.frac == 1.0 <==> p.obtained == req)
  {
    FractionOfRequest(Transfer(amount, max, req), req);
  }

  /** An amount moved in the direction of a request and no larger than it
      is the request scaled by a factor in [0, 1]. */
  lemma FractionOfRequest(got: real, req: real)
    requires req != 0.0
    requires 0.0 <= req ==> 0.0 <= got <= req
    requires req <= 0.0 ==> req <= got <= 0.0
    ensures 0.0 <= Abs(got / req) <= 1.0
    ensures got == Abs(got / req) * req
    ensures Abs(got / req) == 1.0 <==> got == req
  {
    var f := got / req;
    QuotientTimes(got, req);
    if 0.0 < req {
      BelowOne(got, req);
    } else {
      BelowOne(-got, -req);
      QuotientOfNegatives(got, req);
    }
    assert Abs(f) == f;
    if got == req {
      QuotientTimes(req, req);
      UnitFactor(f, req);
    }
  }

  lemma BelowOne(g: real, r: real)
    requires 0.0 <= g <= r && 0.0 < r
    ensures 0.0 <= g / r <= 1.0
  {
  }

  lemma QuotientTimes(g: real, r: real)
    requires r != 0.0
    ensures g / r * r == g
  {
  }

  lemma QuotientOfNegatives(g: real, r: real)
    requires r != 0.0
    ensures (-g) / (-r) == g / r
  {
  }

  /** A factor that leaves a non-zero amount unchanged is 1. */
  lemma UnitFactor(f: real, r: real)
    requires r != 0.0 && f * r == r
    ensures f == 1.0
  {
    assert (f - 1.0) * r == 0.0;
  }

  /** PullResource exactly as the source writes it: it requests the
      per-second amount, not amount·dt, but divides by amount·dt. */
  function PullAsWritten(amount: real, max: real, rate: real, dt: real): (p: Pulled)
    requires 0.0 <= amount <= max && rate * dt != 0.0
    ensures 0.0 <= p.frac
    ensures 0.0 <= amount - p.obtained <= max
  {
    var got := Transfer(amount, max, rate);
    Pulled(got, Abs(got / (rate * dt)))
  }

  /** Whenever the pool covers the per-second amount and a tick is shorter
      than a second, the as-written fraction is 1/dt, above 1. */
  lemma PullAsWrittenOvershoots(amount: real, max: real, rate: real, dt: real)
    requires 0.0 < rate <= amount <= max && 0.0 < dt < 1.0
    ensures PullAsWritten(amount, max, rate, dt).frac == 1.0 / dt
    ensures 1.0 < PullAsWritten(amount, max, rate, dt).frac
    ensures PullAsWritten(amount, max, rate, dt).obtained == rate
  {
    assert rate / (rate * dt) == 1.0 / dt;
    assert 1.0 / dt > 1.0 by {
      assert (1.0 / dt) * dt == 1.0;
    }
  }

  /** The rollback as written is still right: with the as-written
      fraction f = |got/(rate·dt)| and 0 <= m <= f, the corrective request
      (m - f)·rate·dt is honoured in full and leaves the pool charged
      exactly m·rate·dt, as with the corrected pull. */
  lemma PullAsWrittenRollback(amount: real, max: real, rate: real, dt: real, m: real)
    requires 0.0 <= amount <= max && 0.0 < dt && rate * dt != 0.0
    requires 0.0 <= m <= PullAsWritten(amount, max, rate, dt).frac
    ensures var p := PullAsWritten(amount, max, rate, dt);
      var q := Correction(m, p.frac, PerTick(rate, dt));
      && Transfer(amount - p.obtained, max, q) == q
      && amount - p.obtained - q == amount - m * PerTick(rate, dt)
  {
    var p := PullAsWritten(amount, max, rate, dt);
    var req := PerTick(rate, dt);
    var got := p.obtained;
    SameSignQuotient(got, req);
    assert got == p.frac * req;
    UndoBetween(req, got, p.frac, m);
    WithinPool(amount, max, got, m * req);
    TransferInFull(amount - got, max, Correction(m, p.frac, req));
  }

  /** An amount moved in the direction of a request is the request scaled
      by a non-negative factor (not necessarily at most 1). */
  lemma SameSignQuotient(got: real, req: real)
    requires req != 0.0
    requires 0.0 < req ==> 0.0 <= got
    requires req < 0.0 ==> got <= 0.0
    ensures got == Abs(got / req) * req
  {
    QuotientTimes(got, req);
    if req < 0.0 {
      QuotientOfNegatives(got, req);
      assert 0.0 <= (-got) / (-req);
    }
  }

  /** A full pool of 10, a rate of 1 per second and a 0.02 s tick: the
      as-written pull takes 1 unit (50 ticks' worth) and reports 50. */
  lemma PullAsWrittenExample()
    ensures PullAsWritten(10.0, 10.0, 1.0, 0.02) == Pulled(1.0, 50.0)
    ensures Pull(10.0, 10.0, 1.0 * 0.02) == Pulled(0.02, 1.0)
  {
  }

  /** The message PullResource posts: one exactly when the fraction is
      below the tolerance, "not enough" for a withdrawal and "is full" for
      a deposit. */
  function PullNotices(resource: Resource, req: real, frac: real, almostOne: real): (r: seq<Notice>)
    ensures |r| <= 1
    ensures r != [] <==> frac < almostOne
    ensures r != [] && 0.0 <= req ==> r[0] == NotEnough(resource)
    ensures r != [] && req < 0.0 ==> r[0] == IsFull(resource)
  {
    if frac < almostOne then
      (if 0.0 <= req then [NotEnough(resource)] else [IsFull(resource)])
    else []
  }

  /** Every corrective factor (min_frac - frac) is at most 0, and it is 0
      for the limiting resource. */
  lemma CorrectionFactors(fe: real, fc: real, fl: real)
    ensures var m := MinFrac(fe, fc, fl);
      && m - fe <= 0.0 && m - fc <= 0.0 && m - fl <= 0.0
      && (m - fe == 0.0 || m - fc == 0.0 || m - fl == 0.0)
  {
  }

  /** The corrective request (m - frac)·req only moves back part of what
      the pull of req just moved, so the pool always honours it, and the
      pool's net change is then exactly m·req: every resource ends up
      consumed at the tick's minimum fraction m. */
  lemma CorrectionHonoured(amount: real, max: real, req: real, m: real)
    requires 0.0 <= amount <= max && req != 0.0
    requires 0.0 <= m <= Pull(amount, max, req).frac
    ensures var p := Pull(amount, max, req);
      var q := Correction(m, p.frac, req);
      && Transfer(amount - p.obtained, max, q) == q
      && amount - p.obtained - q == amount - m * req
  {
    var p := Pull(amount, max, req);
    PullScales(amount, max, req);
    CorrectionFits(amount, max, req, p.obtained, p.frac, m);
  }

  /** The corrective request m·req - got, where got = f·req was moved by a
      request req and 0 <= m <= f, lies between nothing and undoing got, so
      the pool honours it in full. */
  lemma CorrectionFits(amount: real, max: real, req: real, got: real, f: real, m: real)
    requires 0.0 <= amount - got <= max && amount <= max && 0.0 <= amount
    requires got == f * req && 0.0 <= m <= f
    requires 0.0 <= req ==> 0.0 <= got <= req
    requires req <= 0.0 ==> req <= got <= 0.0
    ensures Correction(m, f, req) == m * req - got
    ensures Transfer(amount - got, max, Correction(m, f, req)) == Correction(m, f, req)
  {
    UndoBetween(req, got, f, m);
    WithinPool(amount, max, got, m * req);
    TransferInFull(amount - got, max, Correction(m, f, req));
  }

  /** m·req, for 0 <= m <= f, lies between nothing and got = f·req. */
  lemma UndoBetween(req: real, got: real, f: real, m: real)
    requires got == f * req && 0.0 <= m <= f
    ensures 0.0 < req ==> 0.0 <= m * req <= got
    ensures req < 0.0 ==> got <= m * req <= 0.0
    ensures req == 0.0 ==> m * req == 0.0 == got
  {
    if 0.0 < req {
      ScaleBetween(m, f, req);
    } else if req < 0.0 {
      ScaleBetweenNegative(m, f, req);
    }
  }

  /** Undoing part of a transfer keeps the pool between empty and full. */
  lemma WithinPool(amount: real, max: real, got: real, x: real)
    requires 0.0 <= amount <= max && 0.0 <= amount - got <= max
    requires (0.0 <= x <= got) || (got <= x <= 0.0)
    ensures 0.0 <= (amount - got) - (x - got) <= max
  {
  }

  /** The request of one tick: a per-second rate over dt seconds. */
  function PerTick(rate: real, dt: real): real {
    rate * dt
  }

  /** A non-zero rate over a positive tick asks for something. */
  lemma NonZeroRequest(rate: real, dt: real)
    requires rate != 0.0 && 0.0 < dt
    ensures PerTick(rate, dt) != 0.0
  {
  }

  lemma Regroup(a: real, b: real, c: real)
    ensures a * b * c == a * (b * c)
  {
  }

  /** Scaling by a positive factor keeps 0 <= m <= f in order. */
  lemma ScaleBetween(m: real, f: real, r: real)
    requires 0.0 <= m <= f && 0.0 < r
    ensures 0.0 <= m * r <= f * r
  {
  }

  /** Scaling by a negative factor reverses 0 <= m <= f. */
  lemma ScaleBetweenNegative(m: real, f: real, r: real)
    requires 0.0 <= m <= f && r < 0.0
    ensures f * r <= m * r <= 0.0
  {
    ScaleBetween(m, f, -r);
    assert m * -r == -(m * r) && f * -r == -(f * r);
  }

  /** One resource's pool after a converting tick whose smallest fraction
      is m: the pull of req, followed on a shortfall by the corrective
      request (m - frac)·req. */
  function Settle(amount: real, max: real, req: real, m: real, short: bool): (r: real)
    requires 0.0 <= amount <= max && req != 0.0
    ensures 0.0 <= r <= max
  {
    var p := Pull(amount, max, req);
    var after := amount - p.obtained;
    if short then after - Transfer(after, max, Correction(m, p.frac, req)) else after
  }

  /** The corrective request of a resource pulled at fraction frac of req
      when the tick's smallest fraction is m. */
  function Correction(m: real, frac: real, req: real): real {
    (m - frac) * req
  }

  /** On a shortfall every pool is charged exactly m·req, the tick's
      smallest fraction of its request; otherwise the pull stands as it was. */
  lemma SettleCharges(amount: real, max: real, req: real, m: real, short: bool)
    requires 0.0 <= amount <= max && req != 0.0
    requires 0.0 <= m <= Pull(amount, max, req).frac
    ensures short ==> Settle(amount, max, req, m, short) == amount - m * req
    ensures !short ==> Settle(amount, max, req, m, short) == amount - Pull(amount, max, req).obtained
  {
    CorrectionHonoured(amount, max, req, m);
  }

  /** A pull of req from a pool that can honour it in full reports the
      fraction 1. */
  lemma PullInFull(amount: real, max: real, req: real)
    requires 0.0 <= amount <= max && req != 0.0
    requires 0.0 <= amount - req <= max
    ensures Pull(amount, max, req).frac == 1.0
  {
    TransferInFull(amount, max, req);
    PullScales(amount, max, req);
  }

  /** If every pool can honour its whole request for the tick, every pull
      reports the fraction 1, so the minimum fraction is 1, no shortfall is
      seen and the converter keeps converting. */
  lemma FullSupplyKeepsConverting(ae: real, me: real, ac: real, mc: real, al: real, ml: real,
                                  dt: real, c: Config)
    requires c.Valid() && 0.0 < dt
    requires 0.0 <= ae <= me && 0.0 <= ae - PerTick(c.convElecPerSec, dt) <= me
    requires 0.0 <= ac <= mc && 0.0 <= ac - PerTick(c.convConsPerSec, dt) <= mc
    requires 0.0 <= al <= ml && 0.0 <= al - PerTick(c.convLsPerSec, dt) <= ml
    ensures PerTick(c.convElecPerSec, dt) != 0.0 && PerTick(c.convConsPerSec, dt) != 0.0
         && PerTick(c.convLsPerSec, dt) != 0.0
    ensures var m := MinFrac(Pull(ae, me, PerTick(c.convElecPerSec, dt)).frac,
                             Pull(ac, mc, PerTick(c.convConsPerSec, dt)).frac,
                             Pull(al, ml, PerTick(c.convLsPerSec, dt)).frac);
      m == 1.0 && !(m < c.almostOne)
  {
    NonZeroRequest(c.convElecPerSec, dt);
    NonZeroRequest(c.convConsPerSec, dt);
    NonZeroRequest(c.convLsPerSec, dt);
    PullInFull(ae, me, PerTick(c.convElecPerSec, dt));
    PullInFull(ac, mc, PerTick(c.convConsPerSec, dt));
    PullInFull(al, ml, PerTick(c.convLsPerSec, dt));
  }

  /** The consumables requested by a "Refill EVA" from inside the vessel:
      one request of ratio·(max - current) per tracked crew member, in
      roster order; untracked crew are skipped. */
  function RefillRequests(crew: seq<CrewMember>, e: map<string, Info>, ratio: real): (r: seq<real>)
    requires WellFormed(e) && 0.0 <= ratio
    ensures |r| <= |crew|
    ensures forall t :: 0 <= t < |r| ==> 0.0 <= r[t]
  {
    if crew == [] then []
    else
      var k := crew[|crew| - 1];
      RefillRequests(crew[..|crew| - 1], e, ratio)
        + (if k.name in e then [Deficit(ratio, e[k.name])] else [])
  }

  /** The consumables charged for refilling one reserve: ratio units per
      unit of missing reserve. */
  function Deficit(ratio: real, info: Info): (r: real)
    requires 0.0 <= ratio && info.current <= info.max
    ensures 0.0 <= r
  {
    ratio * (info.max - info.current)
  }

  /** Extending the roster by one member adds that member's request, if
      tracked. */
  lemma StepRefill(crew: seq<CrewMember>, i: nat, e: map<string, Info>, ratio: real)
    requires i < |crew| && WellFormed(e) && 0.0 <= ratio
    ensures var k := crew[i];
      RefillRequests(crew[..i + 1], e, ratio) == RefillRequests(crew[..i], e, ratio)
        + (if k.name in e then [Deficit(ratio, e[k.name])] else [])
  {
    assert crew[..i + 1][..i] == crew[..i];
  }

  /** What a pool holds after serving a sequence of requests in order. */
  function Withdrawn(amount: real, max: real, reqs: seq<real>): (r: real)
    requires 0.0 <= amount <= max
    ensures 0.0 <= r <= max
  {
    if reqs == [] then amount
    else
      var before := Withdrawn(amount, max, reqs[..|reqs| - 1]);
      before - Transfer(before, max, reqs[|reqs| - 1])
  }

  function Sum(xs: seq<real>): real {
    if xs == [] then 0.0 else Sum(xs[..|xs| - 1]) + xs[|xs| - 1]
  }

  /** A pool that holds at least the total of a sequence of withdrawals
      serves every one of them in full. */
  lemma {:induction false} WithdrawnInFull(amount: real, max: real, reqs: seq<real>)
    requires 0.0 <= amount <= max
    requires forall t :: 0 <= t < |reqs| ==> 0.0 <= reqs[t]
    requires Sum(reqs) <= amount
    ensures Withdrawn(amount, max, reqs) == amount - Sum(reqs)
  {
    if reqs != [] {
      var init := reqs[..|reqs| - 1];
      SumNonNegative(init);
      WithdrawnInFull(amount, max, init);
    }
  }

  lemma {:induction false} SumNonNegative(xs: seq<real>)
    requires forall t :: 0 <= t < |xs| ==> 0.0 <= xs[t]
    ensures 0.0 <= Sum(xs)
  {
    if xs != [] {
      SumNonNegative(xs[..|xs| - 1]);
    }
  }

  /** The registry after the crew whose names are in names had their
      reserves refilled: those tracked entries are full, all others are as
      they were. */
  function Refilled(e: map<string, Info>, names: set<string>): (r: map<string, Info>)
    ensures r.Keys == e.Keys
    ensures forall n :: n in e && n in names ==> r[n] == Info(e[n].max, e[n].max)
    ensures forall n :: n in e && n !in names ==> r[n] == e[n]
  {
    map n | n in e :: if n in names then Info(e[n].max, e[n].max) else e[n]
  }

  /** Refilling one more (new) name: setting its reserve to its capacity,
      if it is tracked. */
  lemma RefilledStep(e: map<string, Info>, names: set<string>, name: string)
    requires WellFormed(e) && name !in names
    ensures name in e ==>
      WithCurrent(Refilled(e, names), name, e[name].max) == Refilled(e, names + {name})
    ensures name !in e ==> Refilled(e, names) == Refilled(e, names + {name})
    ensures name in e ==> Refilled(e, names)[name] == e[name]
  {
  }

  /** Serving one more request after a sequence of them. */
  lemma StepWithdrawn(amount: real, max: real, reqs: seq<real>, x: real)
    requires 0.0 <= amount <= max
    ensures var before := Withdrawn(amount, max, reqs);
      Withdrawn(amount, max, reqs + [x]) == before - Transfer(before, max, x)
  {
    assert (reqs + [x])[..|reqs|] == reqs;
  }

  /** One pass of FillEVA's loop at the level of the registry and the
      consumables pool: what RefillMember does to the state reached after
      the first i crew members is the state after the first i + 1. */
  lemma FillStep(crew: seq<CrewMember>, i: nat, e: map<string, Info>, a0: real, max: real, ratio: real,
                 entries: map<string, Info>, before: real)
    requires i < |crew| && DistinctNames(crew) && WellFormed(e) && 0.0 <= ratio && 0.0 <= a0 <= max
    requires entries == Refilled(e, Names(crew[..i]))
    requires before == Withdrawn(a0, max, RefillRequests(crew[..i], e, ratio))
    ensures var name := crew[i].name;
      && (name in entries <==> name in e)
      && (name in e ==>
            && entries[name] == e[name]
            && WithCurrent(entries, name, e[name].max) == Refilled(e, Names(crew[..i + 1]))
            && before - Transfer(before, max, Deficit(ratio, e[name]))
                 == Withdrawn(a0, max, RefillRequests(crew[..i + 1], e, ratio)))
      && (name !in e ==>
            && entries == Refilled(e, Names(crew[..i + 1]))
            && before == Withdrawn(a0, max, RefillRequests(crew[..i + 1], e, ratio)))
  {
    var name := crew[i].name;
    var done := RefillRequests(crew[..i], e, ratio);
    NamesOfPrefix(crew, i);
    NotInEarlierNames(crew, i);
    StepRefill(crew, i, e, ratio);
    RefilledStep(e, Names(crew[..i]), name);
    if name in e {
      StepWithdrawn(a0, max, done, Deficit(ratio, e[name]));
    } else {
      assert done + [] == done;
    }
  }

  /** A deposit at least as large as the pool's free space fills it. */
  lemma DepositFills(amount: real, max: real, d: real)
    requires 0.0 <= amount <= max && max - amount <= d
    ensures amount - Transfer(amount, max, -d) == max
  {
  }

  /** PullResource: requests amount·dt (see Pull), posts a message on a
      shortfall and returns the fraction obtained. */
  method PullResource(pool: Pool, resource: Resource, amount: real, dt: real, almostOne: real)
    returns (frac: real, ghost notes: seq<Notice>)
    requires pool.Valid() && amount != 0.0 && 0.0 < dt
    modifies pool
    ensures pool.Valid()
    ensures var p := Pull(old(pool.amount), pool.maxAmount, PerTick(amount, dt));
      frac == p.frac && pool.amount == old(pool.amount) - p.obtained
    ensures notes == PullNotices(resource, PerTick(amount, dt), frac, almostOne)
  {
    var req := amount * dt;
    NonZeroRequest(amount, dt);
    var obtained := pool.Request(req);
    frac := Abs(obtained / req);
    notes := [];
    if frac < almostOne {
      if 0.0 <= req {
        notes := [NotEnough(resource)];
      } else {
        notes := [IsFull(resource)];
      }
    }
  }

  /** The corrective request of one resource after a shortfall,
      (minFrac - frac)·rate·dt; minFrac - frac <= 0 turns it against the
      pull. */
  method ReturnExcess(pool: Pool, rate: real, dt: real, frac: real, minFrac: real, ghost before: real)
    requires 0.0 <= before <= pool.maxAmount && rate != 0.0 && 0.0 < dt
    requires pool.Valid()
    requires frac == Pull(before, pool.maxAmount, PerTick(rate, dt)).frac
    requires pool.amount == before - Pull(before, pool.maxAmount, PerTick(rate, dt)).obtained
    modifies pool
    ensures pool.Valid()
    ensures pool.amount == Settle(before, pool.maxAmount, PerTick(rate, dt), minFrac, true)
  {
    NonZeroRequest(rate, dt);
    var q := (minFrac - frac) * rate * dt;
    Regroup(minFrac - frac, rate, dt);
    assert q == Correction(minFrac, frac, PerTick(rate, dt));
    var _ := pool.Request(q);
  }

  /** The messages of a converting tick: those of the three pulls, in
      order. */
  function TickNotices(fe: real, fc: real, fl: real, dt: real, c: Config): (r: seq<Notice>)
    ensures |r| <= 3
  {
    PullNotices(Electricity, PerTick(c.convElecPerSec, dt), fe, c.almostOne)
      + PullNotices(Consumables, PerTick(c.convConsPerSec, dt), fc, c.almostOne)
      + PullNotices(LS, PerTick(c.convLsPerSec, dt), fl, c.almostOne)
  }

  /** The converting branch of FixedUpdate: pull electricity and
      consumables and push life support, each at its rate for dt; when the
      smallest fraction obtained is below DOUBLE_ALMOST_ONE, roll every
      resource back to that fraction and report the shortfall. */
  method ConvertTick(elec: Pool, cons: Pool, ls: Pool, dt: real, c: Config)
    returns (short: bool, ghost notes: seq<Notice>)
    requires c.Valid() && 0.0 < dt
    requires elec.Valid() && cons.Valid() && ls.Valid()
    requires elec != cons && elec != ls && cons != ls
    modifies elec, cons, ls
    ensures elec.Valid() && cons.Valid() && ls.Valid()
    ensures var pe := Pull(old(elec.amount), elec.maxAmount, PerTick(c.convElecPerSec, dt));
      var pc := Pull(old(cons.amount), cons.maxAmount, PerTick(c.convConsPerSec, dt));
      var pl := Pull(old(ls.amount), ls.maxAmount, PerTick(c.convLsPerSec, dt));
      var m := MinFrac(pe.frac, pc.frac, pl.frac);
      && short == (m < c.almostOne)
      && elec.amount == Settle(old(elec.amount), elec.maxAmount, PerTick(c.convElecPerSec, dt), m, short)
      && cons.amount == Settle(old(cons.amount), cons.maxAmount, PerTick(c.convConsPerSec, dt), m, short)
      && ls.amount == Settle(old(ls.amount), ls.maxAmount, PerTick(c.convLsPerSec, dt), m, short)
      && notes == TickNotices(pe.frac, pc.frac, pl.frac, dt, c)
  {
    NonZeroRequest(c.convElecPerSec, dt);
    NonZeroRequest(c.convConsPerSec, dt);
    NonZeroRequest(c.convLsPerSec, dt);
    ghost var e0, k0, l0 := elec.amount, cons.amount, ls.amount;
    var fracElec, ne := PullResource(elec, Electricity, c.convElecPerSec, dt, c.almostOne);
    var fracCons, nc := PullResource(cons, Consumables, c.convConsPerSec, dt, c.almostOne);
    var fracLs, nl := PullResource(ls, LS, c.convLsPerSec, dt, c.almostOne);
    notes := ne + nc + nl;
    var minFrac := MinFrac(fracElec, fracCons, fracLs);
    short := minFrac < c.almostOne;
    if short {
      ReturnExcess(elec, c.convElecPerSec, dt, fracElec, minFrac, e0);
      ReturnExcess(cons, c.convConsPerSec, dt, fracCons, minFrac, k0);
      ReturnExcess(ls, c.convLsPerSec, dt, fracLs, minFrac, l0);
    }
  }

  /** One pass of FillEVA's loop: a tracked crew member's deficit is
      charged to the part's consumables and the reserve set full. */
  method RefillMember(cons: Pool, tracker: Tracker, name: string, ratio: real)
    requires cons.Valid() && tracker.Valid() && 0.0 <= ratio
    modifies cons, tracker
    ensures cons.Valid() && tracker.Valid()
    ensures name in old(tracker.entries) ==>
      var info := old(tracker.entries)[name];
      && tracker.entries == WithCurrent(old(tracker.entries), name, info.max)
      && cons.amount == old(cons.amount) - Transfer(old(cons.amount), cons.maxAmount, Deficit(ratio, info))
    ensures name !in old(tracker.entries) ==>
      tracker.entries == old(tracker.entries) && cons.amount == old(cons.amount)
  {
    if !tracker.InTracking(name) {
      return;
    }
    var info := tracker.GetEVALSInfo(name);
    var _ := cons.Request(Deficit(ratio, info));
    tracker.SetCurrentEVAAmount(name, info.max);
  }

  /** Where FillEVA's loop stands after the first i crew members: their
      tracked reserves are full and their requests have been served. */
  predicate FillState(crew: seq<CrewMember>, e: map<string, Info>, a0: real, max: real, ratio: real,
                      i: nat, entries: map<string, Info>, amount: real)
    requires WellFormed(e) && 0.0 <= ratio && 0.0 <= a0 <= max
  {
    && i <= |crew|
    && entries == Refilled(e, Names(crew[..i]))
    && amount == Withdrawn(a0, max, RefillRequests(crew[..i], e, ratio))
  }

  lemma FillStart(crew: seq<CrewMember>, e: map<string, Info>, a0: real, max: real, ratio: real)
    requires WellFormed(e) && 0.0 <= ratio && 0.0 <= a0 <= max
    ensures FillState(crew, e, a0, max, ratio, 0, e, a0)
  {
    assert crew[..0] == [];
  }

  lemma FillDone(crew: seq<CrewMember>, e: map<string, Info>, a0: real, max: real, ratio: real,
                 entries: map<string, Info>, amount: real)
    requires WellFormed(e) && 0.0 <= ratio && 0.0 <= a0 <= max
    requires FillState(crew, e, a0, max, ratio, |crew|, entries, amount)
    ensures entries == Refilled(e, Names(crew))
    ensures amount == Withdrawn(a0, max, RefillRequests(crew, e, ratio))
  {
    assert crew[..|crew|] == crew;
  }

  /** One visit of FillEVA's loop, on crew member i. */
  method FillVisit(crew: seq<CrewMember>, ghost e: map<string, Info>, ghost a0: real, cons: Pool, tracker: Tracker,
                   ratio: real, i: nat)
    requires cons.Valid() && tracker.Valid() && DistinctNames(crew) && i < |crew|
    requires WellFormed(e) && 0.0 <= ratio && 0.0 <= a0 <= cons.maxAmount
    requires FillState(crew, e, a0, cons.maxAmount, ratio, i, tracker.entries, cons.amount)
    modifies cons, tracker
    ensures cons.Valid() && tracker.Valid()
    ensures FillState(crew, e, a0, cons.maxAmount, ratio, i + 1, tracker.entries, cons.amount)
  {
    FillStep(crew, i, e, a0, cons.maxAmount, ratio, tracker.entries, cons.amount);
    RefillMember(cons, tracker, crew[i].name, ratio);
  }

  /** The vessel branch of FillEVA: the loop over the crew, refilling the
      reserve of every tracked member from the part's consumables. */
  method FillCrew(crew: seq<CrewMember>, cons: Pool, tracker: Tracker, ratio: real)
    requires cons.Valid() && tracker.Valid() && DistinctNames(crew) && 0.0 <= ratio
    modifies cons, tracker
    ensures cons.Valid() && tracker.Valid()
    ensures tracker.entries == Refilled(old(tracker.entries), Names(crew))
    ensures cons.amount == Withdrawn(old(cons.amount), cons.maxAmount,
                                     RefillRequests(crew, old(tracker.entries), ratio))
  {
    ghost var e0, a0 := tracker.entries, cons.amount;
    FillStart(crew, e0, a0, cons.maxAmount, ratio);
    var i: nat := 0;
    while i < |crew|
      invariant cons.Valid() && tracker.Valid()
      invariant FillState(crew, e0, a0, cons.maxAmount, ratio, i, tracker.entries, cons.amount)
      decreases |crew| - i
    {
      FillVisit(crew, e0, a0, cons, tracker, ratio, i);
      i := i + 1;
    }
    FillDone(crew, e0, a0, cons.maxAmount, ratio, tracker.entries, cons.amount);
  }

  /** Who is in control when "Refill EVA" is pressed: the vessel carrying
      this converter (with its crew), or an EVA kerbal next to it (with
      the EVA life-support pool of its root part). */
  datatype ActiveVessel =
    | Piloting(crew: seq<CrewMember>)
    | OnEva(kerbal: string, pool: Pool)

  class Cons2LSModule {
    var status: ConverterStatus
    const c: Config
    const elec: Pool     // the part's electric charge
    const cons: Pool     // the part's consumables
    const ls: Pool       // the vessel's life support (all-vessel flow)
    const tracker: Tracker
    ghost var notices: seq<Notice>

    predicate Valid()
      reads this, elec, cons, ls, tracker
    {
      && c.Valid()
      && elec.Valid() && cons.Valid() && ls.Valid() && tracker.Valid()
      && elec != cons && elec != ls && cons != ls
    }

    constructor (c: Config, elec: Pool, cons: Pool, ls: Pool, tracker: Tracker)
      requires c.Valid() && elec.Valid() && cons.Valid() && ls.Valid() && tracker.Valid()
      requires elec != cons && elec != ls && cons != ls
      ensures Valid() && status == Ready && notices == []
      ensures this.c == c && this.elec == elec && this.cons == cons && this.ls == ls
      ensures this.tracker == tracker
    {
      this.c := c;
      this.elec := elec;
      this.cons := cons;
      this.ls := ls;
      this.tracker := tracker;
      status := Ready;
      notices := [];
    }

    method ToggleStatus()
      modifies this`status
      ensures status == Toggled(old(status))
    {
      match status
      case Converting => status := Ready;
      case Ready => status := Converting;
    }

    /** FixedUpdate. A converter that is Ready does nothing; one that is
        Converting without an engineer aboard stops (Ready) with a
        message; otherwise it runs one tick (see ConvertTick) and stops
        when a pull fell short. */
    method FixedUpdate(crew: seq<CrewMember>, dt: real)
      requires Valid() && 0.0 < dt
      modifies this, elec, cons, ls
      ensures Valid()
      ensures old(status) == Ready ==>
        status == Ready && unchanged(elec, cons, ls) && notices == old(notices)
      ensures old(status) == Converting && !HasEngineer(crew) ==>
        && status == Ready && unchanged(elec, cons, ls)
        && notices == old(notices) + [NeedsEngineer]
      ensures old(status) == Converting && HasEngineer(crew) ==>
        var pe := Pull(old(elec.amount), elec.maxAmount, PerTick(c.convElecPerSec, dt));
        var pc := Pull(old(cons.amount), cons.maxAmount, PerTick(c.convConsPerSec, dt));
        var pl := Pull(old(ls.amount), ls.maxAmount, PerTick(c.convLsPerSec, dt));
        var m := MinFrac(pe.frac, pc.frac, pl.frac);
        var short := m < c.almostOne;
        && status == (if short then Ready else Converting)
        && elec.amount == Settle(old(elec.amount), elec.maxAmount, PerTick(c.convElecPerSec, dt), m, short)
        && cons.amount == Settle(old(cons.amount), cons.maxAmount, PerTick(c.convConsPerSec, dt), m, short)
        && ls.amount == Settle(old(ls.amount), ls.maxAmount, PerTick(c.convLsPerSec, dt), m, short)
        && notices == old(notices) + TickNotices(pe.frac, pc.frac, pl.frac, dt, c)
    {
      if status == Converting {
        var manned := ProperlyManned(crew);
        if !manned {
          notices := notices + [NeedsEngineer];
          status := Ready;
          return;
        }
        NonZeroRequest(c.convElecPerSec, dt);
        NonZeroRequest(c.convConsPerSec, dt);
        NonZeroRequest(c.convLsPerSec, dt);
        var short, notes := ConvertTick(elec, cons, ls, dt, c);
        notices := notices + notes;
        if short {
          status := Ready;
        }
      }
    }

    /** FillEVA. From the vessel itself: every tracked crew member's reserve
        is set to its capacity and ratio·(max - current) consumables are
        requested from this part for each (whether or not they are
        obtained); untracked crew and other entries are left alone. From an
        EVA kerbal: its deficit is charged the same way and its capacity is
        deposited into its own EVA pool, which (holding the registry's
        capacity) ends full; the registry follows on the EVA module's next
        tick. */
    method FillEva(active: ActiveVessel)
      requires Valid()
      requires active.Piloting? ==> DistinctNames(active.crew)
      requires active.OnEva? ==>
        && active.pool.Valid() && active.pool != cons && tracker.InTracking(active.kerbal)
        && active.pool.maxAmount == tracker.defaultMax
      modifies cons, tracker, if active.OnEva? then {active.pool} else {}
      ensures Valid()
      ensures active.Piloting? ==>
        && tracker.entries == Refilled(old(tracker.entries), Names(active.crew))
        && cons.amount == Withdrawn(old(cons.amount), cons.maxAmount,
                                    RefillRequests(active.crew, old(tracker.entries), c.consToEva))
      ensures active.OnEva? ==>
        var info := old(tracker.entries)[active.kerbal];
        && active.pool.Valid()
        && tracker.entries == old(tracker.entries)
        && cons.amount == old(cons.amount)
             - Transfer(old(cons.amount), cons.maxAmount, Deficit(c.consToEva, info))
        && active.pool.amount == old(active.pool.amount)
             - Transfer(old(active.pool.amount), active.pool.maxAmount, -info.max)
        && active.pool.amount == active.pool.maxAmount
    {
      match active
      case Piloting(crew) =>
        FillCrew(crew, cons, tracker, c.consToEva);
      case OnEva(kerbal, pool) =>
        var info := tracker.GetEVALSInfo(kerbal);
        var _ := cons.Request(Deficit(c.consToEva, info));
        DepositFills(pool.amount, pool.maxAmount, info.max);
        var _ := pool.Request(-info.max);
    }
  }
}
