/** The craft life-support ticker (LifeSupportModule): at startup it charges
    the vessel's life support for the time it was unloaded (or, for a
    rescue-contract vessel, sets it to half capacity) and passes the
    shortfall on to the crew's reserves; every tick it drains the vessel's
    life support for the crew aboard and, once that is empty, each crew
    member's reserve, removing crew whose reserve is gone. */
module LifeSupport {
  import opened Host
  import opened Resources
  import opened Tracking

  // ----- Rescue contracts (ContractChecker) -----

  /** Does the contract guid name the part with this flight id? The
      checker's part-id lookup is taken as a map from guid to part id. */
  predicate Matches(partIds: map<string, string>, guid: string, flightId: string) {
    guid in partIds && partIds[guid] == flightId
  }

  /** The position of the first rescue contract naming this part, or -1. */
  function FirstRescue(guids: seq<string>, partIds: map<string, string>, flightId: string): (r: int)
    ensures -1 <= r < |guids|
    ensures 0 <= r ==> Matches(partIds, guids[r], flightId)
    ensures forall j :: 0 <= j < |guids| && (r < 0 || j < r) ==> !Matches(partIds, guids[j], flightId)
  {
    if guids == [] then -1
    else if Matches(partIds, guids[0], flightId) then 0
    else
      var r := FirstRescue(guids[1..], partIds, flightId);
      assert forall j :: 1 <= j < |guids| ==> guids[j] == guids[1..][j - 1];
      if r < 0 then -1 else r + 1
  }

  /** List.Remove: drops the first occurrence of x, if any. */
  function RemoveFirst<T(==)>(s: seq<T>, x: T): (r: seq<T>)
    ensures x !in s ==> r == s
    ensures x in s ==> |r| == |s| - 1
  {
    if s == [] then []
    else if s[0] == x then s[1..] else [s[0]] + RemoveFirst(s[1..], x)
  }

  /** Remove takes away one copy of x, if there is one, and keeps
      everything else. */
  lemma {:induction false} RemoveFirstMultiset<T>(s: seq<T>, x: T)
    ensures multiset(RemoveFirst(s, x)) + (if x in s then multiset{x} else multiset{}) == multiset(s)
  {
    if s != [] {
      assert s == [s[0]] + s[1..];
      RemoveFirstMultiset(s[1..], x);
    }
  }

  /** Removing x from a + [x] + b, where a does not hold x, leaves a + b. */
  lemma {:induction false} RemoveFirstSplit<T>(a: seq<T>, x: T, b: seq<T>)
    requires x !in a
    ensures RemoveFirst(a + [x] + b, x) == a + b
  {
    var s := a + [x] + b;
    if a == [] {
      assert s[0] == x && s[1..] == b;
    } else {
      assert s[0] == a[0] && s[1..] == a[1..] + [x] + b;
      RemoveFirstSplit(a[1..], x, b);
      assert a == [a[0]] + a[1..];
    }
  }

  /** Removing the guid found first by the search removes exactly that
      position: every earlier guid differs from it, since it would have
      matched too. */
  lemma RemoveFirstAt<T>(s: seq<T>, x: T, i: nat)
    requires i < |s| && s[i] == x
    requires forall j :: 0 <= j < i ==> s[j] != x
    ensures RemoveFirst(s, x) == s[..i] + s[i + 1..]
  {
    assert s == s[..i] + [x] + s[i + 1..];
    RemoveFirstSplit(s[..i], x, s[i + 1..]);
  }

  lemma RescueRemovesItsGuid(guids: seq<string>, partIds: map<string, string>, flightId: string)
    requires 0 <= FirstRescue(guids, partIds, flightId)
    ensures var i := FirstRescue(guids, partIds, flightId);
      RemoveFirst(guids, guids[i]) == guids[..i] + guids[i + 1..]
  {
    var i := FirstRescue(guids, partIds, flightId);
    RemoveFirstAt(guids, guids[i], i);
  }

  class ContractChecker {
    var guids: seq<string>               // rescue contracts not yet set up
    const partIds: map<string, string>   // GetPartID

    constructor (guids: seq<string>, partIds: map<string, string>)
      ensures this.guids == guids && this.partIds == partIds
    {
      this.guids := guids;
      this.partIds := partIds;
    }

    /** The search of OnStart: the first guid naming this part. */
    method FindRescue(flightId: string) returns (idx: int)
      ensures idx == FirstRescue(guids, partIds, flightId)
    {
      idx := 0;
      while idx < |guids|
        invariant 0 <= idx <= |guids|
        invariant FirstRescue(guids, partIds, flightId) < 0 || idx <= FirstRescue(guids, partIds, flightId)
        invariant forall j :: 0 <= j < idx ==> !Matches(partIds, guids[j], flightId)
      {
        if guids[idx] in partIds && partIds[guids[idx]] == flightId {
          return;
        }
        idx := idx + 1;
      }
      idx := -1;
    }

    /** Guids.Remove(guid). */
    method Remove(guid: string)
      modifies this
      ensures guids == RemoveFirst(old(guids), guid)
    {
      guids := RemoveFirst(guids, guid);
    }
  }

  // ----- Startup deduction -----

  /** A crew member's reserve right after the startup deduction of diff:
      tracked if need be (full), then lowered by diff and clamped. */
  function Deducted(e: map<string, Info>, name: string, diff: real, c: Config): (r: real)
    requires c.Valid() && Registry(e, c.evaMax)
    ensures 0.0 <= r <= c.evaMax
    ensures name in e && 0.0 <= diff <= e[name].current ==> r == e[name].current - diff
    ensures name !in e && 0.0 <= diff <= c.evaMax ==> r == c.evaMax - diff
  {
    var t := WithTracked(e, name, c.evaMax);
    WithCurrent(t, name, t[name].current - diff)[name].current
  }

  /** The registry after one pass of OnStart's crew loop: tracked, lowered
      by diff, and raised to KILL_BUFFER when that left it below. */
  function StartStep(e: map<string, Info>, name: string, diff: real, c: Config): (r: map<string, Info>)
    requires c.Valid() && Registry(e, c.evaMax)
    ensures Registry(r, c.evaMax)
    ensures r.Keys == e.Keys + {name}
    ensures forall n :: n in e && n != name ==> r[n] == e[n]
    ensures r[name].current == (if Deducted(e, name, diff, c) < c.killBuffer then c.killBuffer
                                else Deducted(e, name, diff, c))
  {
    var d := Deducted(e, name, diff, c);
    WithTracked(e, name, c.evaMax)[name := Info(if d < c.killBuffer then c.killBuffer else d, c.evaMax)]
  }

  /** The registry after OnStart's crew loop over crew. */
  function AfterStartup(e: map<string, Info>, crew: seq<CrewMember>, diff: real, c: Config): (r: map<string, Info>)
    requires c.Valid() && Registry(e, c.evaMax)
    ensures Registry(r, c.evaMax)
    ensures e.Keys <= r.Keys
  {
    if crew == [] then e
    else StartStep(AfterStartup(e, crew[..|crew| - 1], diff, c), crew[|crew| - 1].name, diff, c)
  }

  /** The "seconds to live" messages of OnStart's crew loop: one per crew
      member whose deducted reserve is at least KILL_BUFFER but under the
      30-second threshold. */
  function StartupNotices(e: map<string, Info>, crew: seq<CrewMember>, diff: real, c: Config): (r: seq<Notice>)
    requires c.Valid() && Registry(e, c.evaMax)
    ensures |r| <= |crew|
  {
    if crew == [] then []
    else
      var init := crew[..|crew| - 1];
      var k := crew[|crew| - 1];
      var d := Deducted(AfterStartup(e, init, diff, c), k.name, diff, c);
      StartupNotices(e, init, diff, c)
        + (if c.killBuffer <= d < c.eva30Seconds then [SecondsToLive(k.name)] else [])
  }

  /** Some crew member among the first i has a reserve that the
      deduction of diff, made against e, leaves under 30 seconds. */
  predicate SomeUnder30(e: map<string, Info>, crew: seq<CrewMember>, i: nat, diff: real, c: Config)
    requires c.Valid() && Registry(e, c.evaMax) && i <= |crew|
  {
    exists j :: 0 <= j < i && Deducted(e, crew[j].name, diff, c) < c.eva30Seconds
  }

  /** The flag after one more pass of the startup loop: member i's
      deduction sees the registry as it was before OnStart. */
  lemma StartupFlag(e: map<string, Info>, crew: seq<CrewMember>, i: nat, diff: real, c: Config, warned: bool)
    requires c.Valid() && Registry(e, c.evaMax) && DistinctNames(crew) && i < |crew|
    requires warned == SomeUnder30(e, crew, i, diff, c)
    ensures (warned || Deducted(AfterStartup(e, crew[..i], diff, c), crew[i].name, diff, c) < c.eva30Seconds)
         == SomeUnder30(e, crew, i + 1, diff, c)
  {
    DeductedFromStart(e, crew, i, diff, c);
  }

  /** One pass of the startup loop, on the registry and the messages: crew member i is handled against the registry reached after
      the first i members. */
  lemma StartupPrefix(e: map<string, Info>, crew: seq<CrewMember>, i: nat, diff: real, c: Config)
    requires c.Valid() && Registry(e, c.evaMax) && i < |crew|
    ensures var before := AfterStartup(e, crew[..i], diff, c);
      var d := Deducted(before, crew[i].name, diff, c);
      && AfterStartup(e, crew[..i + 1], diff, c) == StartStep(before, crew[i].name, diff, c)
      && StartupNotices(e, crew[..i + 1], diff, c) == StartupNotices(e, crew[..i], diff, c)
           + (if c.killBuffer <= d < c.eva30Seconds then [SecondsToLive(crew[i].name)] else [])
  {
    var p := crew[..i + 1];
    assert p[..|p| - 1] == crew[..i];
    assert p[|p| - 1] == crew[i];
  }

  /** The first n crew members are tracked with at least KILL_BUFFER. */
  predicate Floored(r: map<string, Info>, crew: seq<CrewMember>, n: nat, c: Config)
    requires n <= |crew|
  {
    forall t :: 0 <= t < n ==> crew[t].name in r && c.killBuffer <= r[crew[t].name].current
  }

  /** A pass of the startup loop on crew member n keeps the earlier members
      floored and floors member n. */
  lemma FloorStep(before: map<string, Info>, crew: seq<CrewMember>, n: nat, diff: real, c: Config)
    requires c.Valid() && Registry(before, c.evaMax) && n < |crew|
    requires Floored(before, crew, n, c)
    ensures Floored(StartStep(before, crew[n].name, diff, c), crew, n + 1, c)
  {
  }

  /** After the startup loop every crew member is tracked with at least
      KILL_BUFFER. */
  lemma {:induction false} StartupFloors(e: map<string, Info>, crew: seq<CrewMember>, diff: real, c: Config)
    requires c.Valid() && Registry(e, c.evaMax)
    ensures Floored(AfterStartup(e, crew, diff, c), crew, |crew|, c)
  {
    if crew != [] {
      var n := |crew| - 1;
      var init := crew[..n];
      StartupFloors(e, init, diff, c);
      var before := AfterStartup(e, init, diff, c);
      assert Floored(before, crew, n, c) by {
        forall t | 0 <= t < n ensures crew[t].name in before && c.killBuffer <= before[crew[t].name].current {
          assert init[t] == crew[t];
        }
      }
      FloorStep(before, crew, n, diff, c);
    }
  }

  /** The startup loop leaves the entries of everyone not aboard as they
      were, and tracks nobody else. */
  lemma {:induction false} StartupOthers(e: map<string, Info>, crew: seq<CrewMember>, diff: real, c: Config)
    requires c.Valid() && Registry(e, c.evaMax)
    ensures var r := AfterStartup(e, crew, diff, c);
      && (forall n :: n !in Names(crew) ==> (n in r <==> n in e))
      && (forall n :: n in e && n !in Names(crew) ==> r[n] == e[n])
  {
    if crew != [] {
      var init := crew[..|crew| - 1];
      StartupOthers(e, init, diff, c);
      NamesOfPrefix(crew, |crew| - 1);
      assert crew[..|crew| - 1 + 1] == crew;
    }
  }

  /** The deducted value depends only on the name's own entry. */
  lemma DeductedLocal(e1: map<string, Info>, e2: map<string, Info>, name: string, diff: real, c: Config)
    requires c.Valid() && Registry(e1, c.evaMax) && Registry(e2, c.evaMax)
    requires (name in e1 <==> name in e2) && (name in e1 ==> e1[name] == e2[name])
    ensures Deducted(e1, name, diff, c) == Deducted(e2, name, diff, c)
  {
  }

  /** With distinct names, each crew member's deduction sees the registry
      as it was before OnStart. */
  lemma DeductedFromStart(e: map<string, Info>, crew: seq<CrewMember>, j: nat, diff: real, c: Config)
    requires c.Valid() && Registry(e, c.evaMax) && DistinctNames(crew) && j < |crew|
    ensures Deducted(AfterStartup(e, crew[..j], diff, c), crew[j].name, diff, c)
         == Deducted(e, crew[j].name, diff, c)
  {
    NotInEarlierNames(crew, j);
    StartupOthers(e, crew[..j], diff, c);
    DeductedLocal(AfterStartup(e, crew[..j], diff, c), e, crew[j].name, diff, c);
  }

  // ----- Per-tick drain of the reserves -----

  /** The reserve crosses the 30-second threshold downward in this tick. */
  predicate Crosses(info: Info, req: real, c: Config)
    requires 0.0 <= info.max
  {
    info.current > c.eva30Seconds && Clamp(info.current - req, 0.0, info.max) <= c.eva30Seconds
  }

  /** One crew member's reserve after a tick on reserves: lowered by req
      (clamped at 0) and, on a downward crossing of the 30-second
      threshold, set to exactly that threshold. */
  function Drain(info: Info, req: real, c: Config): (r: Info)
    requires c.Valid() && 0.0 <= info.current <= info.max && c.eva30Seconds <= info.max && 0.0 <= req
    ensures r.max == info.max && 0.0 <= r.current <= info.current
    ensures Crosses(info, req, c) ==> r.current == c.eva30Seconds
    ensures !Crosses(info, req, c) ==> r.current == Clamp(info.current - req, 0.0, info.max)
  {
    var cur := Clamp(info.current - req, 0.0, info.max);
    if info.current > c.eva30Seconds && cur <= c.eva30Seconds then Info(c.eva30Seconds, info.max)
    else Info(cur, info.max)
  }

  /** The threshold warning fires once per crossing: a reserve that has
      just crossed cannot cross again, whatever the next tick drains. */
  lemma CrossesOnce(info: Info, req: real, next: real, c: Config)
    requires c.Valid() && 0.0 <= info.current <= info.max && c.eva30Seconds <= info.max && 0.0 <= req
    requires Crosses(info, req, c)
    ensures !Crosses(Drain(info, req, c), next, c)
  {
  }

  /** The drain as the source writes it: the crossing is tested on the
      value after the deduction plus the request, which stands for the
      value before it only while the registry did not clamp at 0. */
  function DrainAsWritten(info: Info, req: real, c: Config): (r: Info)
    requires c.Valid() && 0.0 <= info.current <= info.max && c.eva30Seconds <= info.max && 0.0 <= req
    ensures r.max == info.max && 0.0 <= r.current <= info.max
  {
    var cur := Clamp(info.current - req, 0.0, info.max);
    if cur + req > c.eva30Seconds && cur <= c.eva30Seconds then Info(c.eva30Seconds, info.max)
    else Info(cur, info.max)
  }

  /** When the tick's request does not empty the reserve, the as-written
      test and the corrected one agree. */
  lemma DrainAsWrittenAgrees(info: Info, req: real, c: Config)
    requires c.Valid() && 0.0 <= info.current <= info.max && c.eva30Seconds <= info.max && 0.0 <= req
    requires req <= info.current
    ensures DrainAsWritten(info, req, c) == Drain(info, req, c)
  {
  }

  /** A reserve of 5 with a threshold of 30 and a tick that drains 40 (a
      long time-warp step): the as-written test sees 0 + 40 > 30 and
      raises the reserve to 30; the corrected drain leaves it at 0. */
  lemma DrainAsWrittenRevives(c: Config)
    requires c.Valid() && c.eva30Seconds == 30.0 && c.evaMax == 300.0
    ensures DrainAsWritten(Info(5.0, 300.0), 40.0, c).current == 30.0
    ensures Drain(Info(5.0, 300.0), 40.0, c).current == 0.0
  {
  }

  /** Every entry is well formed and can hold the 30-second threshold. */
  predicate Drainable(e: map<string, Info>, c: Config) {
    c.Valid() && Registry(e, c.evaMax)
  }

  predicate AllTracked(crew: seq<CrewMember>, e: map<string, Info>) {
    forall t :: 0 <= t < |crew| ==> crew[t].name in e
  }

  /** The registry after a tick on reserves has drained every name in names. */
  function Drained(e: map<string, Info>, names: set<string>, req: real, c: Config): (r: map<string, Info>)
    requires Drainable(e, c) && 0.0 <= req
    ensures r.Keys == e.Keys && Registry(r, c.evaMax)
    ensures forall n :: n in e && n in names ==> r[n] == Drain(e[n], req, c)
    ensures forall n :: n in e && n !in names ==> r[n] == e[n]
  {
    map n | n in e :: if n in names then Drain(e[n], req, c) else e[n]
  }

  /** The crew that live through a tick on reserves, in roster order. */
  function Survivors(crew: seq<CrewMember>, e: map<string, Info>, req: real, c: Config): (r: seq<CrewMember>)
    requires Drainable(e, c) && 0.0 <= req && AllTracked(crew, e)
    ensures |r| <= |crew|
  {
    if crew == [] then []
    else
      var k := crew[|crew| - 1];
      Survivors(crew[..|crew| - 1], e, req, c)
        + (if Drain(e[k.name], req, c).current >= c.doubleMargin then [k] else [])
  }

  /** The "30 seconds to live" messages of a tick on reserves, in roster order. */
  function CrossingNotices(crew: seq<CrewMember>, e: map<string, Info>, req: real, c: Config): (r: seq<Notice>)
    requires Drainable(e, c) && 0.0 <= req && AllTracked(crew, e)
    ensures |r| <= |crew|
  {
    if crew == [] then []
    else
      var k := crew[|crew| - 1];
      CrossingNotices(crew[..|crew| - 1], e, req, c)
        + (if Crosses(e[k.name], req, c) then [ThirtySeconds(k.name)] else [])
  }

  /** A crew member survives exactly when their drained reserve is still
      at least DOUBLE_MARGIN. */
  lemma {:induction false} SurvivorsMembers(crew: seq<CrewMember>, e: map<string, Info>, req: real, c: Config)
    requires Drainable(e, c) && 0.0 <= req && AllTracked(crew, e)
    ensures forall k :: k in Survivors(crew, e, req, c) <==>
      k in crew && Drain(e[k.name], req, c).current >= c.doubleMargin
  {
    if crew != [] {
      var init := crew[..|crew| - 1];
      assert crew == init + [crew[|crew| - 1]];
      SurvivorsMembers(init, e, req, c);
    }
  }

  /** Survivors keep their relative order: the filter distributes over
      concatenation. */
  lemma {:induction false} SurvivorsAppend(a: seq<CrewMember>, b: seq<CrewMember>, e: map<string, Info>, req: real, c: Config)
    requires Drainable(e, c) && 0.0 <= req && AllTracked(a, e) && AllTracked(b, e)
    ensures AllTracked(a + b, e)
    ensures Survivors(a + b, e, req, c) == Survivors(a, e, req, c) + Survivors(b, e, req, c)
  {
    if b != [] {
      var init := b[..|b| - 1];
      assert (a + b)[..|a + b| - 1] == a + init;
      SurvivorsAppend(a, init, e, req, c);
    } else {
      assert a + b == a;
    }
  }

  /** After the tick every survivor's reserve, read from the drained
      registry, is at least DOUBLE_MARGIN. */
  lemma SurvivorsAboveMargin(crew: seq<CrewMember>, e: map<string, Info>, req: real, c: Config)
    requires Drainable(e, c) && 0.0 <= req && AllTracked(crew, e)
    ensures forall k :: k in Survivors(crew, e, req, c) ==>
      k.name in e && Drained(e, Names(crew), req, c)[k.name].current >= c.doubleMargin
  {
    SurvivorsMembers(crew, e, req, c);
    forall k | k in Survivors(crew, e, req, c)
      ensures k.name in e && Drained(e, Names(crew), req, c)[k.name].current >= c.doubleMargin
    {
      var t :| 0 <= t < |crew| && crew[t] == k;
    }
  }

  /** One pass of the kill loop on the roster: from the roster reached
      after the first j original crew members, member j sits at position
      i, and removing them if killed (or stepping past them) gives the
      roster and position after j + 1. */
  lemma TickRoster(orig: seq<CrewMember>, j: nat, e: map<string, Info>, req: real, c: Config,
                   crew: seq<CrewMember>, i: nat)
    requires Drainable(e, c) && 0.0 <= req && AllTracked(orig, e) && j < |orig|
    requires crew == Survivors(orig[..j], e, req, c) + orig[j..] && i == |Survivors(orig[..j], e, req, c)|
    ensures i < |crew| && crew[i] == orig[j]
    ensures Drain(e[orig[j].name], req, c).current < c.doubleMargin ==>
      && KillKerbal(crew, i) == Survivors(orig[..j + 1], e, req, c) + orig[j + 1..]
      && i == |Survivors(orig[..j + 1], e, req, c)|
    ensures Drain(e[orig[j].name], req, c).current >= c.doubleMargin ==>
      && crew == Survivors(orig[..j + 1], e, req, c) + orig[j + 1..]
      && i + 1 == |Survivors(orig[..j + 1], e, req, c)|
  {
    var s := Survivors(orig[..j], e, req, c);
    var k := orig[j];
    var rest := orig[j + 1..];
    SurvivorsStep(orig, j, e, req, c);
    assert orig[j..] == [k] + rest;
    assert crew == s + [k] + rest;
    KillKerbalSplit(s, k, rest);
  }

  /** Extending the visited prefix by one member extends the survivors by
      that member, if they live. */
  lemma SurvivorsStep(orig: seq<CrewMember>, j: nat, e: map<string, Info>, req: real, c: Config)
    requires Drainable(e, c) && 0.0 <= req && AllTracked(orig, e) && j < |orig|
    ensures Survivors(orig[..j + 1], e, req, c) == Survivors(orig[..j], e, req, c)
      + (if Drain(e[orig[j].name], req, c).current >= c.doubleMargin then [orig[j]] else [])
  {
    var p := orig[..j + 1];
    assert p[..|p| - 1] == orig[..j];
    assert p[|p| - 1] == orig[j];
  }

  /** One pass of the kill loop on the registry and the messages: member
      j's entry is still the original one (names are distinct), and
      draining it gives the registry and messages after j + 1. */
  lemma TickEntries(orig: seq<CrewMember>, j: nat, e: map<string, Info>, req: real, c: Config,
                    entries: map<string, Info>)
    requires Drainable(e, c) && 0.0 <= req && AllTracked(orig, e) && DistinctNames(orig) && j < |orig|
    requires entries == Drained(e, Names(orig[..j]), req, c)
    ensures orig[j].name in entries && entries[orig[j].name] == e[orig[j].name]
    ensures entries[orig[j].name := Drain(e[orig[j].name], req, c)] == Drained(e, Names(orig[..j + 1]), req, c)
    ensures CrossingNotices(orig[..j + 1], e, req, c) == CrossingNotices(orig[..j], e, req, c)
      + (if Crosses(e[orig[j].name], req, c) then [ThirtySeconds(orig[j].name)] else [])
  {
    assert orig[..j + 1][..j] == orig[..j];
    NamesOfPrefix(orig, j);
    NotInEarlierNames(orig, j);
  }

  lemma ProductPositive(a: real, b: real)
    requires 0.0 < a && 0.0 < b
    ensures 0.0 < a * b
  {
  }

  /** One pass of OnStart's crew loop: track the name, deduct diff from
      its reserve (AddEVAAmount) and floor the result at KILL_BUFFER; the
      answer is the deducted reserve, before the floor. */
  method StartupMember(tracker: Tracker, name: string, diff: real, c: Config) returns (current: real)
    requires c.Valid() && tracker.Valid() && tracker.defaultMax == c.evaMax
    modifies tracker
    ensures tracker.Valid()
    ensures tracker.entries == StartStep(old(tracker.entries), name, diff, c)
    ensures current == Deducted(old(tracker.entries), name, diff, c)
  {
    tracker.AddKerbalToTracking(name);
    current := tracker.AddEVAAmount(name, -diff);
    if current < c.killBuffer {
      tracker.SetCurrentEVAAmount(name, c.killBuffer);
    }
  }

  /** Where OnStart's crew loop stands after the first i crew members:
      their reserves have been charged and floored, their messages posted,
      and the flag tells whether one of them was left under 30 seconds. */
  predicate StartState(crew: seq<CrewMember>, e: map<string, Info>, diff: real, c: Config,
                       i: nat, entries: map<string, Info>, notes: seq<Notice>, warned: bool)
    requires c.Valid() && Registry(e, c.evaMax)
  {
    && i <= |crew|
    && entries == AfterStartup(e, crew[..i], diff, c)
    && notes == StartupNotices(e, crew[..i], diff, c)
    && warned == SomeUnder30(e, crew, i, diff, c)
  }

  /** Before the first pass nothing has been charged. */
  lemma StartBegin(crew: seq<CrewMember>, e: map<string, Info>, diff: real, c: Config)
    requires c.Valid() && Registry(e, c.evaMax)
    ensures StartState(crew, e, diff, c, 0, e, [], false)
  {
    assert crew[..0] == [];
  }

  /** After the last pass the whole crew has been handled. */
  lemma StartEnd(crew: seq<CrewMember>, e: map<string, Info>, diff: real, c: Config,
                 entries: map<string, Info>, notes: seq<Notice>, warned: bool)
    requires c.Valid() && Registry(e, c.evaMax)
    requires StartState(crew, e, diff, c, |crew|, entries, notes, warned)
    ensures entries == AfterStartup(e, crew, diff, c)
    ensures notes == StartupNotices(e, crew, diff, c)
    ensures warned == SomeUnder30(e, crew, |crew|, diff, c)
  {
    assert crew[..|crew|] == crew;
  }

  /** One pass of OnStart's crew loop, on crew member i: StartupMember,
      the "seconds to live" message and the flag. */
  method StartVisit(crew: seq<CrewMember>, ghost e: map<string, Info>, tracker: Tracker, diff: real, c: Config,
                    i: nat, warned: bool, ghost notes: seq<Notice>)
    returns (warned': bool, ghost notes': seq<Notice>)
    requires c.Valid() && tracker.Valid() && tracker.defaultMax == c.evaMax
    requires Registry(e, c.evaMax) && DistinctNames(crew) && i < |crew|
    requires StartState(crew, e, diff, c, i, tracker.entries, notes, warned)
    modifies tracker
    ensures tracker.Valid()
    ensures StartState(crew, e, diff, c, i + 1, tracker.entries, notes', warned')
  {
    StartupPrefix(e, crew, i, diff, c);
    StartupFlag(e, crew, i, diff, c, warned);
    var current := StartupMember(tracker, crew[i].name, diff, c);
    notes' := notes + (if c.killBuffer <= current < c.eva30Seconds then [SecondsToLive(crew[i].name)] else []);
    warned' := warned || current < c.eva30Seconds;
  }

  /** OnStart's crew loop: every crew member's reserve is charged diff and
      floored at KILL_BUFFER; a "seconds to live" message goes out for each
      deducted reserve between KILL_BUFFER and 30 seconds, and the warning
      flag is raised iff some deducted reserve is under 30 seconds. */
  method StartupCrew(crew: seq<CrewMember>, tracker: Tracker, diff: real, c: Config)
    returns (warned: bool, ghost notes: seq<Notice>)
    requires c.Valid() && tracker.Valid() && tracker.defaultMax == c.evaMax
    requires DistinctNames(crew)
    modifies tracker
    ensures tracker.Valid()
    ensures tracker.entries == AfterStartup(old(tracker.entries), crew, diff, c)
    ensures Floored(tracker.entries, crew, |crew|, c)
    ensures notes == StartupNotices(old(tracker.entries), crew, diff, c)
    ensures warned == SomeUnder30(old(tracker.entries), crew, |crew|, diff, c)
  {
    ghost var e0 := tracker.entries;
    warned, notes := false, [];
    StartBegin(crew, e0, diff, c);
    var i: nat := 0;
    while i < |crew|
      invariant tracker.Valid()
      invariant StartState(crew, e0, diff, c, i, tracker.entries, notes, warned)
      decreases |crew| - i
    {
      warned, notes := StartVisit(crew, e0, tracker, diff, c, i, warned, notes);
      i := i + 1;
    }
    StartEnd(crew, e0, diff, c, tracker.entries, notes, warned);
    StartupFloors(e0, crew, diff, c);
  }

  /** One visit of FixedUpdate's kill loop: AddEVAAmount(-request), the
      threshold clamp on a downward crossing (where the source stops time
      warp and posts a message), and the verdict: killed iff the reserve is
      now under DOUBLE_MARGIN. */
  method DrainMember(tracker: Tracker, name: string, request: real, c: Config) returns (crossed: bool, killed: bool)
    requires c.Valid() && tracker.Valid() && tracker.defaultMax == c.evaMax
    requires name in tracker.entries && 0.0 <= request
    modifies tracker
    ensures tracker.Valid()
    ensures var info := old(tracker.entries)[name];
      && tracker.entries == old(tracker.entries)[name := Drain(info, request, c)]
      && (crossed <==> Crosses(info, request, c))
      && (killed <==> Drain(info, request, c).current < c.doubleMargin)
  {
    var prior := tracker.GetEVALSInfo(name).current;
    var currentEva := tracker.AddEVAAmount(name, -request);
    crossed := prior > c.eva30Seconds && currentEva <= c.eva30Seconds;
    if crossed {
      tracker.SetCurrentEVAAmount(name, c.eva30Seconds);
    }
    killed := tracker.GetEVALSInfo(name).current < c.doubleMargin;
  }

  /** Where FixedUpdate's kill loop stands after visiting the first j
      original crew members: the roster holds their survivors followed by
      the members not yet visited, the index sits just past the
      survivors, those j have been drained and their crossings reported. */
  predicate KillState(orig: seq<CrewMember>, e: map<string, Info>, req: real, c: Config,
                      j: nat, crew: seq<CrewMember>, i: nat, entries: map<string, Info>, notes: seq<Notice>)
    requires Drainable(e, c) && 0.0 <= req && AllTracked(orig, e)
  {
    && j <= |orig|
    && crew == Survivors(orig[..j], e, req, c) + orig[j..]
    && i == |Survivors(orig[..j], e, req, c)|
    && entries == Drained(e, Names(orig[..j]), req, c)
    && notes == CrossingNotices(orig[..j], e, req, c)
  }

  /** Before the first visit nothing has been drained or removed. */
  lemma KillStart(orig: seq<CrewMember>, e: map<string, Info>, req: real, c: Config)
    requires Drainable(e, c) && 0.0 <= req && AllTracked(orig, e)
    ensures KillState(orig, e, req, c, 0, orig, 0, e, [])
  {
    assert orig[..0] == [];
  }

  /** While the index is inside the roster some original member is still
      to be visited. */
  lemma KillMore(orig: seq<CrewMember>, e: map<string, Info>, req: real, c: Config,
                 j: nat, crew: seq<CrewMember>, i: nat, entries: map<string, Info>, notes: seq<Notice>)
    requires Drainable(e, c) && 0.0 <= req && AllTracked(orig, e)
    requires KillState(orig, e, req, c, j, crew, i, entries, notes) && i < |crew|
    ensures j < |orig|
  {
  }

  /** When the index has reached the end of the roster, every original
      member has been visited. */
  lemma KillDone(orig: seq<CrewMember>, e: map<string, Info>, req: real, c: Config,
                 j: nat, crew: seq<CrewMember>, i: nat, entries: map<string, Info>, notes: seq<Notice>)
    requires Drainable(e, c) && 0.0 <= req && AllTracked(orig, e)
    requires KillState(orig, e, req, c, j, crew, i, entries, notes) && |crew| <= i
    ensures crew == Survivors(orig, e, req, c)
    ensures entries == Drained(e, Names(orig), req, c)
    ensures notes == CrossingNotices(orig, e, req, c)
  {
    assert orig[..j] == orig;
  }

  /** One visit of the kill loop, on the crew member at index i, who is
      original member j: DrainMember, then either the removal of the
      member from the roster with the index left in place (the source's
      `continue`) or a step of the index past them. */
  method KillVisit(orig: seq<CrewMember>, ghost e: map<string, Info>, tracker: Tracker, request: real, c: Config,
                   crew: seq<CrewMember>, i: nat, ghost j: nat, ghost notes: seq<Notice>)
    returns (crew': seq<CrewMember>, i': nat, ghost notes': seq<Notice>)
    requires tracker.Valid() && tracker.defaultMax == c.evaMax
    requires Drainable(e, c) && 0.0 <= request && AllTracked(orig, e) && DistinctNames(orig)
    requires j < |orig| && KillState(orig, e, request, c, j, crew, i, tracker.entries, notes)
    modifies tracker
    ensures tracker.Valid()
    ensures KillState(orig, e, request, c, j + 1, crew', i', tracker.entries, notes')
  {
    TickRoster(orig, j, e, request, c, crew, i);
    TickEntries(orig, j, e, request, c, tracker.entries);
    var crossed, killed := DrainMember(tracker, crew[i].name, request, c);
    notes' := notes + (if Crosses(e[orig[j].name], request, c) then [ThirtySeconds(orig[j].name)] else []);
    if killed {
      crew', i' := KillKerbal(crew, i), i;
    } else {
      crew', i' := crew, i + 1;
    }
  }

  /** FixedUpdate's kill loop, which edits the roster in place: each
      original crew member is visited once and drained by request; a
      member whose reserve falls under DOUBLE_MARGIN is removed without
      advancing the index. The answer is the surviving roster and the
      "30 seconds to live" messages, one per downward crossing. */
  method KillLoop(orig: seq<CrewMember>, tracker: Tracker, request: real, c: Config)
    returns (crew: seq<CrewMember>, ghost notes: seq<Notice>)
    requires c.Valid() && tracker.Valid() && tracker.defaultMax == c.evaMax && 0.0 <= request
    requires AllTracked(orig, tracker.entries) && DistinctNames(orig)
    modifies tracker
    ensures tracker.Valid()
    ensures crew == Survivors(orig, old(tracker.entries), request, c)
    ensures tracker.entries == Drained(old(tracker.entries), Names(orig), request, c)
    ensures notes == CrossingNotices(orig, old(tracker.entries), request, c)
  {
    ghost var e0 := tracker.entries;
    notes := [];
    crew := orig;
    ghost var j := 0;
    var i: nat := 0;
    KillStart(orig, e0, request, c);
    while i < |crew|
      invariant tracker.Valid()
      invariant KillState(orig, e0, request, c, j, crew, i, tracker.entries, notes)
      decreases |orig| - j
    {
      KillMore(orig, e0, request, c, j, crew, i, tracker.entries, notes);
      crew, i, notes := KillVisit(orig, e0, tracker, request, c, crew, i, j, notes);
      j := j + 1;
    }
    KillDone(orig, e0, request, c, j, crew, i, tracker.entries, notes);
  }

  /** The vessel side of OnStart in flight: a vessel named by a rescue
      contract gets half its life-support capacity, that contract is
      dropped and nobody's reserve is charged; any other vessel is charged
      for the elapsed time (see StartupRequest). The answer is the amount
      of reserve each crew member owes: the seconds the vessel could not
      cover at EVA_LS_DRAIN_PER_SEC. */
  method ChargeVessel(ls: Pool, contracts: ContractChecker, flightId: string, elapsed: real, c: Config)
    returns (evaDiff: real)
    requires c.Valid() && ls.Valid() && 0.0 <= elapsed
    modifies ls, contracts
    ensures ls.Valid() && 0.0 <= evaDiff
    ensures var g := old(contracts.guids);
      var idx := FirstRescue(g, contracts.partIds, flightId);
      && (0 <= idx ==>
            && contracts.guids == g[..idx] + g[idx + 1..]
            && ls.amount == ls.maxAmount / 2.0
            && evaDiff == 0.0)
      && (idx < 0 ==> contracts.guids == g && ls.amount <= old(ls.amount))
  {
    var idx := contracts.FindRescue(flightId);
    var skipStartupRequest := false;
    if 0 <= idx {
      RescueRemovesItsGuid(contracts.guids, contracts.partIds, flightId);
      contracts.Remove(contracts.guids[idx]);
      ls.amount := ls.maxAmount / 2.0;
      skipStartupRequest := true;
    }
    var secondsRemaining := 0.0;
    if !skipStartupRequest {
      secondsRemaining := StartupRequest(ls, c.lsDrainPerSec, elapsed);
    }
    ProductNonNegative(secondsRemaining, c.evaDrainPerSec);
    evaDiff := secondsRemaining * c.evaDrainPerSec;
  }

  lemma ProductNonNegative(a: real, b: real)
    requires 0.0 <= a && 0.0 <= b
    ensures 0.0 <= a * b
  {
  }

  /** The crew's share of the vessel's life support for a tick of dt
      seconds: LS_DRAIN_PER_SEC per crew member. */
  function CrewShare(crewCount: nat, dt: real, c: Config): (r: real)
    requires c.Valid() && 0.0 < dt
    ensures 0.0 <= r
  {
    ProductNonNegative(crewCount as real, c.lsDrainPerSec);
    ProductNonNegative(crewCount as real * c.lsDrainPerSec, dt);
    crewCount as real * c.lsDrainPerSec * dt
  }

  /** What a tick of dt seconds drains from one crew member's reserve. */
  function ReserveShare(dt: real, c: Config): (r: real)
    requires c.Valid() && 0.0 < dt
    ensures 0.0 < r
  {
    ProductPositive(c.evaDrainPerSec, dt);
    c.evaDrainPerSec * dt
  }

  /** The part module carrying the vessel's life support. */
  class LifeSupportModule {
    var crew: seq<CrewMember>     // part.protoModuleCrew
    var warned: bool              // showed_eva_warning
    const flightId: string        // part.flightID, as text
    const c: Config
    const ls: Pool                // the vessel's life support
    const tracker: Tracker        // EVALifeSupportTracker
    const contracts: ContractChecker
    ghost var notices: seq<Notice>
    ghost var warpForced: bool    // TimeWarp.SetRate(0) was called

    predicate Valid()
      reads this, ls, tracker
    {
      && c.Valid() && ls.Valid() && tracker.Valid()
      && tracker.defaultMax == c.evaMax
    }

    constructor (crew: seq<CrewMember>, flightId: string, c: Config, ls: Pool, tracker: Tracker, contracts: ContractChecker)
      requires c.Valid() && ls.Valid() && tracker.Valid() && tracker.defaultMax == c.evaMax
      ensures Valid() && !warned && notices == [] && !warpForced
      ensures this.crew == crew && this.flightId == flightId && this.c == c
      ensures this.ls == ls && this.tracker == tracker && this.contracts == contracts
    {
      this.crew := crew;
      this.flightId := flightId;
      this.c := c;
      this.ls := ls;
      this.tracker := tracker;
      this.contracts := contracts;
      warned := false;
      notices := [];
      warpForced := false;
    }

    /** OnStart. Outside a flight scene only the flag is reset. In flight:
        a vessel named by a rescue contract gets half its life-support
        capacity, that contract is dropped and nobody's reserve is charged;
        any other vessel is charged for the elapsed time (see
        StartupRequest) and the seconds it could not cover are charged to
        every crew member's reserve, which is floored at KILL_BUFFER. The
        flag is raised iff some deducted reserve is under 30 seconds. */
    method OnStart(inFlight: bool, elapsed: real) returns (evaDiff: real)
      requires Valid() && 0.0 <= elapsed && DistinctNames(crew)
      modifies this, ls, tracker, contracts
      ensures Valid() && crew == old(crew)
      ensures !inFlight ==>
        && !warned && unchanged(ls, tracker, contracts)
        && notices == old(notices) && warpForced == old(warpForced)
      ensures inFlight ==>
        var g := old(contracts.guids);
        var idx := FirstRescue(g, contracts.partIds, flightId);
        && (0 <= idx ==>
              && contracts.guids == g[..idx] + g[idx + 1..]
              && ls.amount == ls.maxAmount / 2.0
              && evaDiff == 0.0)
        && (idx < 0 ==> contracts.guids == g && ls.amount <= old(ls.amount) && 0.0 <= evaDiff)
        && tracker.entries == AfterStartup(old(tracker.entries), crew, evaDiff, c)
        && Floored(tracker.entries, crew, |crew|, c)
        && warned == SomeUnder30(old(tracker.entries), crew, |crew|, evaDiff, c)
        && notices == old(notices) + StartupNotices(old(tracker.entries), crew, evaDiff, c)
        && warpForced == old(warpForced)
    {
      warned := false;
      evaDiff := 0.0;
      if !inFlight {
        return;
      }
      evaDiff := ChargeVessel(ls, contracts, flightId, elapsed, c);
      ghost var notes;
      warned, notes := StartupCrew(crew, tracker, evaDiff, c);
      notices := notices + notes;
    }

    /** FixedUpdate. With nobody aboard only the flag is reset; in a
        breathable atmosphere nothing happens. Otherwise the crew's share,
        |crew|·LS_DRAIN_PER_SEC·dt, is requested from the vessel's life
        support; if any arrives the flag is reset. If none does, the first
        such tick stops time warp and warns, and every crew member is
        drained from their reserve (see DrainCrew). */
    method FixedUpdate(env: Environment, dt: real)
      requires Valid() && 0.0 < dt
      requires AllTracked(crew, tracker.entries) && DistinctNames(crew)
      modifies this, ls, tracker
      ensures Valid()
      ensures old(crew) == [] ==>
        && !warned && crew == old(crew) && unchanged(ls, tracker)
        && notices == old(notices) && warpForced == old(warpForced)
      ensures old(crew) != [] && Breathable(env, c) ==>
        && warned == old(warned) && crew == old(crew) && unchanged(ls, tracker)
        && notices == old(notices) && warpForced == old(warpForced)
      ensures old(crew) != [] && !Breathable(env, c) ==>
        var got := Transfer(old(ls.amount), ls.maxAmount, CrewShare(|old(crew)|, dt, c));
        var req := ReserveShare(dt, c);
        && ls.amount == old(ls.amount) - got
        && (got > 0.0 ==>
              && !warned && crew == old(crew) && tracker.entries == old(tracker.entries)
              && notices == old(notices) && warpForced == old(warpForced))
        && (got <= 0.0 ==>
              && warned
              && crew == Survivors(old(crew), old(tracker.entries), req, c)
              && tracker.entries == Drained(old(tracker.entries), Names(old(crew)), req, c)
              && notices == old(notices) + (if old(warned) then [] else [OutOfLifeSupport])
                   + CrossingNotices(old(crew), old(tracker.entries), req, c)
              && warpForced == (old(warpForced) || !old(warned)
                   || CrossingNotices(old(crew), old(tracker.entries), req, c) != []))
    {
      if |crew| == 0 {
        warned := false;
        return;
      }
      if Breathable(env, c) {
        return;
      }
      var crewCount := |crew|;
      var lsRequest := crewCount as real * c.lsDrainPerSec * dt;
      assert lsRequest == CrewShare(crewCount, dt, c);
      var retRs := ls.Request(lsRequest);
      if retRs > 0.0 {
        warned := false;
        return;
      }
      if !warned {
        warpForced := true;
        warned := true;
        notices := notices + [OutOfLifeSupport];
      }
      DrainCrew(dt);
    }

    /** The rest of a tick on reserves: every crew member is drained by
        EVA_LS_DRAIN_PER_SEC·dt (see KillLoop); a downward crossing of the
        30-second threshold stops time warp. */
    method DrainCrew(dt: real)
      requires Valid() && 0.0 < dt
      requires AllTracked(crew, tracker.entries) && DistinctNames(crew)
      modifies this`crew, tracker, this`notices, this`warpForced
      ensures Valid()
      ensures var req := ReserveShare(dt, c);
        && crew == Survivors(old(crew), old(tracker.entries), req, c)
        && tracker.entries == Drained(old(tracker.entries), Names(old(crew)), req, c)
        && notices == old(notices) + CrossingNotices(old(crew), old(tracker.entries), req, c)
        && warpForced == (old(warpForced) || CrossingNotices(old(crew), old(tracker.entries), req, c) != [])
    {
      var request := c.evaDrainPerSec * dt;
      assert request == ReserveShare(dt, c);
      var survivors, notes := KillLoop(crew, tracker, request, c);
      crew := survivors;
      notices := notices + notes;
      warpForced := warpForced || notes != [];
    }
  }
}
