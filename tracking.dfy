/** The EVA life-support registry (EVALifeSupportTracker): a process-wide
    map from crew name to a personal reserve {current, max}. Its source is
    not part of this model; the operations below are the ones its call
    sites use, and clamping every written value into [0, max] is an
    assumption of this model. */
module Tracking {

  datatype Info = Info(current: real, max: real)

  function Clamp(v: real, lo: real, hi: real): (r: real)
    requires lo <= hi
    ensures lo <= r <= hi
    ensures lo <= v <= hi ==> r == v
    ensures v < lo ==> r == lo
    ensures hi < v ==> r == hi
  {
    if v < lo then lo else if hi < v then hi else v
  }

  /** Every reserve lies within its own capacity. */
  predicate WellFormed(e: map<string, Info>) {
    forall n :: n in e ==> 0.0 <= e[n].current <= e[n].max
  }

  /** AddKerbalToTracking on the map: a new name gets a full reserve of
      the default capacity, a known name is left as it is. */
  function WithTracked(e: map<string, Info>, name: string, defaultMax: real): (r: map<string, Info>)
    ensures r.Keys == e.Keys + {name}
    ensures forall n :: n in e ==> r[n] == e[n]
    ensures name !in e ==> r[name] == Info(defaultMax, defaultMax)
  {
    if name in e then e else e[name := Info(defaultMax, defaultMax)]
  }

  /** SetCurrentEVAAmount on the map: only name's current changes, to the
      value clamped into [0, max]. */
  function WithCurrent(e: map<string, Info>, name: string, value: real): (r: map<string, Info>)
    requires name in e && 0.0 <= e[name].max
    ensures r.Keys == e.Keys
    ensures r[name].max == e[name].max
    ensures 0.0 <= r[name].current <= r[name].max
    ensures 0.0 <= value <= e[name].max ==> r[name].current == value
    ensures forall n :: n in e && n != name ==> r[n] == e[n]
  {
    e[name := Info(Clamp(value, 0.0, e[name].max), e[name].max)]
  }

  /** A registry whose reserves are well formed and all of capacity max. */
  predicate Registry(e: map<string, Info>, max: real) {
    WellFormed(e) && forall n :: n in e ==> e[n].max == max
  }

  /** Ensuring a name is tracked twice is the same as once. */
  lemma TrackIdempotent(e: map<string, Info>, name: string, defaultMax: real)
    ensures WithTracked(WithTracked(e, name, defaultMax), name, defaultMax) == WithTracked(e, name, defaultMax)
  {
  }

  /** A deduction larger than the reserve leaves it at 0, never below
      (an entry with max 300 and a change of -1000 ends at 0). */
  lemma AddClampsAtZero(e: map<string, Info>, name: string, delta: real)
    requires name in e && WellFormed(e) && e[name].current + delta < 0.0
    ensures WithCurrent(e, name, e[name].current + delta)[name].current == 0.0
  {
  }

  class Tracker {
    const defaultMax: real
    var entries: map<string, Info>

    /** Every reserve is well formed and has the default capacity. */
    predicate Valid()
      reads this
    {
      0.0 <= defaultMax && Registry(entries, defaultMax)
    }

    constructor (defaultMax: real)
      requires 0.0 <= defaultMax
      ensures Valid() && this.defaultMax == defaultMax && entries == map[]
    {
      this.defaultMax := defaultMax;
      entries := map[];
    }

    method AddKerbalToTracking(name: string)
      requires Valid()
      modifies this
      ensures Valid()
      ensures entries == WithTracked(old(entries), name, defaultMax)
    {
      if name !in entries {
        entries := entries[name := Info(defaultMax, defaultMax)];
      }
    }

    predicate InTracking(name: string)
      reads this
    {
      name in entries
    }

    /** GetEVALSInfo; looking up a name that was never tracked is a defect
        of the caller (the dictionary throws), hence the precondition. */
    function GetEVALSInfo(name: string): (info: Info)
      reads this
      requires Valid() && InTracking(name)
      ensures 0.0 <= info.current <= info.max == defaultMax
    {
      entries[name]
    }

    method SetCurrentEVAAmount(name: string, value: real)
      requires Valid() && InTracking(name)
      modifies this
      ensures Valid()
      ensures entries == WithCurrent(old(entries), name, value)
    {
      entries := WithCurrent(entries, name, value);
    }

    /** AddEVAAmount: changes name's reserve by delta, clamped, and
        returns the new current. */
    method AddEVAAmount(name: string, delta: real) returns (current: real)
      requires Valid() && InTracking(name)
      modifies this
      ensures Valid()
      ensures entries == WithCurrent(old(entries), name, old(entries)[name].current + delta)
      ensures current == entries[name].current
    {
      entries := WithCurrent(entries, name, entries[name].current + delta);
      current := entries[name].current;
    }
  }
}
