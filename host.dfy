/** Host-side vocabulary shared by the three part modules: the mod's
    constants, crew members, the flight environment, the operator
    notices they post, and the crew-roster removal that stands for
    Util.KillKerbal. */
module Host {

  /** The constants of the mod (class C), taken as parameters.
      Every amount and rate is a real number, not a double. */
  datatype Config = Config(
    doubleMargin: real,          // DOUBLE_MARGIN: "effectively zero" reserve
    almostOne: real,             // DOUBLE_ALMOST_ONE: shortfall tolerance of a pull
    killBuffer: real,            // KILL_BUFFER: startup floor of a reserve
    eva30Seconds: real,          // EVA_LS_30_SECONDS: the 30-second threshold
    lsDrainPerSec: real,         // LS_DRAIN_PER_SEC: per crew member, shared pool
    evaDrainPerSec: real,        // EVA_LS_DRAIN_PER_SEC: per crew member, reserve
    consToEva: real,             // CONS_TO_EVA: consumables per unit of reserve refilled
    convElecPerSec: real,        // CONV_ELEC_PER_SEC: converter input
    convConsPerSec: real,        // CONV_CONS_PER_SEC: converter input
    convLsPerSec: real,          // CONV_LS_PER_SEC: converter output (a negative request)
    oxygenCutoffAltitude: real,  // OXYGEN_CUTOFF_ALTITUDE
    evaMax: real)                // capacity of every crew member's reserve
  {
    /** The signs and orderings of the constants that the modules rely on. */
    predicate Valid() {
      && 0.0 < doubleMargin
      && 0.0 < almostOne <= 1.0
      && 0.0 < killBuffer <= evaMax
      && 0.0 < eva30Seconds <= evaMax
      && 0.0 < lsDrainPerSec
      && 0.0 < evaDrainPerSec
      && 0.0 < consToEva
      && 0.0 < convElecPerSec
      && 0.0 < convConsPerSec
      && convLsPerSec < 0.0
    }
  }

  /** A crew member as the modules see one: a unique name and the
      experience trait's type name ("Engineer", "Pilot", ...). */
  datatype CrewMember = CrewMember(name: string, traitName: string)

  /** What the vessel's surroundings offer: does the main body's
      atmosphere contain oxygen, and how high the vessel is. */
  datatype Environment = Environment(oxygen: bool, altitude: real)

  /** Below the cutoff altitude in an oxygen atmosphere no life support
      is consumed. */
  predicate Breathable(env: Environment, c: Config) {
    env.oxygen && env.altitude < c.oxygenCutoffAltitude
  }

  /** The resources the modules request, by name: electric charge, consumables,
      the vessel's life support (LS) and a crew member's EVA life support. */
  datatype Resource = Electricity | Consumables | LS | EvaLifeSupport

  /** The operator messages the modules post, by kind (their text and
      display duration are not modelled). */
  datatype Notice =
    | NeedsEngineer                 // converter is not manned by an engineer
    | NotEnough(resource: Resource) // a converter pull came up short
    | IsFull(resource: Resource)    // a converter deposit found the pool full
    | OutOfLifeSupport              // a vessel switched its crew to their reserves
    | SecondsToLive(kerbal: string) // startup: a reserve under 30 seconds
    | ThirtySeconds(kerbal: string) // a reserve crossed 30 seconds downward

  function Names(crew: seq<CrewMember>): set<string> {
    set k | k in crew :: k.name
  }

  /** Crew names are unique in the host's roster. */
  predicate DistinctNames(crew: seq<CrewMember>) {
    forall a, b :: 0 <= a < b < |crew| ==> crew[a].name != crew[b].name
  }

  lemma NamesOfPrefix(crew: seq<CrewMember>, j: nat)
    requires j < |crew|
    ensures Names(crew[..j + 1]) == Names(crew[..j]) + {crew[j].name}
  {
    assert crew[..j + 1] == crew[..j] + [crew[j]];
  }

  /** In a roster with distinct names, nobody before position j shares
      the name of the member at j. */
  lemma NotInEarlierNames(crew: seq<CrewMember>, j: nat)
    requires j < |crew| && DistinctNames(crew)
    ensures crew[j].name !in Names(crew[..j])
  {
    forall k | k in crew[..j] ensures k.name != crew[j].name {
      var t :| 0 <= t < j && crew[..j][t] == k;
    }
  }

  /** Util.KillKerbal removes exactly the crew member at position i from
      the roster and keeps everyone else, in order. */
  function KillKerbal(crew: seq<CrewMember>, i: nat): (r: seq<CrewMember>)
    requires i < |crew|
    ensures |r| == |crew| - 1
    ensures forall j :: 0 <= j < i ==> r[j] == crew[j]
    ensures forall j :: i <= j < |r| ==> r[j] == crew[j + 1]
    ensures multiset(r) + multiset{crew[i]} == multiset(crew)
  {
    assert crew == crew[..i] + [crew[i]] + crew[i + 1..];
    crew[..i] + crew[i + 1..]
  }

  /** Removing the member between two parts of a roster leaves the two
      parts joined. */
  lemma KillKerbalSplit(s: seq<CrewMember>, k: CrewMember, rest: seq<CrewMember>)
    ensures KillKerbal(s + [k] + rest, |s|) == s + rest
  {
    var crew := s + [k] + rest;
    assert crew[..|s|] == s;
    assert crew[|s| + 1..] == rest;
  }

  /** Removing one member keeps the roster's names distinct. */
  lemma KillKeepsDistinct(crew: seq<CrewMember>, i: nat)
    requires i < |crew| && DistinctNames(crew)
    ensures DistinctNames(KillKerbal(crew, i))
  {
    var r := KillKerbal(crew, i);
    forall a, b | 0 <= a < b < |r| ensures r[a].name != r[b].name {
      var a' := if a < i then a else a + 1;
      var b' := if b < i then b else b + 1;
      assert r[a] == crew[a'] && r[b] == crew[b'] && a' < b';
    }
  }
}
