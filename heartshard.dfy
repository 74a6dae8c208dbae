/** heartshard_engine_v2.py: the HeartShard narrative engine. Eight characters, each at one
    corner of a three-axis ±1 polarity cube, can enter the Maw (an irreversible exclusion that
    broadcasts a birth signal and records an exclusion event), and each exclusion can seed a
    next generation whose polarity is the departed one's with at most two axes flipped. */
module HeartShard {
  import opened Wrappers
  import opened Text

  // ---------------------------------------------------------------------------------------
  // Polarity

  datatype Polarity = Positive | Negative

  /** `Polarity.flip()`. */
  function Flip(p: Polarity): (q: Polarity)
    ensures q != p
  {
    if p == Positive then Negative else Positive
  }

  /** `PolarityState(x, y, z)`. */
  datatype PolarityState = PolarityState(x: Polarity, y: Polarity, z: Polarity)

  /** Axis i (0, 1, 2 for x, y, z), as `enumerate` lists them. */
  function Axis(s: PolarityState, i: nat): Polarity
    requires i < 3
  {
    if i == 0 then s.x else if i == 1 then s.y else s.z
  }

  /** The number of axes on which two states differ. */
  function Distance(s: PolarityState, t: PolarityState): (d: nat)
    ensures d <= 3
    ensures d == 0 <==> s == t
  {
    (if s.x != t.x then 1 else 0) + (if s.y != t.y then 1 else 0) + (if s.z != t.z then 1 else 0)
  }

  /** Every axis flipped. */
  function Inverted(s: PolarityState): (t: PolarityState)
    ensures Distance(s, t) == 3
  {
    PolarityState(Flip(s.x), Flip(s.y), Flip(s.z))
  }

  /** `Polarity.value`: +1 or -1. */
  function Sign(p: Polarity): int
  {
    if p == Positive then 1 else -1
  }

  /** `to_tuple()`: the three signs. */
  function ToTuple(s: PolarityState): (t: seq<int>)
    ensures |t| == 3 && forall i :: 0 <= i < 3 ==> t[i] == 1 || t[i] == -1
  {
    [Sign(s.x), Sign(s.y), Sign(s.z)]
  }

  function FromSign(v: int): Polarity
  {
    if v == 1 then Positive else Negative
  }

  /** Reading a saved triple back. */
  function FromTuple(t: seq<int>): Option<PolarityState>
  {
    if |t| == 3 && forall i :: 0 <= i < 3 ==> t[i] == 1 || t[i] == -1
    then Some(PolarityState(FromSign(t[0]), FromSign(t[1]), FromSign(t[2])))
    else None
  }

  /** The saved triple determines the polarity. */
  lemma TupleRoundTrip(s: PolarityState)
    ensures FromTuple(ToTuple(s)) == Some(s)
  {
  }

  lemma ToTupleInjective(s: PolarityState, t: PolarityState)
    requires ToTuple(s) == ToTuple(t)
    ensures s == t
  {
    TupleRoundTrip(s);
    TupleRoundTrip(t);
  }

  /** `PolarityState(*[p.flip() if i in flips else p for i, p in enumerate(pol)])`. */
  function FlipAxes(s: PolarityState, flips: seq<nat>): PolarityState
  {
    PolarityState(if 0 in flips then Flip(s.x) else s.x,
                  if 1 in flips then Flip(s.y) else s.y,
                  if 2 in flips then Flip(s.z) else s.z)
  }

  /** How many of the axes 0, 1, 2 occur among the drawn indices; a repeated draw counts once. */
  function FlippedAxes(flips: seq<nat>): nat
  {
    (if 0 in flips then 1 else 0) + (if 1 in flips then 1 else 0) + (if 2 in flips then 1 else 0)
  }

  lemma {:induction false} FlippedAxesBound(flips: seq<nat>)
    ensures FlippedAxes(flips) <= |flips|
  {
    if flips != [] {
      FlippedAxesBound(flips[1..]);
      assert forall a :: a in flips <==> a == flips[0] || a in flips[1..];
    }
  }

  /** The child differs from its source exactly on the drawn axes, so two draws move it at
      most two axes and never to the full inversion. */
  lemma FlipAxesStaysClose(s: PolarityState, flips: seq<nat>)
    requires |flips| <= 2
    ensures Distance(s, FlipAxes(s, flips)) == FlippedAxes(flips) <= 2
    ensures FlipAxes(s, flips) != Inverted(s)
  {
    FlippedAxesBound(flips);
  }

  // ---------------------------------------------------------------------------------------
  // Records

  /** `BondType`. */
  datatype BondType = Trust | Opposition | Protection | Dependency | Mirror | Mediated | Unknown

  /** A bond of the relationship graph between two names. */
  datatype Bond = Bond(a: string, b: string, kind: BondType)

  /** `Signal`. The fields a call leaves to the class's defaults (not shown in the engine
      file) are None. */
  datatype Signal = Signal(source: string, target: string, eventType: string,
                           friction: real, timestamp: real, entropyDelta: real,
                           polarityChange: Option<PolarityState>, signalLocation: Option<PolarityState>,
                           generation: Option<int>, lineage: Option<seq<string>>)

  /** `Character`, with the fields the engine reads or writes. */
  datatype Character = Character(name: string, polarity: PolarityState, archetype: string, coreWound: string,
                                 insideEye: bool, entropy: real, bonds: set<string>,
                                 generation: int, lineage: seq<string>, birthSignal: Option<Signal>)

  /** `ExclusionEvent`; the timeline snapshot it also carries is left out. */
  datatype ExclusionEvent = ExclusionEvent(character: string, bondsAtEntry: set<Bond>, healing: real, timestamp: real)

  /** The generation a new character starts at. */
  const InitialGeneration: int := 1

  /** One entry of the `characters` dictionary: key, name, polarity, archetype, core wound. */
  datatype Seed = Seed(key: string, name: string, polarity: PolarityState, archetype: string, coreWound: string)

  /** The roster, in dictionary order. */
  function Roster(): seq<Seed>
  {
    [ Seed("lila", "Lila", PolarityState(Positive, Negative, Positive), "quiet_wanderer", "hoards_heartshard_believes_only_for_self"),
      Seed("theo", "Theo", PolarityState(Negative, Positive, Negative), "branded_believer", "inherited_duty"),
      Seed("furin", "Furin", PolarityState(Positive, Positive, Negative), "bleeding_mechanic", "self_harm_machines"),
      Seed("chanti", "Chanti", PolarityState(Negative, Negative, Positive), "jaded_fighter", "tilt_explosions"),
      Seed("kai", "Kai", PolarityState(Negative, Negative, Negative), "abyss_child", "mother_chase"),
      Seed("ori", "Ori", PolarityState(Positive, Negative, Negative), "liquid_sword", "frozen_fish"),
      Seed("ayni", "Ayni", PolarityState(Positive, Positive, Positive), "stone_pillar", "downward_rolls"),
      Seed("ion", "Ion", PolarityState(Negative, Positive, Positive), "frequency_child", "over_excitement") ]
  }

  /** The signal each seeded character carries from birth. */
  function BirthSignal(key: string, polarity: PolarityState): Signal
  {
    Signal(key, "maw", "birth", 1.0, 0.0, 0.0, None, Some(polarity), None, None)
  }

  /** A roster entry as installed: a fresh character with its birth signal attached. */
  function Seeded(seed: Seed, entropy: real): (c: Character)
    ensures c.polarity == seed.polarity && !c.insideEye
    ensures c.birthSignal.Some? && c.birthSignal.value.signalLocation == Some(c.polarity)
    ensures c.birthSignal.value.source == seed.key
    ensures c.birthSignal.value.timestamp == 0.0 && c.birthSignal.value.friction == 1.0
  {
    Character(seed.name, seed.polarity, seed.archetype, seed.coreWound, false, entropy, {},
              InitialGeneration, [], Some(BirthSignal(seed.key, seed.polarity)))
  }

  /** The `for name, char in characters.items()` loop: each seed installed under its key. */
  method Install(roster: seq<Seed>, entropy: real) returns (es: map<string, Character>)
    requires forall i, j :: 0 <= i < j < |roster| ==> roster[i].key != roster[j].key
    ensures es.Keys == set i | 0 <= i < |roster| :: roster[i].key
    ensures forall i :: 0 <= i < |roster| ==> es[roster[i].key] == Seeded(roster[i], entropy)
  {
    es := map[];
    for i := 0 to |roster|
      invariant es.Keys == set j | 0 <= j < i :: roster[j].key
      invariant forall j :: 0 <= j < i ==> es[roster[j].key] == Seeded(roster[j], entropy)
    {
      es := es[roster[i].key := Seeded(roster[i], entropy)];
    }
  }

  /** No two roster entries share a key or a polarity. */
  lemma RosterDistinct()
    ensures |Roster()| == 8
    ensures forall i, j :: 0 <= i < j < |Roster()| ==> Roster()[i].key != Roster()[j].key
    ensures forall i, j :: 0 <= i < j < |Roster()| ==> Roster()[i].polarity != Roster()[j].polarity
  {
  }

  /** Eight distinct triples of signs: the roster occupies every corner of the polarity cube. */
  lemma RosterCoversAllPolarities(s: PolarityState)
    ensures exists i :: 0 <= i < |Roster()| && Roster()[i].polarity == s
  {
    var r := Roster();
    match s
    case PolarityState(Positive, Negative, Positive) => assert r[0].polarity == s;
    case PolarityState(Negative, Positive, Negative) => assert r[1].polarity == s;
    case PolarityState(Positive, Positive, Negative) => assert r[2].polarity == s;
    case PolarityState(Negative, Negative, Positive) => assert r[3].polarity == s;
    case PolarityState(Negative, Negative, Negative) => assert r[4].polarity == s;
    case PolarityState(Positive, Negative, Negative) => assert r[5].polarity == s;
    case PolarityState(Positive, Positive, Positive) => assert r[6].polarity == s;
    case PolarityState(Negative, Positive, Positive) => assert r[7].polarity == s;
  }

  /** `1.0 / len(entered_eye)`: full healing for the first to enter, never more, never none. */
  function Healing(entered: nat): (h: real)
    requires entered >= 1
    ensures 0.0 < h <= 1.0
    ensures entered == 1 <==> h == 1.0
  {
    1.0 / (entered as real)
  }

  /** The more characters have entered the eye, the less each new entry heals. */
  lemma HealingNonIncreasing(m: nat, n: nat)
    requires 1 <= m <= n
    ensures Healing(n) <= Healing(m)
  {
    var a, b := m as real, n as real;
    var hm, hn := Healing(m), Healing(n);
    assert hn * b == 1.0 && hm * a == 1.0;
    assert hn * a <= hn * b;
  }

  /** `f"{character}_gen{playthrough}"`. */
  function ChildName(character: string, playthrough: nat): string
  {
    character + "_gen" + NatToString(playthrough)
  }

  /** Different playthroughs give one character's children different names. */
  lemma ChildNamesDistinct(character: string, m: nat, n: nat)
    requires m != n
    ensures ChildName(character, m) != ChildName(character, n)
  {
    var prefix := character + "_gen";
    if ChildName(character, m) == ChildName(character, n) {
      assert ChildName(character, m)[|prefix|..] == NatToString(m);
      assert ChildName(character, n)[|prefix|..] == NatToString(n);
      NatToStringInjective(m, n);
    }
  }

  /** `get_bonded_to(name)`: the names sharing a bond with `name`. */
  function BondedTo(bonds: set<Bond>, name: string): set<string>
  {
    (set b | b in bonds && b.a == name :: b.b) + (set b | b in bonds && b.b == name :: b.a)
  }

  /** The signal `enter_maw` broadcasts for a character at the given playthrough. */
  function MawSignal(c: Character, playthrough: nat, now: real): (s: Signal)
    ensures s.signalLocation == Some(c.polarity) && s.polarityChange == Some(c.polarity)
    ensures s.generation == Some(playthrough as int)
    ensures s.lineage == Some(c.lineage + [c.name])
    ensures s.friction == c.entropy && s.entropyDelta == -c.entropy
  {
    Signal(c.name, "next_gen", "maw_entry", c.entropy, now, -c.entropy,
           Some(c.polarity), Some(c.polarity), Some(playthrough as int), Some(c.lineage + [c.name]))
  }

  /** `enter_maw` fails on an unknown name with the dictionary's KeyError. */
  datatype MawError = KeyError

  /** One entry of the `save_state` document. */
  datatype SavedEntity = SavedEntity(polarity: seq<int>, bonds: set<string>, generation: int)

  // ---------------------------------------------------------------------------------------
  // The engine

  /** `HeartShardEngine`: the entity dictionary, the entered set, the playthrough counter, the
      timeline's signal and exclusion logs and the bond graph. */
  class HeartShardEngine {
    var entities: map<string, Character>
    var enteredEye: set<string>
    var playthrough: nat
    var signals: seq<Signal>
    var exclusions: seq<ExclusionEvent>
    var bonds: set<Bond>
    /** The entropy a new character starts with (a default of the Character class). */
    const defaultEntropy: real

    /** Everyone who entered is known, and every recorded exclusion is of someone who entered
        and carries a healing in (0, 1]. */
    predicate Valid()
      reads this
    {
      enteredEye <= entities.Keys &&
      |exclusions| <= |signals| &&
      forall i :: 0 <= i < |exclusions| ==>
        exclusions[i].character in enteredEye && 0.0 < exclusions[i].healing <= 1.0
    }

    /** The engine with the roster installed, each character carrying its birth signal. */
    constructor (startPlaythrough: nat, entropy: real)
      ensures Valid()
      ensures entities.Keys == set i | 0 <= i < |Roster()| :: Roster()[i].key
      ensures forall i :: 0 <= i < |Roster()| ==> entities[Roster()[i].key] == Seeded(Roster()[i], entropy)
      ensures enteredEye == {} && playthrough == startPlaythrough
      ensures signals == [] && exclusions == [] && bonds == {}
      ensures defaultEntropy == entropy
    {
      defaultEntropy := entropy;
      RosterDistinct();
      var es := Install(Roster(), entropy);
      entities := es;
      enteredEye, playthrough := {}, startPlaythrough;
      signals, exclusions, bonds := [], [], {};
    }

    /** `enter_maw(character_name)`. An unknown name raises; a character that may not enter
        gives None and changes nothing; otherwise the character is excluded. */
    method EnterMaw(name: string, canEnterEye: Character -> bool, sentAt: real, recordedAt: real)
      returns (r: Result<Option<ExclusionEvent>, MawError>)
      requires Valid()
      modifies this
      ensures Valid()
      ensures name !in old(entities) ==> r == Err(KeyError) && unchanged(this)
      ensures name in old(entities) && !canEnterEye(old(entities)[name]) ==> r == Ok(None) && unchanged(this)
      ensures name in old(entities) && canEnterEye(old(entities)[name]) ==>
        var c := old(entities)[name];
        signals == old(signals) + [MawSignal(c, old(playthrough), sentAt)] &&
        entities == old(entities)[name := c.(insideEye := true)] &&
        enteredEye == old(enteredEye) + {name} &&
        r == Ok(Some(ExclusionEvent(name, old(bonds), Healing(|enteredEye|), recordedAt))) &&
        exclusions == old(exclusions) + [r.value.value] &&
        playthrough == old(playthrough) && bonds == old(bonds)
    {
      if name !in entities {
        return Err(KeyError);
      }
      var c := entities[name];
      if !canEnterEye(c) {
        return Ok(None);
      }
      signals := signals + [MawSignal(c, playthrough, sentAt)];
      entities := entities[name := c.(insideEye := true)];
      enteredEye := enteredEye + {name};
      var event := ExclusionEvent(name, bonds, Healing(|enteredEye|), recordedAt);
      exclusions := exclusions + [event];
      r := Ok(Some(event));
    }

    /** `next_generation(event)`. The polarity, lineage and signal the source reads from the
        event are passed in; `flips` is the list of axis indices drawn (at most two, each in
        0..2). The child is bonded to one partner of the departed character, or to the Maw. */
    method NextGeneration(event: ExclusionEvent, polarityChange: PolarityState, lineage: seq<string>,
                          signal: Option<Signal>, flips: seq<nat>)
      requires Valid()
      requires |flips| <= 2 && forall k :: 0 <= k < |flips| ==> flips[k] < 3
      modifies this
      ensures Valid()
      ensures playthrough == old(playthrough) + 1
      ensures var childName := ChildName(event.character, playthrough);
        var neighbours := BondedTo(old(bonds), event.character);
        entities == old(entities)[childName := Character(childName, FlipAxes(polarityChange, flips), "", "", false,
                                                         defaultEntropy, {}, playthrough, lineage, signal)] &&
        exists partner ::
          (if neighbours == {} then partner == "maw" else partner in neighbours) &&
          bonds == old(bonds) + {Bond(childName, partner, Trust)}
      ensures enteredEye == old(enteredEye) && signals == old(signals) && exclusions == old(exclusions)
    {
      playthrough := playthrough + 1;
      var newPolarity := FlipAxes(polarityChange, flips);
      var childName := ChildName(event.character, playthrough);
      var child := Character(childName, newPolarity, "", "", false, defaultEntropy, {}, playthrough, lineage, signal);
      entities := entities[childName := child];
      var neighbours := BondedTo(bonds, event.character);
      var partner: string;
      if neighbours != {} {
        partner :| partner in neighbours;
      } else {
        partner := "maw";
      }
      bonds := bonds + {Bond(childName, partner, Trust)};
    }

    /** The mapping `save_state` writes: polarity as a sign triple, bonds and generation. */
    method SaveState() returns (state: map<string, SavedEntity>)
      ensures state.Keys == entities.Keys
      ensures forall k :: k in state ==>
        FromTuple(state[k].polarity) == Some(entities[k].polarity) &&
        state[k].bonds == entities[k].bonds && state[k].generation == entities[k].generation
    {
      state := map k | k in entities :: SavedEntity(ToTuple(entities[k].polarity), entities[k].bonds, entities[k].generation);
      forall k | k in state
        ensures FromTuple(state[k].polarity) == Some(entities[k].polarity)
      {
        TupleRoundTrip(entities[k].polarity);
      }
    }
  }
}
