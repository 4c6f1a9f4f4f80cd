/**
 * The navigation engine of deck.js.
 *
 * A deck is a list of slides, each with its fragments. The constructor
 * flattens them into one stream in which every slide is followed by its own
 * fragments; the stream index is the only address navigation uses.
 * `BasicDeck` keeps the current item and slide, sweeps the fragments'
 * `active` flags, moves slides through the `current`, `in` and `out` tags and
 * drives each slide's modules through `activate`, `stabilise` and `cleanup`.
 * `Deck` adds the touch gestures, the cross-window messages and the mirrored
 * secondary deck that runs one item ahead.
 */
module DeckEngine {
  import opened Base
  import SeqLib

  // ---------------------------------------------------------------------
  // Slides and the stream

  /** A `section` as the constructor reads it: its fragment count and data attributes. */
  datatype Slide = Slide(fragments: nat, data: map<string, string>)

  /** One stream item: a slide, or a fragment; `slide` is the owning slide's index. */
  datatype Item = SlideItem(slide: nat) | FragItem(slide: nat)

  /** `isFragment(node)`: the node carries the `fragment` class. */
  predicate IsFragment(it: Item)
  {
    it.FragItem?
  }

  /**
   * `fragmentSlide(node)`: the slide a stream item belongs to. The walk up
   * the element tree to the enclosing `section` is summarised by the owner
   * index the item carries; FragmentSlideIsNearestSlide relates it to the
   * stream.
   */
  function FragmentSlide(it: Item): nat
  {
    it.slide
  }

  /** A slide followed by its fragments, as the constructor's flatMap callback builds it. */
  function SlideUnit(slides: seq<Slide>, k: nat): seq<Item>
  {
    [SlideItem(k)] + seq(if k < |slides| then slides[k].fragments else 0, _ => FragItem(k))
  }

  /** The flatMap callback over slide indices. */
  function Units(slides: seq<Slide>): nat -> seq<Item>
  {
    (k: nat) => SlideUnit(slides, k)
  }

  /** The indices 0 .. n-1. */
  function Indices(n: nat): seq<nat>
  {
    seq(n, i => i)
  }

  /** The stream of a deck. */
  function StreamOf(slides: seq<Slide>): seq<Item>
  {
    SeqLib.Flatten(Units(slides), Indices(|slides|))
  }

  /** The number of fragments of the first `k` slides. */
  function FragmentsBefore(slides: seq<Slide>, k: nat): nat
    requires k <= |slides|
  {
    if k == 0 then 0 else FragmentsBefore(slides, k - 1) + slides[k - 1].fragments
  }

  /** The stream position of slide `k`. */
  function SlidePos(slides: seq<Slide>, k: nat): nat
    requires k <= |slides|
  {
    k + FragmentsBefore(slides, k)
  }

  /** The stream position of fragment `j` of slide `k`. */
  function FragPos(slides: seq<Slide>, k: nat, j: nat): nat
    requires k <= |slides|
  {
    SlidePos(slides, k) + 1 + j
  }

  lemma {:induction false} SlidePosMonotone(slides: seq<Slide>, k: nat, m: nat)
    requires k < m <= |slides|
    ensures SlidePos(slides, k) + slides[k].fragments < SlidePos(slides, m)
    decreases m
  {
    if k < m - 1 {
      SlidePosMonotone(slides, k, m - 1);
    }
  }

  /** The layout of the stream built from the first `m` slides. */
  ghost predicate LaidOut(slides: seq<Slide>, m: nat, p: seq<Item>)
    requires m <= |slides|
  {
    |p| == SlidePos(slides, m) &&
    (forall i :: 0 <= i < |p| ==> p[i].slide < m) &&
    (forall i :: 0 <= i < |p| ==>
       SlidePos(slides, p[i].slide) <= i <= SlidePos(slides, p[i].slide) + slides[p[i].slide].fragments) &&
    (forall i :: 0 <= i < |p| ==> (p[i].SlideItem? <==> i == SlidePos(slides, p[i].slide)))
  }

  lemma {:induction false} PrefixLaidOut(slides: seq<Slide>, m: nat)
    requires m <= |slides|
    ensures LaidOut(slides, m, SeqLib.Flatten(Units(slides), Indices(m)))
  {
    if m > 0 {
      var f := Units(slides);
      var prev := SeqLib.Flatten(f, Indices(m - 1));
      PrefixLaidOut(slides, m - 1);
      assert Indices(m)[..m - 1] == Indices(m - 1);
      var p := SeqLib.Flatten(f, Indices(m));
      var unit := SlideUnit(slides, m - 1);
      assert p == prev + unit;
      forall i | 0 <= i < |p|
        ensures p[i].slide < m
        ensures SlidePos(slides, p[i].slide) <= i <= SlidePos(slides, p[i].slide) + slides[p[i].slide].fragments
        ensures p[i].SlideItem? <==> i == SlidePos(slides, p[i].slide)
      {
        if i < |prev| {
          assert p[i] == prev[i];
        } else {
          assert p[i] == unit[i - |prev|];
        }
      }
    }
  }

  /** An item inside slide `k`'s block of the stream belongs to slide `k`. */
  lemma OwnerInBlock(slides: seq<Slide>, k: nat, i: nat)
    requires k < |slides|
    requires SlidePos(slides, k) <= i <= SlidePos(slides, k) + slides[k].fragments
    ensures i < |StreamOf(slides)|
    ensures StreamOf(slides)[i].slide == k
    ensures StreamOf(slides)[i].SlideItem? <==> i == SlidePos(slides, k)
  {
    var s := StreamOf(slides);
    PrefixLaidOut(slides, |slides|);
    SlidePosMonotone(slides, k, |slides|);
    var o := s[i].slide;
    assert o < |slides|;
    assert SlidePos(slides, o) <= i <= SlidePos(slides, o) + slides[o].fragments;
    if o < k {
      SlidePosMonotone(slides, o, k);
    } else if o > k {
      SlidePosMonotone(slides, k, o);
    }
  }

  /**
   * The stream lists every slide immediately followed by its own fragments,
   * in document order; its length is the number of slides plus the number
   * of fragments.
   */
  lemma StreamLayout(slides: seq<Slide>)
    ensures |StreamOf(slides)| == |slides| + FragmentsBefore(slides, |slides|)
    ensures forall k :: 0 <= k < |slides| ==>
              SlidePos(slides, k) + slides[k].fragments < |StreamOf(slides)| &&
              StreamOf(slides)[SlidePos(slides, k)] == SlideItem(k)
    ensures forall k, j :: 0 <= k < |slides| && 0 <= j < slides[k].fragments ==>
              StreamOf(slides)[FragPos(slides, k, j)] == FragItem(k)
  {
    var s := StreamOf(slides);
    PrefixLaidOut(slides, |slides|);
    forall k | 0 <= k < |slides|
      ensures SlidePos(slides, k) + slides[k].fragments < |s|
      ensures s[SlidePos(slides, k)] == SlideItem(k)
    {
      OwnerInBlock(slides, k, SlidePos(slides, k));
      SlidePosMonotone(slides, k, |slides|);
    }
    forall k, j | 0 <= k < |slides| && 0 <= j < slides[k].fragments
      ensures s[FragPos(slides, k, j)] == FragItem(k)
    {
      OwnerInBlock(slides, k, FragPos(slides, k, j));
    }
  }

  /** Every stream item belongs to one of the deck's slides. */
  lemma StreamOwners(slides: seq<Slide>)
    ensures forall i :: 0 <= i < |StreamOf(slides)| ==> StreamOf(slides)[i].slide < |slides|
  {
    PrefixLaidOut(slides, |slides|);
  }

  /**
   * The slide fragmentSlide finds for an item is the nearest slide at or
   * before it in the stream: everything in between is a fragment of it.
   */
  lemma FragmentSlideIsNearestSlide(slides: seq<Slide>, i: nat)
    requires i < |StreamOf(slides)|
    ensures FragmentSlide(StreamOf(slides)[i]) < |slides|
    ensures var k := FragmentSlide(StreamOf(slides)[i]);
            SlidePos(slides, k) <= i &&
            StreamOf(slides)[SlidePos(slides, k)] == SlideItem(k) &&
            forall j :: SlidePos(slides, k) < j <= i ==> StreamOf(slides)[j] == FragItem(k)
  {
    var s := StreamOf(slides);
    PrefixLaidOut(slides, |slides|);
    var k := s[i].slide;
    assert k < |slides|;
    assert SlidePos(slides, k) <= i <= SlidePos(slides, k) + slides[k].fragments;
    OwnerInBlock(slides, k, SlidePos(slides, k));
    forall j | SlidePos(slides, k) < j <= i
      ensures s[j] == FragItem(k)
    {
      OwnerInBlock(slides, k, j);
    }
  }

  /** The secondary deck's extra final slide (`endSlide`): no fragments, no data. */
  const EndSlide := Slide(0, map[])

  /** Appending the final slide appends exactly one slide item to the stream. */
  lemma StreamWithEndSlide(slides: seq<Slide>)
    ensures StreamOf(slides + [EndSlide]) == StreamOf(slides) + [SlideItem(|slides|)]
  {
    var n := |slides|;
    var longer := slides + [EndSlide];
    assert Indices(n + 1)[..n] == Indices(n);
    forall i | 0 <= i < n
      ensures Units(longer)(Indices(n)[i]) == Units(slides)(Indices(n)[i])
    {
    }
    SeqLib.FlattenCongruent(Units(longer), Units(slides), Indices(n));
    assert SlideUnit(longer, n) == [SlideItem(n)];
  }

  /** The two-slide scenario: a slide with two fragments, then one with none. */
  lemma TwoSlideStream()
    ensures StreamOf([Slide(2, map[]), Slide(0, map[])]) ==
            [SlideItem(0), FragItem(0), FragItem(0), SlideItem(1)]
  {
    var slides := [Slide(2, map[]), Slide(0, map[])];
    StreamLayout(slides);
    var s := StreamOf(slides);
    assert SlidePos(slides, 0) == 0 && SlidePos(slides, 1) == 3;
    assert FragPos(slides, 0, 0) == 1 && FragPos(slides, 0, 1) == 2;
    assert |s| == 4;
    assert s[0] == SlideItem(0) && s[1] == FragItem(0) && s[2] == FragItem(0) && s[3] == SlideItem(1);
  }

  // ---------------------------------------------------------------------
  // Per-slide modules

  /**
   * One entry of the module registry (`deckModules`): a module name and
   * which of the three optional phase methods its instances have.
   */
  datatype ModuleDef = ModuleDef(name: string, hasActivate: bool, hasStabilise: bool, hasCleanup: bool)

  /** An instance created by `new deckModules[name](slide, arg)`. */
  datatype Module = Module(def: ModuleDef, slide: nat, arg: string)

  datatype Phase = Activate | Stabilise | Cleanup

  /** A call of one phase method on one module instance. */
  datatype ModuleCall = ModuleCall(slide: nat, name: string, phase: Phase)

  predicate HasPhase(m: Module, p: Phase)
  {
    match p
    case Activate => m.def.hasActivate
    case Stabilise => m.def.hasStabilise
    case Cleanup => m.def.hasCleanup
  }

  /**
   * The configuration value for a module on a slide: the slide's own data
   * attribute when it has one, else the deck's, else none.
   */
  function ConfigValue(name: string, slideData: map<string, string>, deckData: map<string, string>): Option<string>
  {
    if name in slideData then Some(slideData[name])
    else if name in deckData then Some(deckData[name])
    else None
  }

  /** A configuration value is truthy when present and not the empty string. */
  predicate Truthy(v: Option<string>)
  {
    v.Some? && v.value != ""
  }

  /** The instances initModules creates for slide `k`, in registry order. */
  function ModulesFor(registry: seq<ModuleDef>, k: nat, slideData: map<string, string>,
                      deckData: map<string, string>): seq<Module>
  {
    if registry == [] then []
    else
      var def := registry[|registry| - 1];
      var v := ConfigValue(def.name, slideData, deckData);
      ModulesFor(registry[..|registry| - 1], k, slideData, deckData) +
      (if Truthy(v) then [Module(def, k, v.value)] else [])
  }

  /** The registry positions whose configuration value is truthy, in increasing order. */
  function TruthyPositions(registry: seq<ModuleDef>, slideData: map<string, string>,
                           deckData: map<string, string>): seq<nat>
  {
    if registry == [] then []
    else
      var n := |registry| - 1;
      TruthyPositions(registry[..n], slideData, deckData) +
      (if Truthy(ConfigValue(registry[n].name, slideData, deckData)) then [n] else [])
  }

  /** The truthy positions are increasing, and are exactly the entries with a truthy value. */
  lemma {:induction false} TruthyPositionsSpec(registry: seq<ModuleDef>, slideData: map<string, string>,
                                               deckData: map<string, string>)
    ensures var idx := TruthyPositions(registry, slideData, deckData);
            (forall i :: 0 <= i < |idx| ==> idx[i] < |registry|) &&
            (forall i, j :: 0 <= i < j < |idx| ==> idx[i] < idx[j]) &&
            (forall r :: 0 <= r < |registry| ==> (r in idx <==> Truthy(ConfigValue(registry[r].name, slideData, deckData))))
  {
    if registry != [] {
      var n := |registry| - 1;
      TruthyPositionsSpec(registry[..n], slideData, deckData);
      var idx := TruthyPositions(registry, slideData, deckData);
      assert forall r :: 0 <= r < n ==> registry[..n][r] == registry[r];
      assert forall r :: r in idx ==> r in TruthyPositions(registry[..n], slideData, deckData) || r == n;
    }
  }

  /**
   * initModules creates exactly one instance per registry entry whose
   * configuration value is truthy, in registry order, passing that value,
   * and none for the other entries: the i-th instance comes from the i-th
   * truthy position (which TruthyPositionsSpec characterises).
   */
  lemma {:induction false} ModulesForSpec(registry: seq<ModuleDef>, k: nat, slideData: map<string, string>,
                                          deckData: map<string, string>)
    ensures var mods := ModulesFor(registry, k, slideData, deckData);
            var idx := TruthyPositions(registry, slideData, deckData);
            |mods| == |idx| &&
            forall i :: 0 <= i < |idx| ==>
              idx[i] < |registry| && Truthy(ConfigValue(registry[idx[i]].name, slideData, deckData)) &&
              mods[i] == Module(registry[idx[i]], k, ConfigValue(registry[idx[i]].name, slideData, deckData).value)
  {
    if registry != [] {
      var n := |registry| - 1;
      var init := registry[..n];
      ModulesForSpec(init, k, slideData, deckData);
      var prev := TruthyPositions(init, slideData, deckData);
      var mods := ModulesFor(registry, k, slideData, deckData);
      var idx := TruthyPositions(registry, slideData, deckData);
      forall i | 0 <= i < |idx|
        ensures idx[i] < |registry| && Truthy(ConfigValue(registry[idx[i]].name, slideData, deckData)) &&
                mods[i] == Module(registry[idx[i]], k, ConfigValue(registry[idx[i]].name, slideData, deckData).value)
      {
        if i < |prev| {
          assert idx[i] == prev[i] && init[prev[i]] == registry[prev[i]];
        }
      }
    }
  }

  /**
   * A slide whose own value for a module is the empty string gets no
   * instance, even when the deck configures that module.
   */
  lemma EmptySlideValueWins(def: ModuleDef, k: nat, deckValue: string)
    ensures ModulesFor([def], k, map[def.name := ""], map[def.name := deckValue]) == []
  {
    assert [def][..0] == [];
  }

  /** The calls one phase makes on a slide's instances: those that have the method, in order. */
  function PhaseCalls(mods: seq<Module>, p: Phase): seq<ModuleCall>
  {
    if mods == [] then []
    else
      var m := mods[|mods| - 1];
      PhaseCalls(mods[..|mods| - 1], p) + (if HasPhase(m, p) then [ModuleCall(m.slide, m.def.name, p)] else [])
  }

  /** The positions of the instances that define the phase method, in increasing order. */
  function PhasePositions(mods: seq<Module>, p: Phase): seq<nat>
  {
    if mods == [] then []
    else
      var n := |mods| - 1;
      PhasePositions(mods[..n], p) + (if HasPhase(mods[n], p) then [n] else [])
  }

  /** The phase positions are increasing, and are exactly the instances that define the method. */
  lemma {:induction false} PhasePositionsSpec(mods: seq<Module>, p: Phase)
    ensures var idx := PhasePositions(mods, p);
            (forall i :: 0 <= i < |idx| ==> idx[i] < |mods|) &&
            (forall i, j :: 0 <= i < j < |idx| ==> idx[i] < idx[j]) &&
            (forall r :: 0 <= r < |mods| ==> (r in idx <==> HasPhase(mods[r], p)))
  {
    if mods != [] {
      var n := |mods| - 1;
      PhasePositionsSpec(mods[..n], p);
      var idx := PhasePositions(mods, p);
      assert forall r :: 0 <= r < n ==> mods[..n][r] == mods[r];
      assert forall r :: r in idx ==> r in PhasePositions(mods[..n], p) || r == n;
    }
  }

  /**
   * A phase calls exactly the instances that define the method, each once,
   * in instance order, and only that method: the i-th call is on the
   * instance at the i-th position PhasePositionsSpec characterises.
   */
  lemma {:induction false} PhaseCallsSpec(mods: seq<Module>, p: Phase)
    ensures var calls := PhaseCalls(mods, p);
            var idx := PhasePositions(mods, p);
            |calls| == |idx| &&
            forall i :: 0 <= i < |idx| ==>
              idx[i] < |mods| && HasPhase(mods[idx[i]], p) &&
              calls[i] == ModuleCall(mods[idx[i]].slide, mods[idx[i]].def.name, p)
  {
    if mods != [] {
      var n := |mods| - 1;
      var init := mods[..n];
      PhaseCallsSpec(init, p);
      var prev := PhasePositions(init, p);
      var calls := PhaseCalls(mods, p);
      var idx := PhasePositions(mods, p);
      forall i | 0 <= i < |idx|
        ensures idx[i] < |mods| && HasPhase(mods[idx[i]], p) &&
                calls[i] == ModuleCall(mods[idx[i]].slide, mods[idx[i]].def.name, p)
      {
        if i < |prev| {
          assert idx[i] == prev[i] && init[prev[i]] == mods[prev[i]];
        }
      }
    }
  }

  /** Every registry entry with a truthy value gets an instance carrying that value. */
  lemma {:induction false} ModulesForEveryTruthyEntry(registry: seq<ModuleDef>, k: nat, slideData: map<string, string>,
                                                    deckData: map<string, string>, r: nat)
    requires r < |registry| && Truthy(ConfigValue(registry[r].name, slideData, deckData))
    ensures Module(registry[r], k, ConfigValue(registry[r].name, slideData, deckData).value)
            in ModulesFor(registry, k, slideData, deckData)
  {
    ModulesForSpec(registry, k, slideData, deckData);
    TruthyPositionsSpec(registry, slideData, deckData);
    var idx := TruthyPositions(registry, slideData, deckData);
    var i :| 0 <= i < |idx| && idx[i] == r;
    assert ModulesFor(registry, k, slideData, deckData)[i] == Module(registry[r], k, ConfigValue(registry[r].name, slideData, deckData).value);
  }

  /** Every instance that defines the phase method is called. */
  lemma {:induction false} PhaseCallsEveryInstance(mods: seq<Module>, p: Phase, r: nat)
    requires r < |mods| && HasPhase(mods[r], p)
    ensures ModuleCall(mods[r].slide, mods[r].def.name, p) in PhaseCalls(mods, p)
  {
    PhaseCallsSpec(mods, p);
    PhasePositionsSpec(mods, p);
    var idx := PhasePositions(mods, p);
    var i :| 0 <= i < |idx| && idx[i] == r;
    assert PhaseCalls(mods, p)[i] == ModuleCall(mods[r].slide, mods[r].def.name, p);
  }

  /** The cleanup calls of every slide in order, as `cleanup()` makes them. */
  function AllCleanupCalls(modules: seq<seq<Module>>): seq<ModuleCall>
  {
    if modules == [] then [] else AllCleanupCalls(modules[..|modules| - 1]) + PhaseCalls(modules[|modules| - 1], Cleanup)
  }

  // ---------------------------------------------------------------------
  // Slide tags and navigation outcomes

  /** The classes activateSlide, deactivateSlide and transitionEnd manage. */
  datatype Tag = Current | In | Out

  /** Notifications the deck emits. */
  datatype Event = SlideEvent(slide: nat) | ItemEvent(item: nat)

  /**
   * Why activateItem throws: the `ReferenceError` for an index at or past
   * the end of the stream (with the stream length and the index asked for,
   * `None` standing for `null`, which compares as 0), or the `TypeError` for
   * an index that names no stream element at all, such as -1 or `null`.
   */
  datatype NavError = OutOfRange(length: nat, requested: Option<int>) | NoElement

  datatype Outcome = Pass | Fail(error: NavError)

  /**
   * The tags after activateSlide(k) with `prev` as the current slide: `out`
   * leaves `k`, the previous slide trades `current` for `out`, and `k` gets
   * `current` and `in`.
   */
  function Retag(tags: seq<set<Tag>>, prev: Option<nat>, k: nat): seq<set<Tag>>
    requires k < |tags| && (prev.Some? ==> prev.value < |tags|)
  {
    var t1 := tags[k := tags[k] - {Out}];
    var t2 := if prev.Some? && Current in t1[prev.value]
              then t1[prev.value := t1[prev.value] - {Current} + {Out}] else t1;
    t2[k := t2[k] + {Current, In}]
  }

  /** Slide `s` is tagged `current` exactly when it is the current slide. */
  ghost predicate OneCurrent(tags: seq<set<Tag>>, current: Option<nat>)
  {
    (forall s :: 0 <= s < |tags| ==> (Current in tags[s] <==> current == Some(s))) &&
    (forall s :: 0 <= s < |tags| ==> !(Current in tags[s] && Out in tags[s]))
  }

  /**
   * Activating a slide other than the current one keeps exactly one slide
   * tagged `current`, the new one, and never tags a slide both `current`
   * and `out`.
   */
  lemma RetagKeepsOneCurrent(tags: seq<set<Tag>>, prev: Option<nat>, k: nat)
    requires k < |tags| && (prev.Some? ==> prev.value < |tags|) && prev != Some(k)
    requires OneCurrent(tags, prev)
    ensures OneCurrent(Retag(tags, prev, k), Some(k))
    ensures |Retag(tags, prev, k)| == |tags|
  {
    var r := Retag(tags, prev, k);
    forall s | 0 <= s < |tags|
      ensures (Current in r[s] <==> s == k) && !(Current in r[s] && Out in r[s])
    {
      if s != k {
        if prev == Some(s) {
          assert Current in tags[s];
        } else {
          assert r[s] == tags[s];
        }
      }
    }
  }

  /** The module calls activateSlide(k) makes. */
  function ActivationCalls(tags: seq<set<Tag>>, modules: seq<seq<Module>>, k: nat): seq<ModuleCall>
    requires k < |tags| && k < |modules|
  {
    (if Out in tags[k] then PhaseCalls(modules[k], Cleanup) else []) + PhaseCalls(modules[k], Activate)
  }

  /** The fragments activateItem may touch when moving from `cur` to `item`. */
  predicate Swept(cur: Option<nat>, item: nat, j: nat)
  {
    match cur
    case None => true
    case Some(c) =>
      if c < item then c <= j <= item
      else if item < c then item + 1 <= j <= c
      else false
  }

  /** The item nextItem moves to: one further, clamped to the last item; 0 from `null`. */
  function NextTarget(cur: Option<nat>, length: nat): nat
    requires length > 0
  {
    match cur
    case None => 0
    case Some(c) => if c + 1 >= length then length - 1 else c + 1
  }

  /** The item previousItem moves to: one back, clamped to 0; 0 from `null`. */
  function PreviousTarget(cur: Option<nat>): nat
  {
    match cur
    case None => 0
    case Some(c) => if c < 1 then 0 else c - 1
  }

  // ---------------------------------------------------------------------
  // The state activateItem leaves

  /**
   * Everything of a BasicDeck that navigation may change: the current item
   * and slide, the tags, the fragment flags, the module lists, and the
   * notifications and module calls made so far.
   */
  datatype DeckState = DeckState(currentItem: Option<nat>, currentSlide: Option<nat>, tags: seq<set<Tag>>,
                                 active: seq<bool>, modules: seq<seq<Module>>,
                                 events: seq<Event>, calls: seq<ModuleCall>)

  /** `s` is a state of a deck with this stream: one flag per item, one tag set and module list per slide. */
  ghost predicate Fits(s: DeckState, stream: seq<Item>)
  {
    |s.active| == |stream| && |s.modules| == |s.tags| &&
    (forall i :: 0 <= i < |stream| ==> stream[i].slide < |s.tags|) &&
    (s.currentSlide.Some? ==> s.currentSlide.value < |s.tags|)
  }

  /** The state of a new deck: nothing current, no tags, no flag set, nothing emitted or called yet. */
  function Fresh(slideCount: nat, itemCount: nat, modules: seq<seq<Module>>): DeckState
  {
    DeckState(None, None, seq(slideCount, _ => {}), seq(itemCount, _ => false), modules, [], [])
  }

  /**
   * The fragment flags after the sweep from `cur` to `item`: a swept
   * fragment is active exactly when it is at or before `item`; every other
   * flag is kept.
   */
  function SweptFlags(flags: seq<bool>, stream: seq<Item>, cur: Option<nat>, item: nat): seq<bool>
    requires |flags| == |stream|
  {
    seq(|flags|, j requires 0 <= j < |flags| =>
      if IsFragment(stream[j]) && Swept(cur, item, j) then j <= item else flags[j])
  }

  /**
   * The state activateItem(item) leaves for an item of the stream: the item
   * and its slide are current; the fragments are swept; when the slide
   * changes it is activated (tags and module calls) and `slide` is emitted;
   * `item` is always emitted last.
   */
  function Activated(s: DeckState, stream: seq<Item>, item: nat): DeckState
    requires Fits(s, stream) && item < |stream|
  {
    var k := FragmentSlide(stream[item]);
    var changed := s.currentSlide != Some(k);
    DeckState(Some(item), Some(k),
              if changed then Retag(s.tags, s.currentSlide, k) else s.tags,
              SweptFlags(s.active, stream, s.currentItem, item),
              s.modules,
              s.events + (if changed then [SlideEvent(k)] else []) + [ItemEvent(item)],
              s.calls + (if changed then ActivationCalls(s.tags, s.modules, k) else []))
  }

  /**
   * The sweep restores the fragment invariant for the new item: from flags
   * that are set exactly up to the current item (or from any flags when no
   * item is current), every fragment ends active exactly when it is at or
   * before `item`.
   */
  lemma SweepActivatesPrefix(flags: seq<bool>, stream: seq<Item>, cur: Option<nat>, item: nat)
    requires |flags| == |stream|
    requires cur.Some? ==> forall j :: 0 <= j < |stream| && IsFragment(stream[j]) ==> (flags[j] <==> j <= cur.value)
    ensures forall j :: 0 <= j < |stream| && IsFragment(stream[j]) ==>
              (SweptFlags(flags, stream, cur, item)[j] <==> j <= item)
  {
    var r := SweptFlags(flags, stream, cur, item);
    forall j | 0 <= j < |stream| && IsFragment(stream[j])
      ensures r[j] <==> j <= item
    {
      if !Swept(cur, item, j) {
        assert r[j] == flags[j];
      }
    }
  }

  /**
   * Activating keeps the tag invariant: when exactly the current slide was
   * tagged `current`, exactly the new current slide is.
   */
  lemma ActivatedKeepsOneCurrent(s: DeckState, stream: seq<Item>, item: nat)
    requires Fits(s, stream) && item < |stream|
    requires OneCurrent(s.tags, s.currentSlide)
    ensures OneCurrent(Activated(s, stream, item).tags, Activated(s, stream, item).currentSlide)
    ensures |Activated(s, stream, item).tags| == |s.tags|
  {
    var k := FragmentSlide(stream[item]);
    if s.currentSlide != Some(k) {
      RetagKeepsOneCurrent(s.tags, s.currentSlide, k);
    }
  }

  /**
   * Activating the current item again changes nothing but the notifications:
   * no flag moves, no slide is re-activated, and only `item` is emitted
   * again.
   */
  lemma ReactivateOnlyEmitsItem(s: DeckState, stream: seq<Item>, item: nat)
    requires Fits(s, stream) && item < |stream|
    ensures var once := Activated(s, stream, item);
            Fits(once, stream) &&
            Activated(once, stream, item) == once.(events := once.events + [ItemEvent(item)])
  {
    var once := Activated(s, stream, item);
    assert |once.tags| == |s.tags|;
    assert Fits(once, stream);
    var twice := Activated(once, stream, item);
    assert twice.active == once.active;
  }

  // ---------------------------------------------------------------------
  // BasicDeck

  class BasicDeck {
    const slides: seq<Slide>
    const stream: seq<Item>
    /** The container's data attributes, which initModules consults. */
    const deckData: map<string, string>
    /** `this.dataset`: a merged copy of the container's data attributes. */
    const dataset: map<string, string>
    const registry: seq<ModuleDef>
    /** The `active` class of each stream element, by stream position. */
    const active: array<bool>
    var currentItem: Option<nat>
    var currentSlide: Option<nat>
    /** Each slide's class list, restricted to the tags the deck manages. */
    var tags: seq<set<Tag>>
    /** `slide.deckModules` for each slide. */
    var modules: seq<seq<Module>>
    /** The `slide` and `item` notifications emitted so far. */
    ghost var events: seq<Event>
    /** The module phase methods called so far. */
    ghost var calls: seq<ModuleCall>

    ghost predicate Shaped()
      reads this
    {
      stream == StreamOf(slides) && active.Length == |stream| &&
      |tags| == |slides| && |modules| == |slides| &&
      (forall i :: 0 <= i < |stream| ==> stream[i].slide < |slides|) &&
      (currentItem.Some? ==> currentItem.value < |stream|) &&
      (currentSlide.Some? ==> currentSlide.value < |slides|)
    }

    /** Fragment `j` is active exactly when `j <= n`. */
    ghost predicate ActiveUpTo(n: nat)
      reads this, active
      requires active.Length == |stream|
    {
      forall j :: 0 <= j < |stream| && IsFragment(stream[j]) ==> (active[j] <==> j <= n)
    }

    /**
     * The deck's invariant: one slide at most is tagged `current`, and it is
     * the slide of the current item; once an item is current, a fragment is
     * active exactly when it is at or before the current item.
     */
    ghost predicate Valid()
      reads this, active
    {
      Shaped() &&
      OneCurrent(tags, currentSlide) &&
      (currentItem.None? ==> currentSlide.None?) &&
      (currentItem.Some? ==>
         currentSlide == Some(FragmentSlide(stream[currentItem.value])) && ActiveUpTo(currentItem.value))
    }

    /** The deck's current state. */
    ghost function State(): DeckState
      reads this, active
    {
      DeckState(currentItem, currentSlide, tags, active[..], modules, events, calls)
    }

    /** Every slide's module list is the one initModules creates for it. */
    ghost predicate ModulesInitialised()
      reads this
    {
      |modules| == |slides| &&
      forall k :: 0 <= k < |slides| ==> modules[k] == ModulesFor(registry, k, slides[k].data, deckData)
    }

    /**
     * The BasicDeck constructor: reads the sections, merges the container's
     * data, flattens the stream and creates every slide's modules.
     */
    constructor (sections: array<Slide>, container: SeqLib.Dict<string>, registry: seq<ModuleDef>)
      ensures Valid() && fresh(active)
      ensures slides == sections[..] && stream == StreamOf(slides)
      ensures deckData == container.entries && dataset == deckData && this.registry == registry
      ensures State() == Fresh(|slides|, |stream|, modules) && ModulesInitialised()
    {
      var ss, st, merged := ReadDeck(sections, container);
      this.slides := ss;
      this.stream := st;
      this.deckData := container.entries;
      this.dataset := merged;
      this.registry := registry;
      this.active := new bool[|st|](_ => false);
      this.currentItem := None;
      this.currentSlide := None;
      this.tags := seq(|ss|, _ => {});
      this.modules := seq(|ss|, _ => []);
      this.events := [];
      this.calls := [];
      new;
      InitAllModules();
      assert active[..] == seq(|st|, _ => false);
    }

    /**
     * What the constructor reads from its container: the sections, the
     * stream flattened from them and the merged copy of the data attributes.
     */
    static method ReadDeck(sections: array<Slide>, container: SeqLib.Dict<string>)
      returns (ss: seq<Slide>, st: seq<Item>, merged: map<string, string>)
      ensures ss == sections[..] && st == StreamOf(ss) && merged == container.entries
      ensures forall i :: 0 <= i < |st| ==> st[i].slide < |ss|
    {
      merged := CopyData(container);
      ss := SeqLib.ToArray(sections);
      assert ss == sections[..];
      st := SeqLib.FlatMap(Units(ss), Indices(|ss|));
      StreamOwners(ss);
    }

    /** `seq.merge(container.dataset)`: a copy of the container's data. */
    static method CopyData(container: SeqLib.Dict<string>) returns (merged: map<string, string>)
      ensures merged == container.entries
    {
      var copy := SeqLib.Merge([container]);
      assert SeqLib.EntriesOf([container]) == [container.entries];
      assert [container.entries][..0] == [];
      merged := copy.entries;
    }

    /** The constructor's `slides.forEach(initModules)`. */
    method InitAllModules()
      requires |modules| == |slides|
      modifies this`modules
      ensures |modules| == |slides|
      ensures forall k :: 0 <= k < |slides| ==> modules[k] == ModulesFor(registry, k, slides[k].data, deckData)
    {
      var k := 0;
      while k < |slides|
        invariant 0 <= k <= |slides| && |modules| == |slides|
        invariant forall k' :: 0 <= k' < k ==> modules[k'] == ModulesFor(registry, k', slides[k'].data, deckData)
      {
        InitModules(k);
        k := k + 1;
      }
    }

    /** `initModules(slide)`: creates the slide's module instances. */
    method InitModules(k: nat)
      requires k < |modules| && k < |slides|
      modifies this`modules
      ensures modules == old(modules)[k := ModulesFor(registry, k, slides[k].data, deckData)]
    {
      var slideData := slides[k].data;
      var mods: seq<Module> := [];
      var i := 0;
      while i < |registry|
        invariant 0 <= i <= |registry|
        invariant mods == ModulesFor(registry[..i], k, slideData, deckData)
      {
        assert registry[..i + 1][..i] == registry[..i];
        var def := registry[i];
        var arg := ConfigValue(def.name, slideData, deckData);
        if Truthy(arg) {
          mods := mods + [Module(def, k, arg.value)];
        }
        i := i + 1;
      }
      assert registry[..|registry|] == registry;
      modules := modules[k := mods];
    }

    /**
     * activateModules, stabiliseModules and cleanupModules: call the phase
     * method on each of the slide's instances that has it.
     */
    method RunModules(k: nat, p: Phase)
      requires k < |modules|
      modifies this`calls
      ensures calls == old(calls) + PhaseCalls(modules[k], p)
    {
      var mods := modules[k];
      var i := 0;
      while i < |mods|
        invariant 0 <= i <= |mods|
        invariant calls == old(calls) + PhaseCalls(mods[..i], p)
      {
        assert mods[..i + 1][..i] == mods[..i];
        if HasPhase(mods[i], p) {
          calls := calls + [ModuleCall(mods[i].slide, mods[i].def.name, p)];
        }
        i := i + 1;
      }
      assert mods[..|mods|] == mods;
    }

    /** `deactivateSlide(slide)`: a slide tagged `current` is retagged `out`. */
    method DeactivateSlide(s: nat)
      requires s < |tags|
      modifies this`tags, this`currentSlide
      ensures tags == old(tags)[s := if Current in old(tags[s]) then old(tags[s]) - {Current} + {Out} else old(tags[s])]
      ensures currentSlide.None?
    {
      if Current in tags[s] {
        tags := tags[s := tags[s] - {Current} + {Out}];
      }
      currentSlide := None;
    }

    /**
     * `activateSlide(slide)`: runs a pending cleanup if the slide is still
     * tagged `out`, deactivates the current slide, activates the slide's
     * modules and tags it `current` and `in`.
     */
    method ActivateSlide(k: nat)
      requires k < |tags| && k < |modules|
      requires currentSlide.Some? ==> currentSlide.value < |tags|
      requires currentSlide != Some(k)
      modifies this`tags, this`currentSlide, this`calls
      ensures tags == Retag(old(tags), old(currentSlide), k)
      ensures currentSlide == Some(k)
      ensures calls == old(calls) + ActivationCalls(old(tags), modules, k)
    {
      if Out in tags[k] {
        RunModules(k, Cleanup);
      }
      tags := tags[k := tags[k] - {Out}];
      if currentSlide.Some? {
        DeactivateSlide(currentSlide.value);
      }
      currentSlide := Some(k);
      RunModules(k, Activate);
      tags := tags[k := tags[k] + {Current, In}];
    }

    /** `applyFragment`: sets the flag of every fragment in `from..to` to `on`. */
    method ApplyFragment(from: nat, to: int, on: bool)
      requires from <= to + 1 <= |stream| && active.Length == |stream|
      modifies active
      ensures forall j :: 0 <= j < active.Length ==>
                active[j] == if from <= j <= to && IsFragment(stream[j]) then on else old(active[j])
    {
      var i := from;
      while i <= to
        invariant from <= i <= to + 1
        invariant forall j :: 0 <= j < active.Length ==>
                    active[j] == if from <= j < i && IsFragment(stream[j]) then on else old(active[j])
      {
        if IsFragment(stream[i]) {
          active[i] := on;
        }
        i := i + 1;
      }
    }

    /**
     * The fragment sweep of activateItem: forwards from the current item,
     * backwards down to just after the new one, or over the whole stream
     * when no item is current.
     */
    method SweepFragments(item: nat)
      requires Shaped() && item < |stream|
      requires currentItem.Some? ==> ActiveUpTo(currentItem.value)
      modifies active
      ensures active[..] == SweptFlags(old(active[..]), stream, currentItem, item)
      ensures ActiveUpTo(item)
    {
      if currentItem.Some? {
        var cur := currentItem.value;
        if cur < item {
          ApplyFragment(cur, item, true);
        } else if cur > item {
          ApplyFragment(item + 1, cur, false);
        }
      } else {
        ApplyFragment(0, item, true);
        ApplyFragment(item + 1, |stream| - 1, false);
      }
      assert active[..] == SweptFlags(old(active[..]), stream, currentItem, item);
    }

    /**
     * `activateItem(item)`: sweeps the fragment flags, makes `item` current,
     * activates its slide when that changes (emitting `slide`), and emits
     * `item`. An index past the end, or one naming no element, fails and
     * changes nothing.
     */
    method ActivateItem(item: int) returns (result: Outcome)
      requires Valid()
      modifies this, active
      ensures Valid()
      ensures modules == old(modules)
      ensures item >= |stream| ==>
                result == Fail(OutOfRange(|stream|, Some(item))) && unchanged(this) && unchanged(active)
      ensures item < 0 ==> result == Fail(NoElement) && unchanged(this) && unchanged(active)
      ensures 0 <= item < |stream| ==>
                result == Pass && currentItem == Some(item) && currentSlide == Some(FragmentSlide(stream[item]))
      ensures 0 <= item < |stream| ==>
                forall j :: 0 <= j < |stream| && IsFragment(stream[j]) ==> (active[j] <==> j <= item)
      ensures 0 <= item < |stream| ==> State() == Activated(old(State()), stream, item)
    {
      if item >= |stream| {
        return Fail(OutOfRange(|stream|, Some(item)));
      }
      if item < 0 {
        return Fail(NoElement);
      }
      var itemSlide := FragmentSlide(stream[item]);
      SweepFragments(item);
      currentItem := Some(item);
      if currentSlide != Some(itemSlide) {
        RetagKeepsOneCurrent(tags, currentSlide, itemSlide);
        ActivateSlide(itemSlide);
        events := events + [SlideEvent(itemSlide)];
      }
      events := events + [ItemEvent(item)];
      result := Pass;
    }

    /**
     * `nextItem()`: one item forward, clamped at the end; nothing happens
     * when already there. On an empty deck the clamp yields -1 and the
     * activation fails.
     */
    method NextItem() returns (result: Outcome)
      requires Valid()
      modifies this, active
      ensures Valid() && modules == old(modules)
      ensures |stream| == 0 ==> result == Fail(NoElement) && unchanged(this) && unchanged(active)
      ensures |stream| > 0 ==> result == Pass && currentItem == Some(NextTarget(old(currentItem), |stream|))
      ensures currentItem == old(currentItem) ==> unchanged(this) && unchanged(active)
      ensures currentItem != old(currentItem) ==>
                |stream| > 0 && State() == Activated(old(State()), stream, NextTarget(old(currentItem), |stream|))
    {
      var next: int := if currentItem.Some? then currentItem.value + 1 else 0;
      if next >= |stream| {
        next := |stream| - 1;
      }
      assert |stream| > 0 ==> next == NextTarget(currentItem, |stream|);
      if currentItem.None? || next != currentItem.value {
        result := ActivateItem(next);
      } else {
        result := Pass;
      }
    }

    /**
     * `previousItem()`: one item back, clamped at 0; nothing happens when
     * already there. On an empty deck item 0 is out of range.
     */
    method PreviousItem() returns (result: Outcome)
      requires Valid()
      modifies this, active
      ensures Valid() && modules == old(modules)
      ensures |stream| == 0 ==> result == Fail(OutOfRange(0, Some(0))) && unchanged(this) && unchanged(active)
      ensures |stream| > 0 ==> result == Pass && currentItem == Some(PreviousTarget(old(currentItem)))
      ensures currentItem == old(currentItem) ==> unchanged(this) && unchanged(active)
      ensures currentItem != old(currentItem) ==>
                |stream| > 0 && State() == Activated(old(State()), stream, PreviousTarget(old(currentItem)))
    {
      var prev: int := if currentItem.Some? then currentItem.value - 1 else 0;
      if prev < 0 {
        prev := 0;
      }
      assert prev == PreviousTarget(currentItem);
      if currentItem.None? || prev != currentItem.value {
        result := ActivateItem(prev);
      } else {
        result := Pass;
      }
    }

    /**
     * `transitionEnd(e)` on slide `k`: an exit transition ends by dropping
     * `out` and running cleanup; otherwise an entry transition ends by
     * dropping `in` and running stabilise; otherwise nothing happens.
     */
    method TransitionEnd(k: nat)
      requires Valid() && k < |slides|
      modifies this`tags, this`calls
      ensures Valid()
      ensures Out in old(tags[k]) ==>
                tags == old(tags)[k := old(tags[k]) - {Out}] && calls == old(calls) + PhaseCalls(modules[k], Cleanup)
      ensures Out !in old(tags[k]) && In in old(tags[k]) ==>
                tags == old(tags)[k := old(tags[k]) - {In}] && calls == old(calls) + PhaseCalls(modules[k], Stabilise)
      ensures Out !in old(tags[k]) && In !in old(tags[k]) ==> tags == old(tags) && calls == old(calls)
    {
      if Out in tags[k] {
        tags := tags[k := tags[k] - {Out}];
        RunModules(k, Cleanup);
      } else if In in tags[k] {
        tags := tags[k := tags[k] - {In}];
        RunModules(k, Stabilise);
      }
    }

    /** `cleanup()`: runs every slide's cleanup phase, in slide order. */
    method CleanupAll()
      requires Valid()
      modifies this`calls
      ensures calls == old(calls) + AllCleanupCalls(modules)
    {
      var k := 0;
      while k < |slides|
        invariant 0 <= k <= |slides|
        invariant calls == old(calls) + AllCleanupCalls(modules[..k])
      {
        assert modules[..k + 1][..k] == modules[..k];
        RunModules(k, Cleanup);
        k := k + 1;
      }
      assert modules[..|slides|] == modules;
    }
  }

  // ---------------------------------------------------------------------
  // The mirror deck and swipes

  /** The item syncAux shows on the mirror deck: one ahead, and `null + 1` is 1. */
  function MirrorTarget(cur: Option<nat>): nat
  {
    match cur
    case None => 1
    case Some(c) => c + 1
  }

  /**
   * The mirror deck's stream is the main stream with the end slide after
   * it, so for any main item the mirror shows the item that follows it, or
   * the end slide after the last item.
   */
  lemma MirrorShowsNext(slides: seq<Slide>, c: nat)
    requires c < |StreamOf(slides)|
    ensures c + 1 < |StreamOf(slides + [EndSlide])|
    ensures StreamOf(slides + [EndSlide])[c + 1] ==
              if c + 1 < |StreamOf(slides)| then StreamOf(slides)[c + 1] else SlideItem(|slides|)
  {
    StreamWithEndSlide(slides);
  }

  /** A screen position, in whole pixels. */
  datatype Point = Point(x: int, y: int)

  /** `this.touching`: where a touch began and, once it has moved, where it is now. */
  datatype Touch = Touch(start: Point, end: Option<Point>)

  datatype Swipe = NoSwipe | SwipeRight | SwipeLeft

  /**
   * onTouchEnd's classification of a displacement: longer than 20 pixels,
   * and within 45 degrees of the positive x axis (a right swipe) or of the
   * negative x axis (a left swipe). `r > 20` is `x*x + y*y > 400`, and the
   * angle tests on `atan2(y, x)` are `|y| < x` and `|y| < -x`.
   */
  function ClassifySwipe(dx: int, dy: int): Swipe
  {
    if dx * dx + dy * dy <= 400 then NoSwipe
    else if -dx < dy < dx then SwipeRight
    else if dx < dy < -dx then SwipeLeft
    else NoSwipe
  }

  /**
   * The swipe a finished touch makes. A touch that never moved has no end
   * point: its displacement is not a number, and it is no swipe.
   */
  function SwipeOf(t: Touch): Swipe
  {
    match t.end
    case None => NoSwipe
    case Some(e) => ClassifySwipe(e.x - t.start.x, e.y - t.start.y)
  }

  /** Mirroring a displacement left to right swaps the two swipe directions. */
  lemma SwipeMirror(dx: int, dy: int)
    ensures ClassifySwipe(dx, dy) == SwipeRight <==> ClassifySwipe(-dx, dy) == SwipeLeft
    ensures ClassifySwipe(dx, dy) == NoSwipe <==> ClassifySwipe(-dx, dy) == NoSwipe
  {
    assert (-dx) * (-dx) == dx * dx;
  }

  /** Flipping a displacement vertically does not change its classification. */
  lemma SwipeVerticalFlip(dx: int, dy: int)
    ensures ClassifySwipe(dx, dy) == ClassifySwipe(dx, -dy)
  {
    assert (-dy) * (-dy) == dy * dy;
  }

  /**
   * A swipe leans towards the x axis and, its length being over 20 pixels,
   * is at least 15 pixels along that axis (its square is over 200).
   */
  lemma SwipeIsHorizontal(dx: int, dy: int)
    requires ClassifySwipe(dx, dy) != NoSwipe
    ensures dy * dy < dx * dx && 200 < dx * dx
    ensures ClassifySwipe(dx, dy) == SwipeRight <==> dx > 0
  {
    var ax := if dx < 0 then -dx else dx;
    var ay := if dy < 0 then -dy else dy;
    assert ay < ax;
    assert ay * ay <= ay * ax < ax * ax by {
      assert 0 <= ay;
    }
    assert dy * dy == ay * ay && dx * dx == ax * ax;
  }

  /** Movements along a diagonal, or no longer than 20 pixels, are ignored. */
  lemma SwipeIgnored(d: int, dx: int, dy: int)
    requires dx * dx + dy * dy <= 400
    ensures ClassifySwipe(d, d) == NoSwipe && ClassifySwipe(d, -d) == NoSwipe
    ensures ClassifySwipe(dx, dy) == NoSwipe
  {
  }

  // ---------------------------------------------------------------------
  // Deck: the presenter's deck, with the mirror and the external window

  /**
   * A message the deck receives: one without an `item` field, or one whose
   * `item` is an index or `null`.
   */
  datatype Message = NoItem | ItemMessage(item: Option<int>)

  class Deck {
    /** The deck this one extends: its slides, stream and navigation. */
    const main: BasicDeck
    /** The mirror deck of cheat mode, one item ahead. */
    var secondary: BasicDeck?
    /** Whether the page is in cheat mode. */
    var cheatMode: bool
    /** Whether an external window is open. */
    var external: bool
    /** `window.location.hash`, as the item number it holds. */
    var hash: Option<nat>
    var touching: Option<Touch>
    /** The items posted to the external window so far (`None` is `null`). */
    ghost var posted: seq<Option<nat>>

    ghost function Repr(): set<object>
      reads this`secondary
    {
      {this} + Parts()
    }

    /** The decks' objects: the main deck and the mirror, with their flag arrays. */
    ghost function Parts(): set<object>
      reads this`secondary
    {
      {main, main.active} + MirrorRepr()
    }

    ghost function MirrorRepr(): set<object>
      reads this`secondary
    {
      if secondary != null then {secondary, secondary.active} else {}
    }

    /** The decks are valid and separate, and the mirror reads the main deck's slides plus the end slide. */
    ghost predicate Wired()
      reads this`cheatMode, this`secondary, this`external, Parts()
    {
      main.Valid() &&
      (cheatMode <==> secondary != null) && (!cheatMode ==> !external) &&
      (secondary != null ==>
         secondary != main && secondary.active != main.active && secondary.Valid() &&
         secondary.slides == main.slides + [EndSlide] &&
         secondary.registry == main.registry && secondary.deckData == main.dataset)
    }

    /** The mirror is one item ahead of the main deck. */
    ghost predicate Valid()
      reads this`cheatMode, this`secondary, this`external, Parts()
    {
      Wired() &&
      (secondary != null && main.currentItem.Some? ==> secondary.currentItem == Some(main.currentItem.value + 1))
    }

    /** The mirror's state, when there is a mirror. */
    ghost function MirrorState(): Option<DeckState>
      reads this`secondary, MirrorRepr()
    {
      if secondary != null then Some(secondary.State()) else None
    }

    /**
     * The mirror after syncAux, from its state `m0` before: it has moved to
     * the item after the main deck's current one (`null + 1` is 1), or it is
     * as it was when that item does not exist.
     */
    ghost predicate MirrorSynced(m0: Option<DeckState>)
      reads this`secondary, Parts()
    {
      secondary == null ||
      (m0.Some? && Fits(m0.value, secondary.stream) &&
       if MirrorTarget(main.currentItem) < |secondary.stream|
       then secondary.State() == Activated(m0.value, secondary.stream, MirrorTarget(main.currentItem))
       else secondary.State() == m0.value)
    }

    /** Nothing moved: the main deck, the mirror, the hash and the posts are as given. */
    ghost predicate Stayed(m0: DeckState, s0: Option<DeckState>, h0: Option<nat>, p0: seq<Option<nat>>)
      reads this`secondary, this`external, this`hash, this`posted, Parts()
    {
      main.State() == m0 && MirrorState() == s0 && hash == h0 && posted == p0
    }

    /** The main deck is in the state activateItem(item) leaves from state `m0`. */
    ghost predicate MainActivated(item: nat, m0: DeckState)
      reads main, main.active
    {
      Fits(m0, main.stream) && item < |main.stream| && main.State() == Activated(m0, main.stream, item)
    }

    /**
     * The main deck moved to `item` from state `m0` and the `item` listener
     * ran: the hash names the item, the mirror synced from `s0`, and the
     * item was posted to an open external window.
     */
    ghost predicate MovedTo(item: nat, m0: DeckState, s0: Option<DeckState>, p0: seq<Option<nat>>)
      reads this`secondary, this`external, this`hash, this`posted, Parts()
    {
      MainActivated(item, m0) &&
      hash == Some(item) && MirrorSynced(s0) &&
      posted == p0 + (if external then [Some(item)] else [])
    }

    /** The outcome of activateItem(item) on the deck, from main state `m0`, mirror `s0`, hash `h0`, posts `p0`. */
    ghost predicate DidActivate(item: int, result: Outcome, m0: DeckState, s0: Option<DeckState>,
                                h0: Option<nat>, p0: seq<Option<nat>>)
      reads this`secondary, this`external, this`hash, this`posted, Parts()
    {
      if item >= |main.stream| then result == Fail(OutOfRange(|main.stream|, Some(item))) && Stayed(m0, s0, h0, p0)
      else if item < 0 then result == Fail(NoElement) && Stayed(m0, s0, h0, p0)
      else result == Pass && MovedTo(item, m0, s0, p0)
    }

    /** The outcome of nextItem() on the deck: a move to NextTarget, unless already there. */
    ghost predicate DidNext(result: Outcome, m0: DeckState, s0: Option<DeckState>, h0: Option<nat>, p0: seq<Option<nat>>)
      reads this`secondary, this`external, this`hash, this`posted, Parts()
    {
      if |main.stream| == 0 then result == Fail(NoElement) && Stayed(m0, s0, h0, p0)
      else
        var t := NextTarget(m0.currentItem, |main.stream|);
        result == Pass && if m0.currentItem == Some(t) then Stayed(m0, s0, h0, p0) else MovedTo(t, m0, s0, p0)
    }

    /** The outcome of previousItem() on the deck: a move to PreviousTarget, unless already there. */
    ghost predicate DidPrevious(result: Outcome, m0: DeckState, s0: Option<DeckState>, h0: Option<nat>,
                                p0: seq<Option<nat>>)
      reads this`secondary, this`external, this`hash, this`posted, Parts()
    {
      if |main.stream| == 0 then result == Fail(OutOfRange(0, Some(0))) && Stayed(m0, s0, h0, p0)
      else
        var t := PreviousTarget(m0.currentItem);
        result == Pass && if m0.currentItem == Some(t) then Stayed(m0, s0, h0, p0) else MovedTo(t, m0, s0, p0)
    }

    /** The outcome of a swipe: previousItem for a right swipe, nextItem for a left one, else nothing. */
    ghost predicate DidSwipe(swipe: Swipe, result: Outcome, m0: DeckState, s0: Option<DeckState>, h0: Option<nat>,
                             p0: seq<Option<nat>>)
      reads this`secondary, this`external, this`hash, this`posted, Parts()
    {
      match swipe
      case NoSwipe => result == Pass && Stayed(m0, s0, h0, p0)
      case SwipeRight => DidPrevious(result, m0, s0, h0, p0)
      case SwipeLeft => DidNext(result, m0, s0, h0, p0)
    }

    /** The Deck constructor, with the item number the page's hash holds. */
    constructor (sections: array<Slide>, container: SeqLib.Dict<string>, registry: seq<ModuleDef>, hash: Option<nat>)
      ensures Valid() && fresh(Repr())
      ensures main.slides == sections[..] && main.stream == StreamOf(main.slides)
      ensures main.registry == registry && main.deckData == container.entries && main.dataset == container.entries
      ensures main.State() == Fresh(|main.slides|, |main.stream|, main.modules) && main.ModulesInitialised()
      ensures secondary == null && !cheatMode && !external && touching.None? && posted == []
      ensures this.hash == hash
    {
      main := new BasicDeck(sections, container, registry);
      secondary := null;
      cheatMode := false;
      external := false;
      this.hash := hash;
      touching := None;
      posted := [];
    }

    /**
     * The startup timer: activates the item the hash names (failing when it
     * is past the end), or else moves to the next item, which from a fresh
     * deck is the first.
     */
    method Start() returns (result: Outcome)
      requires Valid()
      modifies this`hash, this`posted, main, main.active, secondary, if secondary != null then {secondary.active} else {}
      ensures Valid()
      ensures old(hash).Some? ==> DidActivate(old(hash).value, result, old(main.State()), old(MirrorState()), old(hash), old(posted))
      ensures old(hash).None? ==> DidNext(result, old(main.State()), old(MirrorState()), old(hash), old(posted))
    {
      if hash.Some? {
        result := ActivateItem(hash.value);
      } else {
        result := NextItem();
      }
    }

    /**
     * The `item` listener: records the item in the hash and brings the
     * mirror and the external window up to date.
     */
    method OnItem(i: nat, ghost m0: DeckState)
      requires Wired() && main.currentItem == Some(i)
      requires MainActivated(i, m0)
      modifies this`hash, this`posted, secondary, if secondary != null then {secondary.active} else {}
      ensures Valid() && secondary == old(secondary)
      ensures MovedTo(i, m0, old(MirrorState()), old(posted))
    {
      hash := Some(i);
      var r := SyncAux();
    }

    /** The mirror half of syncAux: the mirror deck shows the item after the current one. */
    method SyncMirror() returns (result: Outcome)
      requires Wired() && secondary != null
      modifies secondary, secondary.active
      ensures Wired() && MirrorSynced(old(MirrorState()))
      ensures result.Fail? <==> main.currentItem.None? && |main.stream| == 0
      ensures result.Fail? ==> result == Fail(OutOfRange(|secondary.stream|, Some(1)))
    {
      StreamWithEndSlide(main.slides);
      if main.currentItem.Some? {
        MirrorShowsNext(main.slides, main.currentItem.value);
      }
      result := secondary.ActivateItem(MirrorTarget(main.currentItem));
    }

    /**
     * `syncAux()`: shows the item after the current one on the mirror and
     * posts the current item to the external window. The mirror fails only
     * when nothing is current and the deck has no items; the post is then
     * not made.
     */
    method SyncAux() returns (result: Outcome)
      requires Wired()
      modifies secondary, if secondary != null then {secondary.active} else {}, this`posted
      ensures Wired() && MirrorSynced(old(MirrorState()))
      ensures main.currentItem.Some? ==> result == Pass && Valid()
      ensures result.Fail? <==> secondary != null && main.currentItem.None? && |main.stream| == 0
      ensures result.Fail? ==> posted == old(posted)
      ensures result == Pass ==> posted == old(posted) + (if external then [main.currentItem] else [])
    {
      result := Pass;
      if secondary != null {
        StreamWithEndSlide(main.slides);
        result := SyncMirror();
        if result.Fail? {
          return;
        }
      }
      if external {
        posted := posted + [main.currentItem];
      }
    }

    /** The main deck's own activateItem, seen from the deck that holds it. */
    method MoveMain(item: int) returns (result: Outcome)
      requires Valid()
      modifies main, main.active
      ensures Wired()
      ensures item >= |main.stream| ==> result == Fail(OutOfRange(|main.stream|, Some(item)))
      ensures item < 0 ==> result == Fail(NoElement)
      ensures !(0 <= item < |main.stream|) ==> unchanged(main) && unchanged(main.active)
      ensures 0 <= item < |main.stream| ==>
                result == Pass && main.currentItem == Some(item) &&
                main.State() == Activated(old(main.State()), main.stream, item)
    {
      result := main.ActivateItem(item);
    }

    /** `activateItem(item)` on the deck: the main deck moves, then the `item` listener runs. */
    method ActivateItem(item: int) returns (result: Outcome)
      requires Valid()
      modifies this`hash, this`posted, main, main.active, secondary, if secondary != null then {secondary.active} else {}
      ensures Valid()
      ensures DidActivate(item, result, old(main.State()), old(MirrorState()), old(hash), old(posted))
    {
      ghost var m0 := main.State();
      result := MoveMain(item);
      if !(0 <= item < |main.stream|) {
        return;
      }
      OnItem(item, m0);
    }

    /** The main deck's own nextItem, seen from the deck that holds it. */
    method MainNext() returns (result: Outcome)
      requires Valid()
      modifies main, main.active
      ensures Wired()
      ensures |main.stream| == 0 ==> result == Fail(NoElement)
      ensures |main.stream| > 0 ==> result == Pass && main.currentItem == Some(NextTarget(old(main.currentItem), |main.stream|))
      ensures main.currentItem == old(main.currentItem) ==> unchanged(main) && unchanged(main.active)
      ensures main.currentItem != old(main.currentItem) ==>
                |main.stream| > 0 &&
                main.State() == Activated(old(main.State()), main.stream, NextTarget(old(main.currentItem), |main.stream|))
    {
      result := main.NextItem();
    }

    /** The main deck's own previousItem, seen from the deck that holds it. */
    method MainPrevious() returns (result: Outcome)
      requires Valid()
      modifies main, main.active
      ensures Wired()
      ensures |main.stream| == 0 ==> result == Fail(OutOfRange(0, Some(0)))
      ensures |main.stream| > 0 ==> result == Pass && main.currentItem == Some(PreviousTarget(old(main.currentItem)))
      ensures main.currentItem == old(main.currentItem) ==> unchanged(main) && unchanged(main.active)
      ensures main.currentItem != old(main.currentItem) ==>
                |main.stream| > 0 &&
                main.State() == Activated(old(main.State()), main.stream, PreviousTarget(old(main.currentItem)))
    {
      result := main.PreviousItem();
    }

    /** `nextItem()` on the deck, with the `item` listener after a move. */
    method NextItem() returns (result: Outcome)
      requires Valid()
      modifies this`hash, this`posted, main, main.active, secondary, if secondary != null then {secondary.active} else {}
      ensures Valid()
      ensures DidNext(result, old(main.State()), old(MirrorState()), old(hash), old(posted))
    {
      ghost var m0 := main.State();
      var before := main.currentItem;
      result := MainNext();
      if main.currentItem != before {
        OnItem(main.currentItem.value, m0);
      }
    }

    /** `previousItem()` on the deck, with the `item` listener after a move. */
    method PreviousItem() returns (result: Outcome)
      requires Valid()
      modifies this`hash, this`posted, main, main.active, secondary, if secondary != null then {secondary.active} else {}
      ensures Valid()
      ensures DidPrevious(result, old(main.State()), old(MirrorState()), old(hash), old(posted))
    {
      ghost var m0 := main.State();
      var before := main.currentItem;
      result := MainPrevious();
      if main.currentItem != before {
        OnItem(main.currentItem.value, m0);
      }
    }

    /**
     * `onMessage(e)`: a same-origin message with an `item` field activates
     * that item; `null` names no element, or on an empty deck is out of
     * range as `null`. Anything else is ignored.
     */
    method OnMessage(sameOrigin: bool, msg: Message) returns (result: Outcome)
      requires Valid()
      modifies this`hash, this`posted, main, main.active, secondary, if secondary != null then {secondary.active} else {}
      ensures Valid()
      ensures !sameOrigin || msg.NoItem? ==>
                result == Pass && Stayed(old(main.State()), old(MirrorState()), old(hash), old(posted))
      ensures sameOrigin && msg == ItemMessage(None) ==>
                result == (if |main.stream| == 0 then Fail(OutOfRange(0, None)) else Fail(NoElement)) &&
                Stayed(old(main.State()), old(MirrorState()), old(hash), old(posted))
      ensures sameOrigin && msg.ItemMessage? && msg.item.Some? ==>
                DidActivate(msg.item.value, result, old(main.State()), old(MirrorState()), old(hash), old(posted))
    {
      result := Pass;
      if sameOrigin && msg.ItemMessage? {
        match msg.item {
          case None =>
            result := if |main.stream| == 0 then Fail(OutOfRange(0, None)) else Fail(NoElement);
          case Some(i) =>
            result := ActivateItem(i);
        }
      }
    }

    /** `onTouchStart(e)`: remembers where the first touch began. */
    method OnTouchStart(touches: seq<Point>)
      modifies this`touching
      ensures touching == if |touches| > 0 then Some(Touch(touches[0], None)) else None
    {
      touching := if |touches| > 0 then Some(Touch(touches[0], None)) else None;
    }

    /**
     * `onTouchMove(e)`: records where the first touch is now. A move with no
     * touch on record reads a field of `null` and throws (`ok` is false),
     * leaving the state as it was.
     */
    method OnTouchMove(touches: seq<Point>) returns (ok: bool)
      modifies this`touching
      ensures ok <==> |touches| == 0 || old(touching).Some?
      ensures !ok ==> touching == old(touching)
      ensures ok && |touches| > 0 ==> touching == Some(Touch(old(touching).value.start, Some(touches[0])))
      ensures ok && |touches| == 0 ==> touching.None?
    {
      if |touches| == 0 {
        touching := None;
        return true;
      }
      if touching.None? {
        return false;
      }
      touching := Some(Touch(touching.value.start, Some(touches[0])));
      ok := true;
    }

    /** The move a classified swipe makes: back for a right swipe, forward for a left one. */
    method FollowSwipe(swipe: Swipe) returns (result: Outcome)
      requires Valid()
      modifies this`hash, this`posted, main, main.active, secondary, if secondary != null then {secondary.active} else {}
      ensures Valid()
      ensures DidSwipe(swipe, result, old(main.State()), old(MirrorState()), old(hash), old(posted))
    {
      result := Pass;
      if swipe == SwipeRight {
        result := PreviousItem();
      } else if swipe == SwipeLeft {
        result := NextItem();
      }
    }

    /**
     * `onTouchEnd()`: forgets the touch and, for a swipe right, moves back
     * one item and, for a swipe left, forward one.
     */
    method OnTouchEnd() returns (result: Outcome)
      requires Valid()
      modifies this`touching, this`hash, this`posted, main, main.active, secondary,
               if secondary != null then {secondary.active} else {}
      ensures Valid() && touching.None?
      ensures old(touching).None? ==> result == Pass && Stayed(old(main.State()), old(MirrorState()), old(hash), old(posted))
      ensures old(touching).Some? ==>
                DidSwipe(SwipeOf(old(touching).value), result, old(main.State()), old(MirrorState()), old(hash), old(posted))
    {
      var swipe := NoSwipe;
      if touching.Some? {
        swipe := SwipeOf(touching.value);
        touching := None;
      }
      result := FollowSwipe(swipe);
    }

    /**
     * `toggleCheatMode()`: enters cheat mode, or leaves it. The main deck and
     * the hash are untouched either way.
     */
    method ToggleCheatMode(windowOpened: bool) returns (result: Outcome)
      requires Valid()
      modifies this`cheatMode, this`secondary, this`external, this`posted, MirrorRepr()
      ensures Valid() && cheatMode == !old(cheatMode)
      ensures unchanged(main) && unchanged(main.active) && hash == old(hash) && touching == old(touching)
      ensures cheatMode ==>
                external == windowOpened && fresh(secondary) && fresh(secondary.active) && MirrorBuilt(result, old(posted))
      ensures !cheatMode ==>
                secondary == null && !external && posted == old(posted) && result == Pass &&
                old(secondary).calls == old(secondary.calls) + AllCleanupCalls(old(secondary.modules))
    {
      if cheatMode {
        CleanupCheatMode();
        result := Pass;
      } else {
        result := InitCheatMode(windowOpened);
      }
    }

    /**
     * A freshly built mirror after its first sync: it has initModules'
     * instances and, unless the sync failed, has moved to the item after
     * the main deck's current one; the current item was posted to an open
     * external window unless the sync failed.
     */
    ghost predicate MirrorBuilt(result: Outcome, p0: seq<Option<nat>>)
      reads this`secondary, this`external, this`hash, this`posted, Parts()
    {
      secondary != null && secondary.Valid() && secondary.ModulesInitialised() &&
      secondary.stream == main.stream + [SlideItem(|main.slides|)] &&
      var start := Fresh(|secondary.slides|, |secondary.stream|, secondary.modules);
      Fits(start, secondary.stream) &&
      (result.Fail? <==> main.currentItem.None? && |main.stream| == 0) &&
      (result == Pass ==>
         MirrorTarget(main.currentItem) < |secondary.stream| &&
         secondary.State() == Activated(start, secondary.stream, MirrorTarget(main.currentItem)) &&
         posted == p0 + (if external then [main.currentItem] else [])) &&
      (result.Fail? ==> secondary.State() == start && posted == p0)
    }

    /**
     * `initCheatMode()`: builds the mirror deck from the main deck's slides
     * and the end slide, with the main deck's data, opens the external
     * window (`windowOpened` is whether the browser allowed it) and syncs.
     */
    method InitCheatMode(windowOpened: bool) returns (result: Outcome)
      requires Valid() && !cheatMode
      modifies this`cheatMode, this`secondary, this`external, this`posted
      ensures Wired() && cheatMode && fresh(secondary) && fresh(secondary.active) && external == windowOpened
      ensures unchanged(main) && unchanged(main.active)
      ensures MirrorBuilt(result, old(posted))
      ensures result == Pass ==> Valid()
    {
      OpenMirror(windowOpened);
      ghost var start := secondary.State();
      result := SyncAux();
      assert MirrorSynced(Some(start));
    }

    /** The part of initCheatMode before the sync: cheat mode, the fresh mirror, the window. */
    method OpenMirror(windowOpened: bool)
      requires Valid() && !cheatMode
      modifies this`cheatMode, this`secondary, this`external
      ensures Wired() && cheatMode && fresh(secondary) && fresh(secondary.active) && external == windowOpened
      ensures secondary.stream == main.stream + [SlideItem(|main.slides|)] && secondary.ModulesInitialised()
      ensures secondary.State() == Fresh(|secondary.slides|, |secondary.stream|, secondary.modules)
      ensures Fits(secondary.State(), secondary.stream)
    {
      cheatMode := true;
      secondary := NewMirror();
      external := windowOpened;
      StreamOwners(secondary.slides);
    }

    /**
     * The mirror deck initCheatMode builds: a BasicDeck over the main deck's
     * sections and the end slide, whose container carries the main deck's
     * data.
     */
    method NewMirror() returns (mirror: BasicDeck)
      requires main.Valid()
      ensures fresh(mirror) && fresh(mirror.active) && mirror.Valid()
      ensures mirror.slides == main.slides + [EndSlide] && mirror.stream == main.stream + [SlideItem(|main.slides|)]
      ensures mirror.registry == main.registry && mirror.deckData == main.dataset
      ensures mirror.ModulesInitialised()
      ensures mirror.State() == Fresh(|mirror.slides|, |mirror.stream|, mirror.modules)
    {
      var data := new SeqLib.Dict<string>();
      data.entries := main.dataset;
      var ms := main.slides + [EndSlide];
      var sections := new Slide[|ms|](i requires 0 <= i < |ms| => ms[i]);
      assert sections[..] == ms;
      mirror := new BasicDeck(sections, data, main.registry);
      StreamWithEndSlide(main.slides);
    }

    /**
     * `cleanupCheatMode()`: closes the external window, runs the mirror's
     * cleanup and drops it, and leaves cheat mode.
     */
    method CleanupCheatMode()
      requires Valid()
      modifies this`cheatMode, this`secondary, this`external, MirrorRepr()
      ensures Valid() && !cheatMode && secondary == null && !external
      ensures unchanged(main) && unchanged(main.active) && posted == old(posted) && hash == old(hash)
      ensures touching == old(touching)
      ensures old(secondary) != null ==>
                old(secondary).calls == old(secondary.calls) + AllCleanupCalls(old(secondary.modules))
    {
      external := false;
      if secondary != null {
        secondary.CleanupAll();
        secondary := null;
      }
      cheatMode := false;
    }
  }
}
