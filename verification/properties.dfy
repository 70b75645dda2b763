/**
 * What the game's callbacks guarantee about the item list: the frame ticker
 * (one frame and many), disableCircle, the spawn timer, and the invariant all
 * three keep.
 */
module Properties {
  import opened Results
  import opened Sequences
  import opened Gameplay
  import opened Lifecycle

  // ---------------------------------------------------------------------------
  // One frame

  /** Every circle that was active has fallen by exactly its weight plus the frame delta. */
  lemma TickActiveFalls(items: seq<Item>, delta: real)
    requires DistinctIds(items)
    ensures Tick(items, delta).Ok?
    ensures forall i :: 0 <= i < |items| && items[i].active ==>
      Lookup(Tick(items, delta).value, items[i].id)
        == Some(items[i].(y := items[i].y + items[i].weight as real + delta))
  {
    TickMatchesReference(items, delta);
    forall i | 0 <= i < |items| && items[i].active
      ensures Lookup(TickSpec(items, delta), items[i].id) == Some(Fall(items[i], delta))
    {
      LookupAt(items, i);
      TickSpecLookup(items, delta, items[i].id);
    }
  }

  /** Gravity only pulls down: with a non-negative frame delta no active circle rises. */
  lemma TickFallIsMonotone(items: seq<Item>, delta: real)
    requires DistinctIds(items) && 0.0 <= delta
    requires forall i :: 0 <= i < |items| ==> 0 <= items[i].weight
    ensures Tick(items, delta).Ok?
    ensures forall i :: 0 <= i < |items| && items[i].active ==>
      var after := Lookup(Tick(items, delta).value, items[i].id);
      after.Some? && after.value.active && items[i].y <= after.value.y
  {
    TickActiveFalls(items, delta);
  }

  /**
   * Every disabled circle already below scale zero is gone after the frame;
   * every other disabled circle is still there, one tenth smaller on both axes.
   */
  lemma TickDisabled(items: seq<Item>, delta: real)
    requires DistinctIds(items)
    ensures Tick(items, delta).Ok?
    ensures forall i :: 0 <= i < |items| && !items[i].active && Vanishing(items[i]) ==>
      items[i].id !in Ids(Tick(items, delta).value)
    ensures forall i :: 0 <= i < |items| && !items[i].active && !Vanishing(items[i]) ==>
      Lookup(Tick(items, delta).value, items[i].id)
        == Some(items[i].(scaleX := items[i].scaleX - ScaleStep, scaleY := items[i].scaleY - ScaleStep))
  {
    TickMatchesReference(items, delta);
    forall i | 0 <= i < |items| && !items[i].active
      ensures Lookup(TickSpec(items, delta), items[i].id) == StepItem(items[i], delta)
    {
      LookupAt(items, i);
      TickSpecLookup(items, delta, items[i].id);
    }
    forall i | 0 <= i < |items| && !items[i].active && Vanishing(items[i])
      ensures items[i].id !in Ids(TickSpec(items, delta))
    {
      LookupAbsent(TickSpec(items, delta), items[i].id);
    }
  }

  /** Each circle after a frame is what one reference step made of a circle tracked before. */
  lemma TickSpecOrigin(items: seq<Item>, delta: real, i: int)
    requires DistinctIds(items) && 0 <= i < |TickSpec(items, delta)|
    ensures Lookup(items, TickSpec(items, delta)[i].id).Some?
    ensures StepItem(Lookup(items, TickSpec(items, delta)[i].id).value, delta) == Some(TickSpec(items, delta)[i])
  {
    var r := TickSpec(items, delta);
    TickSpecIds(items, delta);
    LookupAt(r, i);
    TickSpecLookup(items, delta, r[i].id);
  }

  /**
   * A frame adds no circle and changes nothing but position and scale: the
   * `active` flag, id, weight, radius and `x` of every surviving circle are as
   * they were, and the survivors keep their relative order.
   */
  lemma TickChangesOnlyMotion(items: seq<Item>, delta: real)
    requires DistinctIds(items)
    ensures Tick(items, delta).Ok?
    ensures |Tick(items, delta).value| <= |items|
    ensures Ids(Tick(items, delta).value) <= Ids(items)
    ensures IsSubseq(IdOrder(Tick(items, delta).value), IdOrder(items))
    ensures forall i :: 0 <= i < |Tick(items, delta).value| ==>
      var after := Tick(items, delta).value[i];
      var before := Lookup(items, after.id);
      before.Some? && after.(y := before.value.y, scaleX := before.value.scaleX, scaleY := before.value.scaleY) == before.value
  {
    TickMatchesReference(items, delta);
    TickSpecIds(items, delta);
    TickSpecOrder(items, delta);
    TickSpecLength(items, delta);
    forall i | 0 <= i < |TickSpec(items, delta)|
      ensures Lookup(items, TickSpec(items, delta)[i].id).Some?
      ensures StepItem(Lookup(items, TickSpec(items, delta)[i].id).value, delta) == Some(TickSpec(items, delta)[i])
    {
      TickSpecOrigin(items, delta, i);
    }
  }

  lemma {:induction false} TickSpecLength(items: seq<Item>, delta: real)
    ensures |TickSpec(items, delta)| <= |items|
    decreases |items|
  {
    if |items| > 0 {
      TickSpecLength(items[1..], delta);
    }
  }

  // ---------------------------------------------------------------------------
  // Many frames

  /** The ticker run for one frame per delta, stopping at the first error. */
  function RunTicks(items: seq<Item>, deltas: seq<real>): Result<seq<Item>, Fault>
    decreases |deltas|
  {
    if |deltas| == 0 then Ok(items)
    else
      match Tick(items, deltas[0])
      case Err(e) => Err(e)
      case Ok(next) => RunTicks(next, deltas[1..])
  }

  /** The reference frame run for one frame per delta. */
  function RunSpec(items: seq<Item>, deltas: seq<real>): seq<Item>
    decreases |deltas|
  {
    if |deltas| == 0 then items else RunSpec(TickSpec(items, deltas[0]), deltas[1..])
  }

  /** One circle's state machine run for one frame per delta. */
  function StepMany(o: Option<Item>, deltas: seq<real>): Option<Item>
    decreases |deltas|
  {
    if |deltas| == 0 then o else StepMany(StepOpt(o, deltas[0]), deltas[1..])
  }

  lemma {:induction false} RunTicksMatchesReference(items: seq<Item>, deltas: seq<real>)
    requires DistinctIds(items)
    ensures RunTicks(items, deltas) == Ok(RunSpec(items, deltas))
    decreases |deltas|
  {
    if |deltas| > 0 {
      TickMatchesReference(items, deltas[0]);
      TickSpecIds(items, deltas[0]);
      RunTicksMatchesReference(TickSpec(items, deltas[0]), deltas[1..]);
    }
  }

  /** Over many frames each circle still evolves on its own, by its state machine. */
  lemma {:induction false} RunSpecLookup(items: seq<Item>, deltas: seq<real>, id: int)
    requires DistinctIds(items)
    ensures Lookup(RunSpec(items, deltas), id) == StepMany(Lookup(items, id), deltas)
    decreases |deltas|
  {
    if |deltas| > 0 {
      TickSpecLookup(items, deltas[0], id);
      TickSpecIds(items, deltas[0]);
      RunSpecLookup(TickSpec(items, deltas[0]), deltas[1..], id);
    }
  }

  lemma {:induction false} StepManyGone(deltas: seq<real>)
    ensures StepMany(None, deltas) == None
    decreases |deltas|
  {
    if |deltas| > 0 {
      StepManyGone(deltas[1..]);
    }
  }

  /**
   * A disabled circle at scale s (s >= -1, equal on both axes) survives
   * s + 1 frames, shrinking a tenth each time, and is gone after the next one.
   */
  lemma {:induction false} DisabledShrinkCount(it: Item, deltas: seq<real>)
    requires !it.active && it.scaleX == it.scaleY && -1 <= it.scaleX
    ensures StepMany(Some(it), deltas)
      == if |deltas| <= it.scaleX + 1
         then Some(it.(scaleX := it.scaleX - |deltas|, scaleY := it.scaleY - |deltas|))
         else None
    decreases |deltas|
  {
    if |deltas| > 0 {
      if Vanishing(it) {
        StepManyGone(deltas[1..]);
      } else {
        DisabledShrinkCount(Shrink(it), deltas[1..]);
      }
    }
  }

  /**
   * Over consecutive frames, with no spawn or tap between them: a circle
   * disabled at scale s >= 0 is still tracked after n frames exactly when
   * n <= s + 1, at scale s - n on both axes; the removal test is "scale < 0",
   * so the frame that brings it to -1 does not remove it.
   */
  lemma DisabledCircleLifetime(items: seq<Item>, deltas: seq<real>, i: int)
    requires DistinctIds(items) && 0 <= i < |items|
    requires !items[i].active && items[i].scaleX == items[i].scaleY && 0 <= items[i].scaleX
    ensures RunTicks(items, deltas).Ok?
    ensures items[i].id in Ids(RunTicks(items, deltas).value) <==> |deltas| <= items[i].scaleX + 1
    ensures |deltas| <= items[i].scaleX + 1 ==>
      Lookup(RunTicks(items, deltas).value, items[i].id)
        == Some(items[i].(scaleX := items[i].scaleX - |deltas|, scaleY := items[i].scaleY - |deltas|))
  {
    RunTicksMatchesReference(items, deltas);
    LookupAt(items, i);
    RunSpecLookup(items, deltas, items[i].id);
    DisabledShrinkCount(items[i], deltas);
    LookupAbsent(RunSpec(items, deltas), items[i].id);
  }

  /**
   * Over consecutive frames, with no spawn or tap between them: a circle
   * disabled at full scale (1.0) is shrunk on eleven frames, reaching -0.1,
   * and removed on the twelfth.
   */
  lemma FullScaleLifetime(items: seq<Item>, deltas: seq<real>, i: int)
    requires DistinctIds(items) && 0 <= i < |items|
    requires !items[i].active && items[i].scaleX == FullScale && items[i].scaleY == FullScale
    ensures RunTicks(items, deltas).Ok?
    ensures |deltas| == 11 ==>
      Lookup(RunTicks(items, deltas).value, items[i].id) == Some(items[i].(scaleX := -1, scaleY := -1))
    ensures |deltas| == 12 ==> items[i].id !in Ids(RunTicks(items, deltas).value)
  {
    DisabledCircleLifetime(items, deltas, i);
  }

  // ---------------------------------------------------------------------------
  // disableCircle

  /** Disabling twice is disabling once. */
  lemma DisableIdempotent(items: seq<Item>, id: int)
    ensures DisableCircle(DisableCircle(items, id), id) == DisableCircle(items, id)
  {
    var once := DisableCircle(items, id);
    var twice := DisableCircle(once, id);
    forall i | 0 <= i < |items|
      ensures twice[i] == once[i]
    {
      assert twice[i].(active := once[i].active) == once[i];
    }
  }

  /**
   * A tap on an id no circle carries, or on circles already disabled, leaves
   * the list as it was; so it does not matter that pixi stops delivering taps
   * once `interactive` is cleared or the graphics destroyed.
   */
  lemma DisableWithoutEffect(items: seq<Item>, id: int)
    requires forall i :: 0 <= i < |items| && items[i].id == id ==> !items[i].active
    ensures DisableCircle(items, id) == items
  {
    var r := DisableCircle(items, id);
    forall i | 0 <= i < |items|
      ensures r[i] == items[i]
    {
      assert r[i].(active := items[i].active) == items[i];
    }
  }

  /** disableCircle keeps the ids, in order. */
  lemma DisableKeepsIds(items: seq<Item>, id: int)
    ensures IdOrder(DisableCircle(items, id)) == IdOrder(items)
    ensures Ids(DisableCircle(items, id)) == Ids(items)
  {
    var r := DisableCircle(items, id);
    assert forall i :: 0 <= i < |items| ==> r[i].id == items[i].(active := r[i].active).id;
    IdOrderPointwise(r, items);
    forall x | x in Ids(items) ensures x in Ids(r) {
      var it :| it in items && it.id == x;
      var i :| 0 <= i < |items| && items[i] == it;
      IdAt(r, i);
    }
    forall x | x in Ids(r) ensures x in Ids(items) {
      var it :| it in r && it.id == x;
      var i :| 0 <= i < |r| && r[i] == it;
      IdAt(items, i);
    }
  }

  lemma {:induction false} IdOrderPointwise(a: seq<Item>, b: seq<Item>)
    requires |a| == |b| && forall i :: 0 <= i < |a| ==> a[i].id == b[i].id
    ensures IdOrder(a) == IdOrder(b)
    decreases |a|
  {
    if |a| > 0 {
      IdOrderPointwise(a[1..], b[1..]);
    }
  }

  // ---------------------------------------------------------------------------
  // The invariant of the item list

  /** What holds of every tracked circle, whatever happened to it since its spawn. */
  predicate WellFormed(it: Item) {
    && 0 <= it.id <= MaxId
    && MinWeight <= it.weight <= MaxWeight
    && MinRadius <= it.radius <= MaxRadius
    && it.scaleX == it.scaleY
    && -1 <= it.scaleX <= FullScale
    && (it.active ==> it.scaleX == FullScale)
  }

  predicate Consistent(items: seq<Item>) {
    && DistinctIds(items)
    && forall i :: 0 <= i < |items| ==> WellFormed(items[i])
  }

  /**
   * Spawning keeps the list consistent exactly when the drawn id is not
   * already tracked: the source does not check, so a repeated id is possible.
   */
  lemma SpawnKeepsConsistent(items: seq<Item>, width: int, d: Draws)
    requires Consistent(items)
    ensures Consistent(Spawn(items, width, d)) <==> CreateCircle(width, d).id !in Ids(items)
  {
    var c := CreateCircle(width, d);
    var r := Spawn(items, width, d);
    assert r == items + [c];
    if c.id in Ids(items) {
      var it :| it in items && it.id == c.id;
      var i :| 0 <= i < |items| && items[i] == it;
      assert r[i].id == r[|items|].id;
    } else {
      forall i | 0 <= i < |items|
        ensures items[i].id != c.id
      {
        IdAt(items, i);
      }
    }
  }

  lemma DisableKeepsConsistent(items: seq<Item>, id: int)
    requires Consistent(items)
    ensures Consistent(DisableCircle(items, id))
  {
    var r := DisableCircle(items, id);
    assert forall i :: 0 <= i < |items| ==> r[i].(active := items[i].active) == items[i];
  }

  lemma TickKeepsConsistent(items: seq<Item>, delta: real)
    requires Consistent(items)
    ensures Tick(items, delta).Ok?
    ensures Consistent(Tick(items, delta).value)
  {
    TickMatchesReference(items, delta);
    TickSpecIds(items, delta);
    var r := TickSpec(items, delta);
    forall i | 0 <= i < |r|
      ensures WellFormed(r[i])
    {
      TickSpecOrigin(items, delta, i);
      var k := FindIndex(items, r[i].id).value;
      assert WellFormed(items[k]);
    }
  }

  /**
   * Every callback keeps the list consistent and the ticker never reaches the
   * missing-graphics error, provided each spawn draws an id not yet tracked.
   */
  lemma ApplyKeepsConsistent(items: seq<Item>, width: int, e: Event)
    requires Consistent(items)
    requires e.SpawnTimer? ==> CreateCircle(width, e.draws).id !in Ids(items)
    ensures Apply(items, width, e).Ok?
    ensures Consistent(Apply(items, width, e).value)
  {
    match e
    case SpawnTimer(d) => SpawnKeepsConsistent(items, width, d);
    case Tap(id) => DisableKeepsConsistent(items, id);
    case Frame(delta) => TickKeepsConsistent(items, delta);
  }

  // ---------------------------------------------------------------------------
  // A disabled circle in the running game

  /** The callbacks applied one event at a time, stopping at the first error. */
  function RunEvents(items: seq<Item>, width: int, es: seq<Event>): Result<seq<Item>, Fault>
    decreases |es|
  {
    if |es| == 0 then Ok(items)
    else
      match Apply(items, width, es[0])
      case Err(e) => Err(e)
      case Ok(next) => RunEvents(next, width, es[1..])
  }

  /** How many of the events are frames. */
  function FrameCount(es: seq<Event>): nat
    decreases |es|
  {
    if |es| == 0 then 0 else (if es[0].Frame? then 1 else 0) + FrameCount(es[1..])
  }

  /** Every spawn among the events draws an id that is not tracked when it fires. */
  predicate FreshSpawns(items: seq<Item>, width: int, es: seq<Event>)
    decreases |es|
  {
    |es| == 0 ||
    ((es[0].SpawnTimer? ==> CreateCircle(width, es[0].draws).id !in Ids(items))
     && (Apply(items, width, es[0]).Ok? ==> FreshSpawns(Apply(items, width, es[0]).value, width, es[1..])))
  }

  /** The circle after `n` frames of shrinking: both scale axes `n` tenths lower. */
  function ShrunkBy(it: Item, n: int): Item {
    it.(scaleX := it.scaleX - n * ScaleStep, scaleY := it.scaleY - n * ScaleStep)
  }

  /**
   * One callback seen from a disabled circle: a frame shrinks it by a tenth
   * on both axes, a spawn or a tap leaves it as it is.
   */
  lemma EventOnDisabled(items: seq<Item>, width: int, e: Event, it: Item)
    requires Consistent(items) && Lookup(items, it.id) == Some(it) && !it.active
    requires e.SpawnTimer? ==> CreateCircle(width, e.draws).id !in Ids(items)
    requires e.Frame? ==> 0 <= it.scaleX
    ensures Apply(items, width, e).Ok?
    ensures Consistent(Apply(items, width, e).value)
    ensures Lookup(Apply(items, width, e).value, it.id) == Some(if e.Frame? then Shrink(it) else it)
  {
    ApplyKeepsConsistent(items, width, e);
    var r := Apply(items, width, e).value;
    var k := FindIndex(items, it.id).value;
    match e
    case SpawnTimer(d) =>
      assert r[k] == it;
      LookupAt(r, k);
    case Tap(id) =>
      assert r[k].(active := items[k].active) == items[k];
      assert r[k] == it;
      LookupAt(r, k);
    case Frame(delta) =>
      TickMatchesReference(items, delta);
      TickSpecLookup(items, delta, it.id);
  }

  /**
   * In the game: a circle disabled at scale s is still tracked while at most
   * s + 1 frames have run, whatever spawns (with fresh ids) and taps come in
   * between, at scale s minus the number of frames on both axes. `final` is
   * the item list after the events.
   */
  lemma {:induction false} DisabledCircleInGame(items: seq<Item>, width: int, es: seq<Event>, it: Item)
    returns (final: seq<Item>)
    requires Consistent(items) && Lookup(items, it.id) == Some(it) && !it.active
    requires FreshSpawns(items, width, es) && FrameCount(es) <= it.scaleX + 1
    ensures RunEvents(items, width, es) == Ok(final)
    ensures Consistent(final)
    ensures Lookup(final, it.id) == Some(ShrunkBy(it, FrameCount(es)))
    decreases |es|
  {
    if |es| == 0 {
      final := items;
      assert ShrunkBy(it, 0) == it;
    } else {
      var next, it' := InGameStep(items, width, es, it);
      final := DisabledCircleInGame(next, width, es[1..], it');
    }
  }

  /**
   * The first event of the run, as DisabledCircleInGame needs it for the
   * rest: the list it leaves and what it made of the circle.
   */
  lemma InGameStep(items: seq<Item>, width: int, es: seq<Event>, it: Item) returns (next: seq<Item>, it': Item)
    requires Consistent(items) && Lookup(items, it.id) == Some(it) && !it.active
    requires FreshSpawns(items, width, es) && FrameCount(es) <= it.scaleX + 1
    requires |es| > 0
    ensures it'.id == it.id && !it'.active
    ensures Consistent(next) && Lookup(next, it'.id) == Some(it')
    ensures FreshSpawns(next, width, es[1..]) && FrameCount(es[1..]) <= it'.scaleX + 1
    ensures RunEvents(items, width, es) == RunEvents(next, width, es[1..])
    ensures ShrunkBy(it', FrameCount(es[1..])) == ShrunkBy(it, FrameCount(es))
  {
    FrameCountHead(es);
    EventOnDisabled(items, width, es[0], it);
    RunEventsStep(items, width, es);
    next := Apply(items, width, es[0]).value;
    it' := if es[0].Frame? then Shrink(it) else it;
  }

  lemma FrameCountHead(es: seq<Event>)
    requires |es| > 0
    ensures FrameCount(es) == (if es[0].Frame? then 1 else 0) + FrameCount(es[1..])
  {
  }

  /** The run after its first event: the rest of the events on the list that event left. */
  lemma RunEventsStep(items: seq<Item>, width: int, es: seq<Event>)
    requires |es| > 0
    ensures Apply(items, width, es[0]).Ok? ==>
      RunEvents(items, width, es) == RunEvents(Apply(items, width, es[0]).value, width, es[1..])
    ensures FreshSpawns(items, width, es) && Apply(items, width, es[0]).Ok? ==>
      && (es[0].SpawnTimer? ==> CreateCircle(width, es[0].draws).id !in Ids(items))
      && FreshSpawns(Apply(items, width, es[0]).value, width, es[1..])
  {
  }
}
