/**
 * The bubble lifecycle of the `Gameplay` class: circles are created by a
 * spawn timer, disabled by a tap, and advanced by the frame ticker, which makes
 * active circles fall and shrinks disabled ones until they are removed.
 *
 * The pixi `Graphics` object of a circle is replaced by record fields: its
 * position (`x`, `y`), its radius and its scale. Scale is kept in whole tenths
 * (10 stands for 1.0). Since a circle's graphics object belongs to exactly one
 * item and ids are distinct, "the graphics of the item with id `id`" is the
 * item found by that id.
 */
module Gameplay {
  import opened Results
  import opened Sequences
  import opened Helpers

  /** Largest id the spawn draw can produce (ids are drawn from 0 .. MaxId). */
  const MaxId := 9999999
  /** Fall-speed bounds of a fresh circle. */
  const MinWeight := 0
  const MaxWeight := 5
  /** Radius bounds of a fresh circle. */
  const MinRadius := 20
  const MaxRadius := 70
  /** A fresh graphics object has scale 1.0, i.e. ten tenths. */
  const FullScale := 10
  /** Each shrink lowers the scale by 0.1, i.e. one tenth. */
  const ScaleStep := 1

  /** A tracked circle: the item record plus the state of its graphics object. */
  datatype Item = Item(
    id: int,
    active: bool,
    weight: int,
    radius: int,
    x: real,
    y: real,
    scaleX: int,
    scaleY: int)

  /** The four `Math.random()` values one call of createCircle consumes. */
  datatype Draws = Draws(id: UnitDraw, weight: UnitDraw, radius: UnitDraw, x: UnitDraw)

  /**
   * removeCircle reads `graphics.scale` of the item it looked up; when no item
   * has the id, `graphics` is undefined and the read throws a TypeError.
   * Nothing is undone by the throw: `partial` is the item list as it stands at
   * that moment, with every update the frame made before it.
   */
  datatype Fault = MissingGraphics(id: int, partial: seq<Item>)

  /** The ids of the tracked items. */
  function Ids(items: seq<Item>): set<int> {
    set it | it in items :: it.id
  }

  /** No two tracked items share an id. */
  predicate DistinctIds(items: seq<Item>) {
    forall i, j :: 0 <= i < j < |items| ==> items[i].id != items[j].id
  }

  /** A disabled circle whose graphics scale has gone below zero in either axis. */
  predicate Vanishing(it: Item) {
    it.scaleX < 0 || it.scaleY < 0
  }

  /**
   * createCircle: an active circle with a drawn id, fall speed and radius,
   * placed fully above the viewport at a drawn horizontal position.
   */
  function CreateCircle(width: int, d: Draws): (c: Item)
    ensures c.active
    ensures 0 <= c.id <= MaxId
    ensures MinWeight <= c.weight <= MaxWeight
    ensures MinRadius <= c.radius <= MaxRadius
    ensures c.y == -(c.radius as real)
    ensures c.scaleX == FullScale && c.scaleY == FullScale
    ensures c.radius <= width ==>
      c.radius as real / 2.0 <= c.x <= width as real - c.radius as real / 2.0
  {
    var id := RandomNumber(0.0, MaxId as real, d.id).Floor;
    var weight := RandomNumber(MinWeight as real, MaxWeight as real, d.weight).Floor;
    var radius := RandomNumber(MinRadius as real, MaxRadius as real, d.radius).Floor;
    var half := radius as real / 2.0;
    assert (width as real - half) - half == (width - radius) as real;
    var x := RandomNumber(half, width as real - half, d.x);
    Item(id, true, weight, radius, x, -(radius as real), FullScale, FullScale)
  }

  /**
   * The body of the spawn interval: create one circle and push it onto the
   * item list. Nothing already tracked changes or moves.
   */
  function Spawn(items: seq<Item>, width: int, d: Draws): (r: seq<Item>)
    ensures |r| == |items| + 1
    ensures r[..|items|] == items
    ensures r[|items|] == CreateCircle(width, d)
  {
    items + [CreateCircle(width, d)]
  }

  /** `items.find(item => item.id === id)`, as the position of the first match. */
  function FindIndex(items: seq<Item>, id: int): (k: Option<nat>)
    ensures k.None? <==> id !in Ids(items)
    ensures k.Some? ==> k.value < |items| && items[k.value].id == id
    ensures k.Some? ==> forall j :: 0 <= j < k.value ==> items[j].id != id
  {
    if |items| == 0 then None
    else if items[0].id == id then Some(0)
    else
      match FindIndex(items[1..], id)
      case None => None
      case Some(k) => Some(k + 1)
  }

  /**
   * disableCircle: when some item has the id, every item with that id is
   * marked inactive; no other field and no other item changes. When none has
   * it, the list is returned as it was.
   */
  function DisableCircle(items: seq<Item>, id: int): (r: seq<Item>)
    ensures |r| == |items|
    ensures forall i :: 0 <= i < |items| ==> r[i].active == (items[i].active && items[i].id != id)
    ensures forall i :: 0 <= i < |items| ==> r[i].(active := items[i].active) == items[i]
  {
    if FindIndex(items, id).Some? then
      seq(|items|, i requires 0 <= i < |items| =>
        if items[i].id == id then items[i].(active := false) else items[i])
    else
      items
  }

  /** `items.filter(item => item.id !== id)`. */
  function WithoutId(items: seq<Item>, id: int): seq<Item> {
    if |items| == 0 then []
    else if items[0].id == id then WithoutId(items[1..], id)
    else [items[0]] + WithoutId(items[1..], id)
  }

  /**
   * The filter keeps exactly the items with another id, each as many times as
   * it occurs, in their original order.
   */
  lemma {:induction false} WithoutIdSpec(items: seq<Item>, id: int)
    ensures forall it :: it in WithoutId(items, id) <==> it in items && it.id != id
    ensures forall it ::
      multiset(WithoutId(items, id))[it] == (if it.id == id then 0 else multiset(items)[it])
    ensures IsSubseq(WithoutId(items, id), items)
    decreases |items|
  {
    if |items| > 0 {
      var rest := WithoutId(items[1..], id);
      WithoutIdSpec(items[1..], id);
      assert items == [items[0]] + items[1..];
      assert multiset(items) == multiset([items[0]]) + multiset(items[1..]);
      if items[0].id == id {
        SubseqSkip(items[0], rest, items[1..]);
      } else {
        SubseqCons(items[0], rest, items[1..]);
      }
    }
  }

  /** One tick of a disabled circle's graphics: both scale axes drop by a tenth. */
  function Shrink(it: Item): Item {
    it.(scaleX := it.scaleX - ScaleStep, scaleY := it.scaleY - ScaleStep)
  }

  /**
   * removeCircle: look the id up; a graphics object already scaled below zero
   * is dropped together with every item carrying the id, otherwise it shrinks
   * by one step. A missing id is the TypeError of the source.
   */
  function RemoveCircle(items: seq<Item>, id: int): Result<seq<Item>, Fault> {
    match FindIndex(items, id)
    case None => Err(MissingGraphics(id, items))
    case Some(k) =>
      if Vanishing(items[k]) then Ok(WithoutId(items, id))
      else Ok(items[k := Shrink(items[k])])
  }

  /**
   * removeCircle fails exactly when no item has the id, leaving the list as
   * it was. When the first item with the id is not below scale zero, only
   * that item changes, both scale axes one tenth lower.
   */
  lemma RemoveCircleSpec(items: seq<Item>, id: int)
    ensures RemoveCircle(items, id).Err? <==> id !in Ids(items)
    ensures RemoveCircle(items, id).Err? ==> RemoveCircle(items, id).error == MissingGraphics(id, items)
    ensures RemoveCircle(items, id).Ok? && !Vanishing(items[FindIndex(items, id).value]) ==>
      var r := RemoveCircle(items, id).value;
      var k := FindIndex(items, id).value;
      && |r| == |items|
      && (forall j :: 0 <= j < |items| && j != k ==> r[j] == items[j])
      && r[k].scaleX == items[k].scaleX - ScaleStep
      && r[k].scaleY == items[k].scaleY - ScaleStep
      && r[k].(scaleX := items[k].scaleX, scaleY := items[k].scaleY) == items[k]
  {
  }

  /**
   * When the first item with the id is below scale zero on either axis,
   * removeCircle drops every item with the id; every other item stays, as
   * many times as it occurs, in its original order.
   */
  lemma RemoveCircleVanishing(items: seq<Item>, id: int, k: nat)
    requires FindIndex(items, id) == Some(k) && Vanishing(items[k])
    ensures RemoveCircle(items, id).Ok?
    ensures var r := RemoveCircle(items, id).value;
      && (forall it :: it in r <==> it in items && it.id != id)
      && (forall it :: multiset(r)[it] == (if it.id == id then 0 else multiset(items)[it]))
      && IsSubseq(r, items)
  {
    WithoutIdSpec(items, id);
  }

  /** `graphics.y += dy` on the graphics object of the item with the id. */
  function MoveDown(items: seq<Item>, id: int, dy: real): seq<Item> {
    match FindIndex(items, id)
    case None => items
    case Some(k) => items[k := items[k].(y := items[k].y + dy)]
  }

  /**
   * The ticker callback, continued from the `snapshot` position onwards: each
   * snapshot entry acts on the current list, active ones falling by their
   * weight plus the frame delta and inactive ones going through removeCircle.
   */
  function TickFrom(snapshot: seq<Item>, current: seq<Item>, delta: real): Result<seq<Item>, Fault>
    decreases |snapshot|
  {
    if |snapshot| == 0 then Ok(current)
    else
      var s := snapshot[0];
      if s.active then
        TickFrom(snapshot[1..], MoveDown(current, s.id, s.weight as real + delta), delta)
      else
        match RemoveCircle(current, s.id)
        case Err(e) => Err(e)
        case Ok(next) => TickFrom(snapshot[1..], next, delta)
  }

  /** One frame: `forEach` walks the list as it stood when the frame began. */
  function Tick(items: seq<Item>, delta: real): Result<seq<Item>, Fault> {
    TickFrom(items, items, delta)
  }

  /** What can happen between two observations of the item list. */
  datatype Event =
    | SpawnTimer(draws: Draws)   // the 1000 ms interval fires
    | Tap(id: int)               // mousedown or touchstart on a circle
    | Frame(delta: real)         // the pixi ticker runs

  /** The item list after one event. */
  function Apply(items: seq<Item>, width: int, e: Event): Result<seq<Item>, Fault> {
    match e
    case SpawnTimer(d) => Ok(Spawn(items, width, d))
    case Tap(id) => Ok(DisableCircle(items, id))
    case Frame(delta) => Tick(items, delta)
  }
}
