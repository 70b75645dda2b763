/**
 * A circle's lifecycle as a per-item state machine, and the proof that the
 * frame ticker of `Gameplay` (a fold over the start-of-frame snapshot that
 * looks items up by id) acts on every item independently, by this machine.
 *
 *   active   --tick-->  active, `y` grown by weight + delta (it falls)
 *   disabled --tick-->  disabled, scale one tenth smaller   (scale >= 0)
 *   disabled --tick-->  removed                             (scale <  0)
 */
module Lifecycle {
  import opened Results
  import opened Sequences
  import opened Gameplay

  /** An active circle falls by its weight plus the frame delta. */
  function Fall(it: Item, delta: real): Item {
    it.(y := it.y + it.weight as real + delta)
  }

  /** What one frame does to one circle: None when the circle is removed. */
  function StepItem(it: Item, delta: real): Option<Item> {
    if it.active then Some(Fall(it, delta))
    else if Vanishing(it) then None
    else Some(Shrink(it))
  }

  /** StepItem lifted to a circle that may already be gone. */
  function StepOpt(o: Option<Item>, delta: real): Option<Item> {
    match o
    case None => None
    case Some(it) => StepItem(it, delta)
  }

  function Kept(o: Option<Item>): seq<Item> {
    match o
    case None => []
    case Some(it) => [it]
  }

  /** The reference frame: every circle stepped on its own, in list order. */
  function TickSpec(items: seq<Item>, delta: real): seq<Item> {
    if |items| == 0 then []
    else Kept(StepItem(items[0], delta)) + TickSpec(items[1..], delta)
  }

  /** The item `find` returns for the id. */
  function Lookup(items: seq<Item>, id: int): Option<Item> {
    match FindIndex(items, id)
    case None => None
    case Some(k) => Some(items[k])
  }

  /** The ids of the list, in list order. */
  function IdOrder(items: seq<Item>): seq<int> {
    if |items| == 0 then [] else [items[0].id] + IdOrder(items[1..])
  }

  // ---------------------------------------------------------------------------
  // Facts about ids and lookups

  lemma IdsCons(x: Item, rest: seq<Item>)
    ensures Ids([x] + rest) == {x.id} + Ids(rest)
  {
    assert forall it :: it in [x] + rest <==> it == x || it in rest;
  }

  lemma IdsAppend(a: seq<Item>, b: seq<Item>)
    ensures Ids(a + b) == Ids(a) + Ids(b)
  {
    assert forall it :: it in a + b <==> it in a || it in b;
  }

  lemma IdAt(items: seq<Item>, i: int)
    requires 0 <= i < |items|
    ensures items[i].id in Ids(items)
  {
    assert items[i] in items;
  }

  lemma NotInIds(items: seq<Item>, id: int)
    requires forall i :: 0 <= i < |items| ==> items[i].id != id
    ensures id !in Ids(items)
  {
    assert forall it :: it in items ==> it.id != id;
  }

  lemma DistinctCons(x: Item, rest: seq<Item>)
    ensures DistinctIds([x] + rest) <==> x.id !in Ids(rest) && DistinctIds(rest)
  {
    if DistinctIds([x] + rest) {
      DistinctConsSplit(x, rest);
    }
    if x.id !in Ids(rest) && DistinctIds(rest) {
      DistinctConsJoin(x, rest);
    }
  }

  lemma DistinctConsSplit(x: Item, rest: seq<Item>)
    requires DistinctIds([x] + rest)
    ensures x.id !in Ids(rest) && DistinctIds(rest)
  {
    var s := [x] + rest;
    forall j | 0 <= j < |rest|
      ensures rest[j].id != x.id
    {
      assert s[0] == x && s[j + 1] == rest[j];
    }
    NotInIds(rest, x.id);
    forall i, j | 0 <= i < j < |rest|
      ensures rest[i].id != rest[j].id
    {
      assert s[i + 1] == rest[i] && s[j + 1] == rest[j];
    }
  }

  lemma DistinctConsJoin(x: Item, rest: seq<Item>)
    requires x.id !in Ids(rest) && DistinctIds(rest)
    ensures DistinctIds([x] + rest)
  {
    var s := [x] + rest;
    forall i, j | 0 <= i < j < |s|
      ensures s[i].id != s[j].id
    {
      assert s[j] == rest[j - 1];
      if i == 0 {
        IdAt(rest, j - 1);
      } else {
        assert s[i] == rest[i - 1];
      }
    }
  }

  lemma DistinctAppend(a: seq<Item>, b: seq<Item>)
    requires DistinctIds(a + b)
    ensures DistinctIds(a) && DistinctIds(b) && Ids(a) !! Ids(b)
  {
    var s := a + b;
    assert forall i, j :: 0 <= i < j < |a| ==> s[i] == a[i] && s[j] == a[j];
    assert forall i, j :: 0 <= i < j < |b| ==> s[|a| + i] == b[i] && s[|a| + j] == b[j];
    forall id | id in Ids(a)
      ensures id !in Ids(b)
    {
      var it :| it in a && it.id == id;
      var i :| 0 <= i < |a| && a[i] == it;
      assert forall j :: 0 <= j < |b| ==> s[i] == a[i] && s[|a| + j] == b[j];
      NotInIds(b, id);
    }
  }

  lemma LookupCons(x: Item, rest: seq<Item>, id: int)
    ensures Lookup([x] + rest, id) == if x.id == id then Some(x) else Lookup(rest, id)
  {
    assert ([x] + rest)[1..] == rest;
  }

  lemma LookupAbsent(items: seq<Item>, id: int)
    ensures Lookup(items, id).None? <==> id !in Ids(items)
  {
  }

  /** In a list with distinct ids, `find` returns the one item carrying the id. */
  lemma LookupAt(items: seq<Item>, i: int)
    requires DistinctIds(items) && 0 <= i < |items|
    ensures Lookup(items, items[i].id) == Some(items[i])
  {
    IdAt(items, i);
  }

  // ---------------------------------------------------------------------------
  // The reference frame

  lemma {:induction false} TickSpecAppend(a: seq<Item>, b: seq<Item>, delta: real)
    ensures TickSpec(a + b, delta) == TickSpec(a, delta) + TickSpec(b, delta)
    decreases |a|
  {
    if |a| == 0 {
      assert a + b == b;
    } else {
      assert (a + b)[0] == a[0];
      assert (a + b)[1..] == a[1..] + b;
      TickSpecAppend(a[1..], b, delta);
    }
  }

  /** A stepped circle keeps its id. */
  lemma StepKeepsId(it: Item, delta: real)
    ensures Ids(Kept(StepItem(it, delta))) <= {it.id}
  {
    assert forall x :: x in Kept(StepItem(it, delta)) ==> x.id == it.id;
  }

  /** A frame never brings in an id that was not tracked, and keeps ids distinct. */
  lemma {:induction false} TickSpecIds(items: seq<Item>, delta: real)
    ensures Ids(TickSpec(items, delta)) <= Ids(items)
    ensures DistinctIds(items) ==> DistinctIds(TickSpec(items, delta))
    decreases |items|
  {
    if |items| > 0 {
      var x, rest := items[0], items[1..];
      assert items == [x] + rest;
      var k, t := Kept(StepItem(x, delta)), TickSpec(rest, delta);
      TickSpecIds(rest, delta);
      IdsCons(x, rest);
      IdsAppend(k, t);
      StepKeepsId(x, delta);
      if DistinctIds(items) {
        DistinctCons(x, rest);
        if k == [] {
          assert k + t == t;
        } else {
          assert k + t == [k[0]] + t;
          DistinctCons(k[0], t);
        }
      }
    }
  }

  /**
   * The reference frame, seen from a single id: the circle `find` returns
   * afterwards is what StepItem makes of the circle it returned before.
   */
  lemma {:induction false} TickSpecLookup(items: seq<Item>, delta: real, id: int)
    requires DistinctIds(items)
    ensures Lookup(TickSpec(items, delta), id) == StepOpt(Lookup(items, id), delta)
    decreases |items|
  {
    if |items| == 0 {
    } else {
      var x, rest := items[0], items[1..];
      assert items == [x] + rest;
      DistinctCons(x, rest);
      LookupCons(x, rest, id);
      TickSpecLookup(rest, delta, id);
      TickSpecIds(rest, delta);
      var t := TickSpec(rest, delta);
      match StepItem(x, delta)
      case None =>
        assert TickSpec(items, delta) == t;
        if x.id == id {
          LookupAbsent(rest, id);
          LookupAbsent(t, id);
        }
      case Some(y) =>
        assert TickSpec(items, delta) == [y] + t;
        LookupCons(y, t, id);
        if x.id == id {
          LookupAbsent(rest, id);
        }
    }
  }

  /** A frame keeps the surviving circles in their relative order. */
  lemma {:induction false} TickSpecOrder(items: seq<Item>, delta: real)
    ensures IsSubseq(IdOrder(TickSpec(items, delta)), IdOrder(items))
    decreases |items|
  {
    if |items| > 0 {
      var x, rest := items[0], items[1..];
      var t := TickSpec(rest, delta);
      TickSpecOrder(rest, delta);
      assert IdOrder(items) == [x.id] + IdOrder(rest);
      match StepItem(x, delta)
      case None =>
        assert TickSpec(items, delta) == t;
        SubseqSkip(x.id, IdOrder(t), IdOrder(rest));
      case Some(y) =>
        assert TickSpec(items, delta) == [y] + t;
        assert ([y] + t)[1..] == t;
        assert IdOrder([y] + t) == [x.id] + IdOrder(t);
        SubseqCons(x.id, IdOrder(t), IdOrder(rest));
    }
  }

  // ---------------------------------------------------------------------------
  // The source fold agrees with the reference frame

  lemma {:induction false} WithoutIdAppend(a: seq<Item>, b: seq<Item>, id: int)
    ensures WithoutId(a + b, id) == WithoutId(a, id) + WithoutId(b, id)
    decreases |a|
  {
    if |a| == 0 {
      assert a + b == b;
    } else {
      assert (a + b)[0] == a[0];
      assert (a + b)[1..] == a[1..] + b;
      WithoutIdAppend(a[1..], b, id);
    }
  }

  lemma {:induction false} WithoutIdAbsent(a: seq<Item>, id: int)
    requires id !in Ids(a)
    ensures WithoutId(a, id) == a
    decreases |a|
  {
    if |a| > 0 {
      assert a == [a[0]] + a[1..];
      IdsCons(a[0], a[1..]);
      WithoutIdAbsent(a[1..], id);
    }
  }

  /** `find` reaches past a prefix that does not carry the id. */
  lemma FindAfterPrefix(pre: seq<Item>, rest: seq<Item>, id: int)
    requires id !in Ids(pre) && |rest| > 0 && rest[0].id == id
    ensures FindIndex(pre + rest, id) == Some(|pre|)
  {
    var s := pre + rest;
    IdAt(s, |pre|);
    forall j | 0 <= j < |pre|
      ensures s[j].id != id
    {
      assert s[j] == pre[j];
      IdAt(pre, j);
    }
  }

  /** removeCircle on a found circle already below scale zero is the filter. */
  lemma RemoveFoundVanishing(items: seq<Item>, k: nat, id: int)
    requires FindIndex(items, id) == Some(k) && Vanishing(items[k])
    ensures RemoveCircle(items, id) == Ok(WithoutId(items, id))
  {
  }

  /** removeCircle on a found circle at scale zero or more shrinks that one item. */
  lemma RemoveFoundShrinking(items: seq<Item>, k: nat, id: int)
    requires FindIndex(items, id) == Some(k) && !Vanishing(items[k])
    ensures RemoveCircle(items, id) == Ok(items[k := Shrink(items[k])])
  {
  }

  /** Replacing the middle element of a three-part list. */
  lemma UpdateMiddle(pre: seq<Item>, s: Item, tail: seq<Item>, v: Item)
    ensures (pre + [s] + tail)[|pre| := v] == pre + [v] + tail
  {
  }

  /**
   * One snapshot entry of the ticker, applied to a list whose processed part
   * is already the reference frame, replaces its own circle by the circle's
   * reference step and touches nothing else. An active entry falls:
   */
  lemma EntryFalls(pre: seq<Item>, s: Item, tail: seq<Item>, delta: real)
    requires s.id !in Ids(pre) && s.active
    ensures MoveDown(pre + [s] + tail, s.id, s.weight as real + delta)
         == pre + Kept(StepItem(s, delta)) + tail
  {
    var cur := pre + [s] + tail;
    assert FindIndex(cur, s.id) == Some(|pre|) && cur[|pre|] == s by {
      assert cur == pre + ([s] + tail);
      FindAfterPrefix(pre, [s] + tail, s.id);
    }
    UpdateMiddle(pre, s, tail, Fall(s, delta));
  }

  /** ... a disabled entry still at scale zero or more shrinks ... */
  lemma EntryShrinks(pre: seq<Item>, s: Item, tail: seq<Item>, delta: real)
    requires s.id !in Ids(pre) && !s.active && !Vanishing(s)
    ensures RemoveCircle(pre + [s] + tail, s.id) == Ok(pre + Kept(StepItem(s, delta)) + tail)
  {
    var cur := pre + [s] + tail;
    assert FindIndex(cur, s.id) == Some(|pre|) && cur[|pre|] == s by {
      assert cur == pre + ([s] + tail);
      FindAfterPrefix(pre, [s] + tail, s.id);
    }
    RemoveFoundShrinking(cur, |pre|, s.id);
    UpdateMiddle(pre, s, tail, Shrink(s));
  }

  /** ... and a disabled entry below scale zero is filtered out. */
  lemma EntryVanishes(pre: seq<Item>, s: Item, tail: seq<Item>, delta: real)
    requires s.id !in Ids(pre) && s.id !in Ids(tail) && !s.active && Vanishing(s)
    ensures RemoveCircle(pre + [s] + tail, s.id) == Ok(pre + Kept(StepItem(s, delta)) + tail)
  {
    var cur := pre + [s] + tail;
    var found := FindIndex(cur, s.id);
    assert found == Some(|pre|) && cur[|pre|] == s by {
      assert cur == pre + ([s] + tail);
      FindAfterPrefix(pre, [s] + tail, s.id);
    }
    var filtered := WithoutId(cur, s.id);
    assert filtered == pre + tail by {
      WithoutIdMiddle(pre, s, tail);
    }
    assert RemoveCircle(cur, s.id) == Ok(filtered) by {
      RemoveFoundVanishing(cur, |pre|, s.id);
    }
    assert Kept(StepItem(s, delta)) == [];
    assert pre + [] + tail == pre + tail;
  }

  /** Filtering out an id carried only by the middle element drops just that element. */
  lemma WithoutIdMiddle(pre: seq<Item>, s: Item, tail: seq<Item>)
    requires s.id !in Ids(pre) && s.id !in Ids(tail)
    ensures WithoutId(pre + [s] + tail, s.id) == pre + tail
  {
    assert pre + [s] + tail == pre + ([s] + tail);
    WithoutIdAppend(pre, [s] + tail, s.id);
    WithoutIdAbsent(pre, s.id);
    WithoutIdHead(s, tail);
    WithoutIdAbsent(tail, s.id);
  }

  lemma WithoutIdHead(s: Item, tail: seq<Item>)
    ensures WithoutId([s] + tail, s.id) == WithoutId(tail, s.id)
  {
    assert ([s] + tail)[0] == s;
    assert ([s] + tail)[1..] == tail;
  }

  /** The first step of the ticker's walk, for an active first entry ... */
  lemma TickFromActive(s: Item, tail: seq<Item>, cur: seq<Item>, delta: real)
    requires s.active
    ensures TickFrom([s] + tail, cur, delta) == TickFrom(tail, MoveDown(cur, s.id, s.weight as real + delta), delta)
  {
    assert ([s] + tail)[0] == s;
    assert ([s] + tail)[1..] == tail;
  }

  /** ... and for a disabled one whose removeCircle succeeds. */
  lemma TickFromDisabled(s: Item, tail: seq<Item>, cur: seq<Item>, next: seq<Item>, delta: real)
    requires !s.active && RemoveCircle(cur, s.id) == Ok(next)
    ensures TickFrom([s] + tail, cur, delta) == TickFrom(tail, next, delta)
  {
    assert ([s] + tail)[0] == s;
    assert ([s] + tail)[1..] == tail;
  }

  /** The snapshot entry `s` is the only carrier of its id, before and after. */
  lemma EntryIsFresh(done: seq<Item>, s: Item, tail: seq<Item>, delta: real)
    requires DistinctIds(done + ([s] + tail))
    ensures s.id !in Ids(TickSpec(done, delta)) && s.id !in Ids(tail)
  {
    DistinctAppend(done, [s] + tail);
    DistinctConsSplit(s, tail);
    IdAt([s] + tail, 0);
    TickSpecIds(done, delta);
  }

  /** The ticker's walk takes its first snapshot entry to its reference step. */
  lemma EntryStep(pre: seq<Item>, s: Item, tail: seq<Item>, delta: real)
    requires s.id !in Ids(pre) && s.id !in Ids(tail)
    ensures TickFrom([s] + tail, pre + ([s] + tail), delta)
         == TickFrom(tail, pre + Kept(StepItem(s, delta)) + tail, delta)
  {
    var next := pre + Kept(StepItem(s, delta)) + tail;
    assert pre + ([s] + tail) == pre + [s] + tail;
    if s.active {
      EntryFalls(pre, s, tail, delta);
      TickFromActive(s, tail, pre + ([s] + tail), delta);
    } else if Vanishing(s) {
      EntryVanishes(pre, s, tail, delta);
      TickFromDisabled(s, tail, pre + ([s] + tail), next, delta);
    } else {
      EntryShrinks(pre, s, tail, delta);
      TickFromDisabled(s, tail, pre + ([s] + tail), next, delta);
    }
  }

  /** Stepping one more circle extends the reference frame by that circle's step. */
  lemma TickSpecSnoc(done: seq<Item>, s: Item, delta: real)
    ensures TickSpec(done + [s], delta) == TickSpec(done, delta) + Kept(StepItem(s, delta))
  {
    TickSpecAppend(done, [s], delta);
    assert [s][1..] == [];
  }

  /**
   * Walking the rest of the snapshot from a list whose processed part is
   * already the reference frame ends in the reference frame of the whole list.
   */
  lemma {:induction false} TickFromReference(done: seq<Item>, rest: seq<Item>, delta: real)
    requires DistinctIds(done + rest)
    ensures TickFrom(rest, TickSpec(done, delta) + rest, delta) == Ok(TickSpec(done + rest, delta))
    decreases |rest|
  {
    if |rest| == 0 {
      ReferenceEnd(done, rest, delta);
    } else {
      ReferenceStep(done, rest, delta);
      TickFromReference(done + [rest[0]], rest[1..], delta);
    }
  }

  /** With the snapshot used up, the processed part is the whole reference frame. */
  lemma ReferenceEnd(done: seq<Item>, rest: seq<Item>, delta: real)
    requires |rest| == 0
    ensures TickFrom(rest, TickSpec(done, delta) + rest, delta) == Ok(TickSpec(done + rest, delta))
  {
    assert done + rest == done;
    assert TickSpec(done, delta) + rest == TickSpec(done, delta);
  }

  /**
   * One step of the walk moves the first snapshot entry from the unprocessed
   * part into the reference prefix.
   */
  lemma ReferenceStep(done: seq<Item>, rest: seq<Item>, delta: real)
    requires |rest| > 0 && DistinctIds(done + rest)
    ensures done + [rest[0]] + rest[1..] == done + rest
    ensures TickFrom(rest, TickSpec(done, delta) + rest, delta)
         == TickFrom(rest[1..], TickSpec(done + [rest[0]], delta) + rest[1..], delta)
  {
    SplitHead(done, rest);
    ReferenceHead(done, rest[0], rest[1..], delta);
    PrefixGrows(done, rest[0], rest[1..], delta);
  }

  /** The snapshot written as its first entry followed by the others. */
  lemma SplitHead(done: seq<Item>, rest: seq<Item>)
    requires |rest| > 0
    ensures rest == [rest[0]] + rest[1..]
    ensures done + [rest[0]] + rest[1..] == done + rest
  {
  }

  /** The list after the step: the reference prefix grown by one circle, then the rest. */
  lemma PrefixGrows(done: seq<Item>, s: Item, tail: seq<Item>, delta: real)
    ensures TickSpec(done, delta) + Kept(StepItem(s, delta)) + tail == TickSpec(done + [s], delta) + tail
  {
    TickSpecSnoc(done, s, delta);
  }

  /** The walk's first step from the reference prefix `TickSpec(done)`. */
  lemma ReferenceHead(done: seq<Item>, s: Item, tail: seq<Item>, delta: real)
    requires DistinctIds(done + ([s] + tail))
    ensures TickFrom([s] + tail, TickSpec(done, delta) + ([s] + tail), delta)
         == TickFrom(tail, TickSpec(done, delta) + Kept(StepItem(s, delta)) + tail, delta)
  {
    EntryIsFresh(done, s, tail, delta);
    EntryStep(TickSpec(done, delta), s, tail, delta);
  }

  /**
   * With distinct ids the ticker never hits the missing-graphics error, and
   * its result is exactly the reference frame.
   */
  lemma TickMatchesReference(items: seq<Item>, delta: real)
    requires DistinctIds(items)
    ensures Tick(items, delta) == Ok(TickSpec(items, delta))
  {
    assert [] + items == items;
    TickFromReference([], items, delta);
  }

  // ---------------------------------------------------------------------------
  // A frame that faults

  /**
   * A throw part-way through a frame undoes nothing: the fault names a
   * disabled snapshot entry whose id is no longer tracked, and it carries the
   * list exactly as the entries before that one left it.
   */
  lemma {:induction false} TickFromFault(snapshot: seq<Item>, current: seq<Item>, delta: real)
    requires TickFrom(snapshot, current, delta).Err?
    ensures var e := TickFrom(snapshot, current, delta).error;
      exists j :: 0 <= j < |snapshot| && !snapshot[j].active && snapshot[j].id == e.id
        && e.id !in Ids(e.partial)
        && TickFrom(snapshot[..j], current, delta) == Ok(e.partial)
    decreases |snapshot|
  {
    var e := TickFrom(snapshot, current, delta).error;
    var s, tail := snapshot[0], snapshot[1..];
    assert snapshot == [s] + tail;
    if !s.active && RemoveCircle(current, s.id).Err? {
      RemoveCircleSpec(current, s.id);
      assert snapshot[..0] == [];
    } else {
      var next := if s.active then MoveDown(current, s.id, s.weight as real + delta)
        else RemoveCircle(current, s.id).value;
      assert TickFrom(snapshot, current, delta) == TickFrom(tail, next, delta) by {
        if s.active { TickFromActive(s, tail, current, delta); }
        else { TickFromDisabled(s, tail, current, next, delta); }
      }
      TickFromFault(tail, next, delta);
      var i :| 0 <= i < |tail| && !tail[i].active && tail[i].id == e.id
        && e.id !in Ids(e.partial)
        && TickFrom(tail[..i], next, delta) == Ok(e.partial);
      assert TickFrom(snapshot[..i + 1], current, delta) == Ok(e.partial) by {
        assert snapshot[..i + 1] == [s] + tail[..i];
        if s.active { TickFromActive(s, tail[..i], current, delta); }
        else { TickFromDisabled(s, tail[..i], current, next, delta); }
      }
      assert snapshot[i + 1] == tail[i];
    }
  }
}
