/** The grid area-of-interest service: the main thread adds, moves, deletes and fetches while a worker
    snapshots, recomputes and merges. Each method is one step under the data mutex, or, for the
    worker's `Update`, a step on its private copies. */
module GridAOIService {
  import opened Sequences
  import opened AoiReplay
  import opened GridIndex

  datatype AOIState = AOIState(eid: int, interests: seq<int>, notifies: seq<TriggerNotify>)

  /** Where the worker stands between its critical sections, with its private copies. */
  datatype Worker =
    | Idle
    | Snapshot(grids: map<GridPos, set<int>>, entities: map<int, AOIEntity>)
    | Computed(entities: map<int, AOIEntity>)

  type Entities = map<int, AOIEntity>

  // ---- Interest and observer sets ----

  /** b is among a's interests exactly when a is among b's observers; nobody watches itself. */
  ghost predicate Dual(es: Entities) {
    && (forall a, b :: a in es && b in es ==> (b in es[a].interests <==> a in es[b].observers))
    && (forall a :: a in es ==> a !in es[a].interests)
  }

  /** The sets mention only ids that have existed. */
  ghost predicate Known(es: Entities, ids: set<int>) {
    forall e :: e in es ==> es[e].interests <= ids && es[e].observers <= ids
  }

  /** Same id, place and view radius. */
  ghost predicate SamePlace(a: AOIEntity, b: AOIEntity) {
    a.eid == b.eid && a.x == b.x && a.y == b.y && a.radius == b.radius
  }

  method SetToSeq(s: set<int>) returns (r: seq<int>)
    ensures Elements(r) == s
    ensures forall i, j :: 0 <= i < j < |r| ==> r[i] != r[j]
  {
    r := CalcSetAdd({}, s);
  }

  /** The elements of b that are not in a. */
  method CalcSetAdd(a: set<int>, b: set<int>) returns (r: seq<int>)
    ensures Elements(r) == b - a
    ensures forall i, j :: 0 <= i < j < |r| ==> r[i] != r[j]
  {
    r := [];
    var todo := b;
    while todo != {}
      invariant todo <= b && Elements(r) == b - a - todo
      invariant forall i, j :: 0 <= i < j < |r| ==> r[i] != r[j]
      decreases |todo|
    {
      var x := Pick(todo);
      if x !in a {
        assert x !in Elements(r);
        assert Elements(r + [x]) == Elements(r) + {x};
        r := r + [x];
      }
      todo := todo - {x};
    }
  }

  /** The elements of a that are not in b. */
  method CalcSetDel(a: set<int>, b: set<int>) returns (r: seq<int>)
    ensures Elements(r) == a - b
    ensures forall i, j :: 0 <= i < j < |r| ==> r[i] != r[j]
  {
    r := CalcSetAdd(b, a);
  }

  /** Enters eid into the observers of every listed entity. */
  method Register(es: Entities, eid: int, others: seq<int>) returns (r: Entities)
    requires Elements(others) <= es.Keys
    ensures r == map e | e in es ::
              if e in Elements(others) then es[e].(observers := es[e].observers + {eid}) else es[e]
  {
    r := es;
    for i := 0 to |others|
      invariant r == map e | e in es ::
                  if e in Elements(others[..i]) then es[e].(observers := es[e].observers + {eid}) else es[e]
    {
      var o := others[i];
      assert o in Elements(others);
      assert Elements(others[..i + 1]) == Elements(others[..i]) + {o};
      r := r[o := r[o].(observers := r[o].observers + {eid})];
    }
    assert others[..|others|] == others;
  }

  /** Removes eid from the observers of every listed entity that still exists. */
  method Unregister(es: Entities, eid: int, others: seq<int>) returns (r: Entities)
    ensures r == map e | e in es ::
              if e in Elements(others) then es[e].(observers := es[e].observers - {eid}) else es[e]
  {
    r := es;
    for i := 0 to |others|
      invariant r == map e | e in es ::
                  if e in Elements(others[..i]) then es[e].(observers := es[e].observers - {eid}) else es[e]
    {
      var o := others[i];
      assert Elements(others[..i + 1]) == Elements(others[..i]) + {o};
      ghost var before := r;
      if o in r {
        r := r[o := r[o].(observers := r[o].observers - {eid})];
      }
      forall e | e in es
        ensures r[e] == if e in Elements(others[..i + 1]) then es[e].(observers := es[e].observers - {eid}) else es[e]
      {
        assert e != o ==> r[e] == before[e];
      }
    }
    assert others[..|others|] == others;
  }

  /** Notifications that tell a change of interests: at most one batch of just those that have come into sight, then at
      most one of just those that have gone, neither empty, every id once. */
  ghost predicate Tells(ns: seq<TriggerNotify>, before: set<int>, after: set<int>) {
    && (forall k :: 0 <= k < |ns| ==> ns[k].entities != [] && NoDuplicates(ns[k].entities))
    && (forall k :: 0 <= k < |ns| ==>
          Elements(ns[k].entities) == if ns[k].isAdd then after - before else before - after)
    && (forall k, l :: 0 <= k < l < |ns| ==> ns[k].isAdd && !ns[l].isAdd)
    && Replay(before, ns) == after
  }

  /** What the worker has done to an entity: new interests, and notifications that tell the change. */
  ghost predicate Refreshed(before: AOIEntity, after: AOIEntity, interests: set<int>) {
    && SamePlace(before, after) && after.interests == interests
    && before.notifies <= after.notifies
    && Tells(after.notifies[|before.notifies|..], before.interests, interests)
    && (interests == before.interests ==> after.notifies == before.notifies)
  }

  /** One entity of the worker's loop, `found` being what its circle query returned. */
  method UpdateOne(es: Entities, eid: int, found: seq<int>) returns (r: Entities)
    requires eid in es && Elements(found) <= es.Keys && Dual(es)
    ensures r.Keys == es.Keys && Dual(r)
    ensures Refreshed(es[eid], r[eid], Elements(found) - {eid}) && r[eid].observers == es[eid].observers
    ensures forall e :: e in es && e != eid ==> r[e] == es[e].(observers := r[e].observers)
    ensures forall e :: e in es && e != eid ==> r[e].observers <= es[e].observers + {eid}
  {
    var entity := es[eid];
    var interests := Elements(found) - {eid};
    var add := CalcSetAdd(entity.interests, interests);
    var del := CalcSetDel(entity.interests, interests);
    var notifies := entity.notifies;
    if |add| > 0 {
      notifies := notifies + [TriggerNotify(true, add)];
    }
    if |del| > 0 {
      notifies := notifies + [TriggerNotify(false, del)];
    }
    NotificationsExplain(entity, interests, add, del, notifies);
    hide Replay, Elements, Dual;
    r := es[eid := entity.(notifies := notifies)];
    assert r.Keys == es.Keys;
    r := Register(r, eid, add);
    r := Unregister(r, eid, del);
    r := r[eid := r[eid].(interests := interests)];
    OneKeepsDual(es, r, eid, interests);
  }

  /** Registering with the new and unregistering from the lost interests keeps the two sides dual. */
  lemma OneKeepsDual(es: Entities, r: Entities, eid: int, interests: set<int>)
    requires Dual(es) && r.Keys == es.Keys && eid in es && r[eid].interests == interests <= es.Keys - {eid}
    requires forall e :: e in es && e != eid ==> r[e].interests == es[e].interests
    requires forall e :: e in es ==>
               r[e].observers == if e in interests - es[eid].interests then es[e].observers + {eid}
                                 else if e in es[eid].interests - interests then es[e].observers - {eid}
                                 else es[e].observers
    ensures Dual(r)
  {
  }

  lemma NotificationsExplain(entity: AOIEntity, interests: set<int>, add: seq<int>, del: seq<int>,
                             notifies: seq<TriggerNotify>)
    requires Elements(add) == interests - entity.interests && Elements(del) == entity.interests - interests
    requires NoDuplicates(add) && NoDuplicates(del)
    requires notifies == entity.notifies + (if |add| > 0 then [TriggerNotify(true, add)] else [])
                                         + (if |del| > 0 then [TriggerNotify(false, del)] else [])
    ensures entity.notifies <= notifies && Tells(notifies[|entity.notifies|..], entity.interests, interests)
    ensures interests == entity.interests ==> notifies == entity.notifies
  {
    var a := if |add| > 0 then [TriggerNotify(true, add)] else [];
    var d := if |del| > 0 then [TriggerNotify(false, del)] else [];
    assert notifies[|entity.notifies|..] == a + d;
    assert |add| > 0 ==> add[0] in Elements(add);
    assert |del| > 0 ==> del[0] in Elements(del);
    TwoBatches(entity.interests, add, del);
    hide Replay, NoDuplicates;
  }

  lemma TwoBatches(s: set<int>, add: seq<int>, del: seq<int>)
    ensures Replay(s, (if |add| > 0 then [TriggerNotify(true, add)] else [])
                      + (if |del| > 0 then [TriggerNotify(false, del)] else [])) == s + Elements(add) - Elements(del)
  {
    hide Replay;
    var a := if |add| > 0 then [TriggerNotify(true, add)] else [];
    var d := if |del| > 0 then [TriggerNotify(false, del)] else [];
    OneBatch(s, true, add);
    OneBatch(s + Elements(add), false, del);
    ReplayConcat(s, a, d);
  }

  lemma OneBatch(s: set<int>, isAdd: bool, ids: seq<int>)
    ensures Replay(s, if |ids| > 0 then [TriggerNotify(isAdd, ids)] else [])
         == if isAdd then s + Elements(ids) else s - Elements(ids)
  {
    ReplayOne(s, TriggerNotify(isAdd, ids));
  }

  /** How far the worker's loop has come. */
  ghost predicate Halfway(es: Entities, r: Entities, hits: map<int, seq<int>>, todo: set<int>)
    requires hits.Keys == es.Keys
  {
    && todo <= es.Keys && r.Keys == es.Keys
    && (forall e :: e in es && e !in todo ==> Refreshed(es[e], r[e], Elements(hits[e]) - {e}))
    && (forall e :: e in todo ==> r[e] == es[e].(observers := r[e].observers))
    && (forall e :: e in es ==> r[e].observers <= es[e].observers + es.Keys)
  }

  lemma HalfwayStep(es: Entities, r: Entities, r': Entities, hits: map<int, seq<int>>, todo: set<int>, eid: int)
    requires hits.Keys == es.Keys && Halfway(es, r, hits, todo) && eid in todo && r'.Keys == es.Keys
    requires Refreshed(r[eid], r'[eid], Elements(hits[eid]) - {eid}) && r'[eid].observers == r[eid].observers
    requires forall e :: e in es && e != eid ==> r'[e] == r[e].(observers := r'[e].observers)
    requires forall e :: e in es && e != eid ==> r'[e].observers <= r[e].observers + {eid}
    ensures Halfway(es, r', hits, todo - {eid})
  {
    hide Replay, Elements;
    forall e | e in es && e !in todo - {eid} ensures Refreshed(es[e], r'[e], Elements(hits[e]) - {e}) {
      if e != eid { assert Refreshed(es[e], r[e], Elements(hits[e]) - {e}); }
    }
  }

  /** The worker's loop over all entities of its copy, in any order. `hits` is what the queries return;
      they run without the lock, so all that is known is that they name members of the copied cells. */
  method Update(es: Entities, hits: map<int, seq<int>>) returns (r: Entities)
    requires hits.Keys == es.Keys && Dual(es)
    requires forall e :: e in es ==> Elements(hits[e]) <= es.Keys
    ensures r.Keys == es.Keys && Dual(r)
    ensures forall e :: e in es ==> Refreshed(es[e], r[e], Elements(hits[e]) - {e})
    ensures forall e :: e in es ==> r[e].observers <= es[e].observers + es.Keys
  {
    hide Dual, Refreshed, Elements;
    r := es;
    var todo := es.Keys;
    while todo != {}
      invariant Halfway(es, r, hits, todo) && Dual(r)
      decreases |todo|
    {
      var eid := Pick(todo);
      var r' := UpdateOne(r, eid, hits[eid]);
      HalfwayStep(es, r, r', hits, todo, eid);
      r, todo := r', todo - {eid};
    }
  }

  /** The same loop when every query sees the positions of the snapshot: interests are brute force. */
  method UpdateFromSnapshot(gridSize: nat, grids: map<GridPos, set<int>>, es: Entities) returns (r: Entities)
    requires gridSize >= 1 && Indexed(gridSize, grids, es) && Dual(es)
    ensures r.Keys == es.Keys && Dual(r)
    ensures forall e :: e in es ==> Refreshed(es[e], r[e], BruteForce(es, es[e].x, es[e].y, es[e].radius) - {e})
  {
    hide Indexed;
    IndexedCells(gridSize, grids, es);
    var hits: map<int, seq<int>> := map[];
    var todo := es.Keys;
    while todo != {}
      invariant todo <= es.Keys && hits.Keys == es.Keys - todo
      invariant forall e :: e in hits ==> Elements(hits[e]) == BruteForce(es, es[e].x, es[e].y, es[e].radius)
      decreases |todo|
    {
      var eid := Pick(todo);
      var found := GetEntitiesInCircle(gridSize, grids, es, es[eid].x, es[eid].y, es[eid].radius);
      hits := hits[eid := found];
      todo := todo - {eid};
    }
    forall e | e in es ensures Elements(hits[e]) <= es.Keys {}
    r := Update(es, hits);
  }

  // ---- The protocol ----

  /** Everything delivered to e so far, then everything still pending, replayed from nothing. */
  ghost predicate ReplaysTo(delivered: seq<TriggerNotify>, e: AOIEntity) {
    Replay({}, delivered + e.notifies) == e.interests
  }

  /** The live entity against the copy the worker took of it: only place and pending notifications may
      differ, and pending ones only because they have been fetched. `sent` is what had been delivered
      when the copy was taken. */
  ghost predicate Follows(base: AOIEntity, live: AOIEntity, drained: bool, sent: seq<TriggerNotify>,
                          delivered: seq<TriggerNotify>) {
    && live.interests == base.interests && live.observers == base.observers
    && live.notifies == (if drained then [] else base.notifies)
    && delivered == (if drained then sent + base.notifies else sent)
  }

  /** The worker's result for an entity it copied. */
  ghost predicate Extends(base: AOIEntity, done: AOIEntity) {
    && base.notifies <= done.notifies
    && Tells(done.notifies[|base.notifies|..], base.interests, done.interests)
  }

  lemma ExtensionReplays(base: AOIEntity, done: AOIEntity)
    requires Extends(base, done)
    ensures base.notifies <= done.notifies
    ensures Replay(base.interests, done.notifies[|base.notifies|..]) == done.interests
  {
  }

  lemma MergedExtends(es: Entities, base: Entities, done: Entities)
    requires Ready(done, base)
    ensures forall e :: e in base && e in es ==> Extends(base[e], Merged(es, done)[e])
  {
    hide Tells;
    forall e | e in base && e in es ensures Extends(base[e], Merged(es, done)[e]) {
      assert Extends(base[e], done[e]);
    }
  }

  /** Merging the worker's result, whether or not its old notifications were fetched meanwhile. */
  lemma MergeReplays(base: AOIEntity, live: AOIEntity, done: AOIEntity, drained: bool, sent: seq<TriggerNotify>,
                     delivered: seq<TriggerNotify>)
    requires Follows(base, live, drained, sent, delivered) && Extends(base, done) && ReplaysTo(delivered, live)
    ensures Replay({}, delivered + done.notifies) == done.interests
  {
    ExtensionReplays(base, done);
    hide Extends, Tells, Replay;
    var batch := base.notifies;
    var added := done.notifies[|batch|..];
    assert done.notifies == batch + added;
    if drained {
      assert delivered + live.notifies == delivered;
      Redelivered(sent, batch, added);
    } else {
      Delivered(sent, batch, added);
    }
  }

  lemma Delivered(sent: seq<TriggerNotify>, batch: seq<TriggerNotify>, added: seq<TriggerNotify>)
    ensures Replay({}, sent + (batch + added)) == Replay(Replay({}, sent + batch), added)
  {
    assert sent + (batch + added) == sent + batch + added;
    ReplayConcat({}, sent + batch, added);
  }

  lemma Redelivered(sent: seq<TriggerNotify>, batch: seq<TriggerNotify>, added: seq<TriggerNotify>)
    ensures Replay({}, sent + batch + (batch + added)) == Replay(Replay({}, sent + batch), added)
  {
    hide Replay;
    Delivered(sent + batch, batch, added);
    ReplayConcat({}, sent, batch);
    ReplayConcat({}, sent + batch, batch);
    ReplayTwice(Replay({}, sent), batch);
  }

  /** The live entities: duality, no unknown ids, and notifications that add up to the interests. */
  ghost predicate Books(es: Entities, retired: set<int>, delivered: map<int, seq<TriggerNotify>>) {
    && Dual(es) && Known(es, es.Keys + retired) && es.Keys !! retired
    && delivered.Keys == es.Keys + retired
    && (forall e :: e in es ==> ReplaysTo(delivered[e], es[e]))
  }

  /** While the worker holds copies: it missed nothing but moves, additions, deletions and fetches. */
  ghost predicate Tracking(es: Entities, retired: set<int>, sent: map<int, seq<TriggerNotify>>,
                           delivered: map<int, seq<TriggerNotify>>, base: Entities, drained: set<int>) {
    && es.Keys + base.Keys <= delivered.Keys && base.Keys <= es.Keys + retired && base.Keys <= sent.Keys && Dual(base)
    && (forall e :: e in base && e in es ==> Follows(base[e], es[e], e in drained, sent[e], delivered[e]))
    && (forall e :: e in es && e !in base ==> es[e].interests == {} && es[e].observers == {})
  }

  /** The worker's result is complete. */
  ghost predicate Ready(done: Entities, base: Entities) {
    && done.Keys == base.Keys && Dual(done)
    && (forall e :: e in base ==> Extends(base[e], done[e]))
    && (forall e :: e in base ==> done[e].interests <= base.Keys && done[e].observers <= base[e].observers + base.Keys)
  }

  /** No live entity lists the id. */
  ghost predicate Unmentioned(es: Entities, eid: int) {
    forall x :: x in es ==> eid !in es[x].interests && eid !in es[x].observers
  }

  /** A new entity keeps the books exactly when nobody lists its id, left over from an entity deleted before. */
  lemma AddKeepsBooks(es: Entities, retired: set<int>, delivered: map<int, seq<TriggerNotify>>, e: AOIEntity)
    requires Books(es, retired, delivered) && e.eid !in es
    requires e.interests == {} && e.observers == {} && e.notifies == []
    ensures Books(es[e.eid := e], retired - {e.eid}, delivered[e.eid := []]) <==> Unmentioned(es, e.eid)
    ensures Dual(es[e.eid := e]) <==> Unmentioned(es, e.eid)
    ensures e.eid !in retired ==> Unmentioned(es, e.eid)
  {
    assert ReplaysTo([], e);
    hide ReplaysTo;
    var es', id := es[e.eid := e], e.eid;
    if x :| x in es && (id in es[x].interests || id in es[x].observers) {
      assert x in es' && id in es' && es'[x] == es[x];
    }
  }

  lemma AddKeepsTracking(es: Entities, retired: set<int>, sent: map<int, seq<TriggerNotify>>,
                         delivered: map<int, seq<TriggerNotify>>, base: Entities, drained: set<int>, e: AOIEntity)
    requires Tracking(es, retired, sent, delivered, base, drained) && e.eid !in es && e.eid !in base
    requires e.interests == {} && e.observers == {} && e.notifies == []
    ensures Tracking(es[e.eid := e], retired - {e.eid}, sent, delivered[e.eid := []], base, drained)
  {
    hide Dual, Follows;
  }

  lemma MoveKeepsBooks(es: Entities, retired: set<int>, sent: map<int, seq<TriggerNotify>>,
      delivered: map<int, seq<TriggerNotify>>, base: Entities, drained: set<int>, eid: int, e: AOIEntity)
    requires Books(es, retired, delivered) && eid in es
    requires e.interests == es[eid].interests && e.observers == es[eid].observers && e.notifies == es[eid].notifies
    ensures Books(es[eid := e], retired, delivered)
    ensures Tracking(es, retired, sent, delivered, base, drained) ==>
              Tracking(es[eid := e], retired, sent, delivered, base, drained)
  {
    assert ReplaysTo(delivered[eid], es[eid]);
  }

  lemma DeleteKeepsBooks(es: Entities, retired: set<int>, delivered: map<int, seq<TriggerNotify>>, eid: int)
    requires Books(es, retired, delivered) && eid in es
    ensures Books(es - {eid}, retired + {eid}, delivered)
  {
  }

  lemma DeleteKeepsTracking(es: Entities, retired: set<int>, sent: map<int, seq<TriggerNotify>>,
                            delivered: map<int, seq<TriggerNotify>>, base: Entities, drained: set<int>, eid: int)
    requires Tracking(es, retired, sent, delivered, base, drained) && eid in es
    ensures Tracking(es - {eid}, retired + {eid}, sent, delivered, base, drained)
  {
    hide Dual, Follows;
  }

  class GridAOI {
    const gridSize: nat
    const maxViewRadius: real
    var grids: map<GridPos, set<int>>
    var entities: Entities
    var worker: Worker

    ghost var retired: set<int>                         // deleted ids, until they are used again
    ghost var delivered: map<int, seq<TriggerNotify>>   // fetched so far, per id
    ghost var base: Entities                            // what the worker copied
    ghost var sent: map<int, seq<TriggerNotify>>        // fetched when the worker copied
    ghost var drained: set<int>                         // fetched since the worker copied

    ghost predicate Valid()
      reads this
    {
      && gridSize >= 1 && Indexed(gridSize, grids, entities) && Books(entities, retired, delivered)
      && (!worker.Idle? ==> Tracking(entities, retired, sent, delivered, base, drained))
      && (worker.Snapshot? ==> worker.entities == base && Indexed(gridSize, worker.grids, base))
      && (worker.Computed? ==> Ready(worker.entities, base))
    }

    constructor (gridSize: nat)
      requires gridSize >= 1
      ensures Valid() && entities == map[] && worker == Idle && retired == {}
      ensures this.gridSize == gridSize && maxViewRadius == 1.5 * gridSize as real
    {
      this.gridSize := gridSize;
      maxViewRadius := gridSize as real * 3.0 * 0.5;
      grids, entities, worker := map[], map[], Idle;
      retired, sent, delivered, base, drained := {}, map[], map[], map[], {};
    }

    /** Puts an id into a cell, creating the cell when it is missing. */
    method EnterCell(pos: GridPos, eid: int)
      modifies this`grids
      ensures grids == Entered(old(grids), pos, eid)
    {
      if pos !in grids {
        grids := grids[pos := {}];
      }
      grids := grids[pos := grids[pos] + {eid}];
    }

    /** No live entity lists the id, and the worker is not about to merge an older entity of that id. */
    ghost predicate Usable(eid: int)
      reads this
    {
      Unmentioned(entities, eid) && (worker.Idle? || eid !in base)
    }

    /** -1 for an id that is present; otherwise a fresh entity with nothing seen and nobody watching. An id that has
        never been used is always usable; one that has been deleted while somebody still lists it breaks the duality. */
    method AddEntity(eid: int, x: real, y: real, radius: real) returns (result: int)
      requires Valid()
      modifies this`entities, this`grids, this`delivered, this`retired
      ensures eid in old(entities) || old(Usable(eid)) ==> Valid()
      ensures eid !in old(entities) && eid !in old(retired) ==> old(Usable(eid))
      ensures eid !in old(entities) ==> (Dual(entities) <==> old(Unmentioned(entities, eid)))
      ensures result == (if eid in old(entities) then -1 else 0)
      ensures eid in old(entities) ==> entities == old(entities) && grids == old(grids) && delivered == old(delivered)
                                       && retired == old(retired)
      ensures eid !in old(entities) ==>
                && retired == old(retired) - {eid}
                && entities == old(entities)[eid := AOIEntity(eid, x, y,
                    if radius > maxViewRadius then maxViewRadius else radius, {}, {}, [])]
                && delivered == old(delivered)[eid := []]
    {
      if eid in entities {
        return -1;
      }
      var r := radius;
      if r > maxViewRadius {
        r := maxViewRadius;
      }
      Insert(AOIEntity(eid, x, y, r, {}, {}, []));
      result := 0;
    }

    /** Enters a new entity into the table and its cell. */
    method Insert(e: AOIEntity)
      requires Valid() && e.eid !in entities
      requires e.interests == {} && e.observers == {} && e.notifies == []
      modifies this`entities, this`grids, this`delivered, this`retired
      ensures old(Usable(e.eid)) ==> Valid()
      ensures e.eid !in old(retired) ==> old(Usable(e.eid))
      ensures Dual(entities) <==> old(Unmentioned(entities, e.eid))
      ensures entities == old(entities)[e.eid := e] && delivered == old(delivered)[e.eid := []]
      ensures retired == old(retired) - {e.eid}
    {
      TrackedKeys(entities, retired, sent, delivered, base, drained);
      hide Indexed, Books, Tracking, Ready, CalcGridPos, Dual, Unmentioned;
      AddKeepsIndex(gridSize, grids, entities, e);
      AddKeepsBooks(entities, retired, delivered, e);
      if !worker.Idle? && e.eid !in base {
        AddKeepsTracking(entities, retired, sent, delivered, base, drained, e);
      }
      Store(e);
    }

    method Store(e: AOIEntity)
      requires gridSize >= 1
      modifies this`entities, this`grids, this`delivered, this`retired
      ensures entities == old(entities)[e.eid := e] && delivered == old(delivered)[e.eid := []]
      ensures grids == Entered(old(grids), CalcGridPos(gridSize, e.x, e.y), e.eid) && retired == old(retired) - {e.eid}
    {
      entities := entities[e.eid := e];
      EnterCell(CalcGridPos(gridSize, e.x, e.y), e.eid);
      delivered, retired := delivered[e.eid := []], retired - {e.eid};
    }

    /** Moves an entity, from cell to cell when it crosses a border; an unknown id is ignored. */
    method UpdateEntity(eid: int, x: real, y: real)
      requires Valid()
      modifies this`entities, this`grids
      ensures Valid()
      ensures entities == if eid in old(entities) then old(entities)[eid := old(entities)[eid].(x := x, y := y)]
              else old(entities)
    {
      if eid !in entities {
        return;
      }
      hide Indexed, Books, Tracking, Ready, CalcGridPos;
      MoveKeepsIndex(gridSize, grids, entities, eid, x, y);
      MoveKeepsBooks(entities, retired, sent, delivered, base, drained, eid, entities[eid].(x := x, y := y));
      var entity := entities[eid];
      var oldPos := CalcGridPos(gridSize, entity.x, entity.y);
      var newPos := CalcGridPos(gridSize, x, y);
      ghost var cells := if oldPos == newPos then grids else Left(Entered(grids, newPos, eid), oldPos, eid);
      if oldPos != newPos {
        EnterCell(newPos, eid);
        if oldPos in grids {
          grids := grids[oldPos := grids[oldPos] - {eid}];
        }
      }
      assert grids == cells;
      entities := entities[eid := entity.(x := x, y := y)];
    }

    /** Removes an entity while the worker is not computing. */
    method DelEntity(eid: int)
      requires Valid() && !worker.Snapshot?
      modifies this`entities, this`grids, this`retired
      ensures Valid() && entities == old(entities) - {eid}
      ensures retired == if eid in old(entities) then old(retired) + {eid} else old(retired)
    {
      if eid in entities {
        hide Indexed, Books, CalcGridPos, Tracking, Ready;
        DeleteKeepsIndex(gridSize, grids, entities, eid);
        if worker.Computed? { DeleteKeepsTracking(entities, retired, sent, delivered, base, drained, eid); }
        DeleteKeepsBooks(entities, retired, delivered, eid);
        var pos := CalcGridPos(gridSize, entities[eid].x, entities[eid].y);
        if pos in grids {
          grids := grids[pos := grids[pos] - {eid}];
        }
        entities := entities - {eid};
        retired := retired + {eid};
      }
    }

    /** The public circle query: exactly the distance filter over all live entities, each once. */
    method EntitiesInCircle(x: real, y: real, radius: real) returns (r: seq<int>)
      requires Valid()
      ensures Elements(r) == BruteForce(entities, x, y, radius)
      ensures forall i, j :: 0 <= i < j < |r| ==> r[i] != r[j]
    {
      hide Books, Tracking, Ready;
      IndexedCells(gridSize, grids, entities);
      r := GetEntitiesInCircle(gridSize, grids, entities, x, y, radius);
    }

    /** Hands every entity's interests and pending notifications to the caller and empties the latter.
        At any moment of the worker's cycle, replaying all that was ever delivered for an entity gives
        exactly the interests handed over. */
    method FetchState() returns (result: seq<AOIState>)
      requires Valid()
      modifies this`entities, this`delivered, this`drained
      ensures Valid() && Drained(old(entities), entities, old(delivered), delivered, {})
      ensures Covers(result, old(entities), old(delivered), {}) && drained == old(drained) + old(entities).Keys
    {
      hide Indexed, Books, Tracking, Ready, Replay, Elements, Drained, Covers;
      result := [];
      var todo := entities.Keys;
      ghost var start, before, earlier := entities, delivered, drained;
      NothingDrained(entities, retired, delivered);
      while todo != {}
        invariant Valid() && todo <= entities.Keys
        invariant Drained(start, entities, before, delivered, todo) && Covers(result, start, before, todo)
        invariant todo <= start.Keys && drained == earlier + (start.Keys - todo)
        decreases |todo|
      {
        var eid := Pick(todo);
        label Before:
        var state := DrainOne(eid);
        DrainedStep(start, old@Before(entities), before, old@Before(delivered), todo, eid);
        CoversStep(result, start, before, todo, state, old@Before(entities), old@Before(delivered));
        result := result + [state];
        todo := todo - {eid};
      }
    }

    /** The worker copies cells and entities under the lock. */
    method TakeSnapshot()
      requires Valid() && worker.Idle?
      modifies this`worker, this`base, this`sent, this`drained
      ensures Valid() && worker == Snapshot(grids, entities) && base == entities && sent == delivered && drained == {}
    {
      hide Indexed;
      worker := Snapshot(grids, entities);
      base, sent, drained := entities, delivered, {};
    }

    /** The worker recomputes its copy, unlocked. `hits` is what its queries return: they read live
        positions while those may change, so only that they name members of the copied cells is known. */
    method Compute(hits: map<int, seq<int>>)
      requires Valid() && worker.Snapshot? && hits.Keys == worker.entities.Keys
      requires forall e, x :: e in hits && x in hits[e] ==> exists pos :: pos in worker.grids && x in worker.grids[pos]
      modifies this`worker
      ensures Valid() && worker.Computed? && worker.entities.Keys == base.Keys && Dual(worker.entities)
      ensures forall e :: e in base ==> Refreshed(base[e], worker.entities[e], Elements(hits[e]) - {e})
    {
      HitsAreCopied(gridSize, worker.grids, worker.entities, hits);
      TrackedBase(entities, retired, sent, delivered, base, drained);
      hide Indexed, Books, Dual, Elements, Replay, Tracking, Known, Ready, Refreshed;
      var es := Update(worker.entities, hits);
      UpdatedIsReady(base, es, hits);
      worker := Computed(es);
    }

    /** The worker swaps its results in under the lock; moves, additions and fetches that happened
        meanwhile are kept. */
    method Merge()
      requires Valid() && worker.Computed?
      modifies this`entities, this`worker
      ensures Valid() && worker.Idle? && entities == Merged(old(entities), old(worker.entities))
      ensures OnceUnlessFetched(entities, sent, delivered, base, drained, old(worker.entities))
      ensures forall e :: e in base && e in entities ==> Extends(base[e], entities[e])
    {
      hide Indexed, Books, Dual, Known, Tracking, Ready, OnceUnlessFetched, Extends;
      MergedExtends(entities, base, worker.entities);
      ExactlyOnceIff(entities, retired, sent, delivered, base, drained, worker.entities);
      MergeKeepsIndex(gridSize, grids, entities, worker.entities);
      MergeKeepsBooks(entities, retired, sent, delivered, base, drained, worker.entities);
      SwapIn(worker.entities);
      worker := Idle;
    }

    /** Swaps the worker's sets and notifications into every entity that is still there. */
    method SwapIn(done: Entities)
      modifies this`entities
      ensures entities == Merged(old(entities), done)
    {
      var todo := done.Keys;
      ghost var start := entities;
      while todo != {}
        invariant todo <= done.Keys
        invariant entities == map e | e in start :: if e in done
                  && e !in todo then Swapped(start[e], done[e]) else start[e]
        decreases |todo|
      {
        var eid := Pick(todo);
        if eid in entities {
          entities := entities[eid := Swapped(entities[eid], done[eid])];
        }
        todo := todo - {eid};
      }
      assert entities == Merged(start, done);
    }

    /** The state of one entity; its pending notifications move over to the caller. */
    method DrainOne(eid: int) returns (state: AOIState)
      requires Valid() && eid in entities
      modifies this`entities, this`delivered, this`drained
      ensures Valid() && eid in old(delivered) && drained == old(drained) + {eid}
      ensures entities == old(entities)[eid := old(entities)[eid].(notifies := [])]
      ensures delivered == old(delivered)[eid := old(delivered)[eid] + old(entities)[eid].notifies]
      ensures state.eid == eid && state.notifies == old(entities)[eid].notifies
      ensures Elements(state.interests) == entities[eid].interests == Replay({}, delivered[eid])
    {
      hide Indexed, Books, Tracking, Ready;
      BooksKeys(entities, retired, delivered);
      DrainKeepsIndex(gridSize, grids, entities, eid);
      DrainKeepsBooks(entities, retired, delivered, eid);
      if !worker.Idle? { DrainKeepsTracking(entities, retired, sent, delivered, base, drained, eid); }
      var interests := SetToSeq(entities[eid].interests);
      state := AOIState(eid, interests, entities[eid].notifies);
      delivered := delivered[eid := delivered[eid] + entities[eid].notifies];
      entities := entities[eid := entities[eid].(notifies := [])];
      drained := drained + {eid};
    }
  }

  lemma TrackedBase(es: Entities, retired: set<int>, sent: map<int, seq<TriggerNotify>>,
                    delivered: map<int, seq<TriggerNotify>>, base: Entities, drained: set<int>)
    requires Tracking(es, retired, sent, delivered, base, drained)
    ensures Dual(base)
  {
  }

  lemma TrackedKeys(es: Entities, retired: set<int>, sent: map<int, seq<TriggerNotify>>,
                    delivered: map<int, seq<TriggerNotify>>, base: Entities, drained: set<int>)
    ensures Tracking(es, retired, sent, delivered, base, drained) ==> base.Keys <= es.Keys + retired
  {
  }

  lemma UpdatedIsReady(base: Entities, es: Entities, hits: map<int, seq<int>>)
    requires hits.Keys == base.Keys == es.Keys && Dual(es)
    requires forall e :: e in base ==> Elements(hits[e]) <= base.Keys
    requires forall e :: e in base ==> Refreshed(base[e], es[e], Elements(hits[e]) - {e})
    requires forall e :: e in base ==> es[e].observers <= base[e].observers + base.Keys
    ensures Ready(es, base)
  {
    hide Dual, Elements, Replay;
  }

  /** Every member of the copied cells is in the copied entities, so looking up a hit never inserts. */
  lemma HitsAreCopied(gridSize: nat, grids: map<GridPos, set<int>>, es: Entities, hits: map<int, seq<int>>)
    requires gridSize >= 1 && Indexed(gridSize, grids, es)
    requires forall e, x :: e in hits && x in hits[e] ==> exists pos :: pos in grids && x in grids[pos]
    ensures forall e :: e in hits ==> Elements(hits[e]) <= es.Keys
  {
    IndexedCells(gridSize, grids, es);
    forall e, x | e in hits && x in hits[e] ensures x in es {
      var pos :| pos in grids && x in grids[pos];
    }
  }

  /** Swapping the worker's sets and notifications in, for the entities that still exist. */
  function Swapped(live: AOIEntity, done: AOIEntity): AOIEntity {
    live.(interests := done.interests, observers := done.observers, notifies := done.notifies)
  }

  ghost function Merged(es: Entities, done: Entities): Entities {
    map e | e in es :: if e in done then Swapped(es[e], done[e]) else es[e]
  }

  lemma MergeKeepsIndex(gridSize: nat, grids: map<GridPos, set<int>>, es: Entities, done: Entities)
    requires gridSize >= 1 && Indexed(gridSize, grids, es)
    ensures Indexed(gridSize, grids, Merged(es, done))
  {
    hide CalcGridPos;
  }

  /** Merging restores duality for everything alive, also for what was added meanwhile, and keeps every
      client's replay equal to the interests. */
  lemma MergeKeepsBooks(es: Entities, retired: set<int>, sent: map<int, seq<TriggerNotify>>,
                        delivered: map<int, seq<TriggerNotify>>, base: Entities, drained: set<int>, done: Entities)
    requires Books(es, retired, delivered) && Tracking(es, retired, sent, delivered, base, drained)
             && Ready(done, base)
    ensures Books(Merged(es, done), retired, delivered)
  {
    var m := Merged(es, done);
    MergeKeepsDual(es, retired, sent, delivered, base, drained, done);
    MergeKeepsKnown(es, retired, sent, delivered, base, drained, done);
    hide Replay, Follows, Extends, Dual, Known;
    assert m.Keys == es.Keys;
    forall e | e in m ensures ReplaysTo(delivered[e], m[e]) {
      assert ReplaysTo(delivered[e], es[e]);
      if e in base {
        assert Extends(base[e], done[e]);
        MergeReplays(base[e], es[e], done[e], e in drained, sent[e], delivered[e]);
      }
    }
  }

  /** Old and new sets never meet: an entity added meanwhile sees nobody and is seen by nobody. */
  lemma MergeKeepsDual(es: Entities, retired: set<int>, sent: map<int, seq<TriggerNotify>>,
                       delivered: map<int, seq<TriggerNotify>>, base: Entities, drained: set<int>, done: Entities)
    requires Books(es, retired, delivered) && Tracking(es, retired, sent, delivered, base, drained)
             && Ready(done, base)
    ensures Dual(Merged(es, done))
  {
    hide Replay, Extends;
    var m := Merged(es, done);
    forall a, b | a in m && b in m ensures b in m[a].interests <==> a in m[b].observers {
      assert b in es[a].interests <==> a in es[b].observers;
      if a in base { assert Follows(base[a], es[a], a in drained, sent[a], delivered[a]); }
      if b in base { assert Follows(base[b], es[b], b in drained, sent[b], delivered[b]); }
    }
  }

  lemma MergeKeepsKnown(es: Entities, retired: set<int>, sent: map<int, seq<TriggerNotify>>,
                        delivered: map<int, seq<TriggerNotify>>, base: Entities, drained: set<int>, done: Entities)
    requires Books(es, retired, delivered) && Tracking(es, retired, sent, delivered, base, drained)
             && Ready(done, base)
    ensures Known(Merged(es, done), es.Keys + retired)
  {
    hide Replay, Dual, Extends;
    forall e | e in es && e in base ensures done[e].observers <= es.Keys + retired {
      assert Follows(base[e], es[e], e in drained, sent[e], delivered[e]);
    }
  }

  /** Exactly-once delivery. What clients should get is what had been sent when the worker took its copy, and then
      the worker's notifications. A merge keeps to that exactly for the entities that were not fetched since, or
      had nothing to fetch; for the others just the fetched batch comes again. */
  ghost predicate OnceUnlessFetched(merged: Entities, sent: map<int, seq<TriggerNotify>>,
                                    delivered: map<int, seq<TriggerNotify>>,
                                    base: Entities, drained: set<int>, done: Entities) {
    && base.Keys == done.Keys && base.Keys <= sent.Keys && base.Keys <= delivered.Keys
    && forall e :: e in base && e in merged ==>
         var wanted, got := sent[e] + done[e].notifies, delivered[e] + merged[e].notifies;
         && (got == wanted <==> e !in drained || base[e].notifies == [])
         && (e in drained ==> got == sent[e] + base[e].notifies + done[e].notifies)
  }

  lemma ExactlyOnceIff(es: Entities, retired: set<int>, sent: map<int, seq<TriggerNotify>>,
                       delivered: map<int, seq<TriggerNotify>>,
                       base: Entities, drained: set<int>, done: Entities)
    requires Tracking(es, retired, sent, delivered, base, drained) && Ready(done, base)
    ensures OnceUnlessFetched(Merged(es, done), sent, delivered, base, drained, done)
  {
    hide Replay, Dual, Known, Follows, Extends;
    forall e | e in base && e in es
      ensures var wanted, got := sent[e] + done[e].notifies, delivered[e] + done[e].notifies;
              && (got == wanted <==> e !in drained || base[e].notifies == [])
              && (e in drained ==> got == sent[e] + base[e].notifies + done[e].notifies)
    {
      OneOnceIff(base[e], es[e], done[e].notifies, e in drained, sent[e], delivered[e]);
    }
  }

  lemma OneOnceIff(base: AOIEntity, live: AOIEntity, notifies: seq<TriggerNotify>, drained: bool,
                   sent: seq<TriggerNotify>, delivered: seq<TriggerNotify>)
    requires Follows(base, live, drained, sent, delivered)
    ensures delivered + notifies == sent + notifies <==> !drained || base.notifies == []
    ensures drained ==> delivered + notifies == sent + base.notifies + notifies
  {
    if drained && base.notifies != [] {
      assert |delivered + notifies| > |sent + notifies|;
    }
    assert sent + [] == sent;
  }

  /** Everything outside `todo` has been handed over. */
  ghost predicate Drained(start: Entities, es: Entities, sent: map<int, seq<TriggerNotify>>,
                          delivered: map<int, seq<TriggerNotify>>, todo: set<int>) {
    && es.Keys == start.Keys <= sent.Keys == delivered.Keys
    && (forall e :: e in start ==> es[e] == if e in todo then start[e] else start[e].(notifies := []))
    && (forall e :: e in sent ==> delivered[e] == if e in start
        && e !in todo then sent[e] + start[e].notifies else sent[e])
  }

  lemma BooksKeys(es: Entities, retired: set<int>, delivered: map<int, seq<TriggerNotify>>)
    requires Books(es, retired, delivered)
    ensures delivered.Keys == es.Keys + retired
  {
  }

  lemma NothingDrained(es: Entities, retired: set<int>, delivered: map<int, seq<TriggerNotify>>)
    requires Books(es, retired, delivered)
    ensures Drained(es, es, delivered, delivered, es.Keys) && Covers([], es, delivered, es.Keys)
  {
  }

  lemma DrainedStep(start: Entities, es: Entities, sent: map<int, seq<TriggerNotify>>,
                    delivered: map<int, seq<TriggerNotify>>, todo: set<int>, eid: int)
    requires Drained(start, es, sent, delivered, todo) && eid in todo && eid in es
    ensures Drained(start, es[eid := es[eid].(notifies := [])], sent,
                    delivered[eid := delivered[eid] + es[eid].notifies], todo - {eid})
  {
  }

  /** One state for each entity outside `todo`, and what it says: replaying all that has been delivered,
      this batch included, gives exactly the interests handed over. */
  ghost predicate Covers(result: seq<AOIState>, start: Entities, sent: map<int, seq<TriggerNotify>>, todo: set<int>) {
    && (forall e :: e in start && e !in todo ==> exists i :: 0 <= i < |result| && result[i].eid == e)
    && (forall i, j :: 0 <= i < j < |result| ==> result[i].eid != result[j].eid)
    && (forall i :: 0 <= i < |result| ==>
          var s := result[i];
          && s.eid in start && s.eid !in todo && s.eid in sent && s.notifies == start[s.eid].notifies
          && Elements(s.interests) == start[s.eid].interests == Replay({}, sent[s.eid] + s.notifies))
  }

  lemma CoversStep(result: seq<AOIState>, start: Entities, sent: map<int, seq<TriggerNotify>>, todo: set<int>,
                   s: AOIState,
                   es: Entities, delivered: map<int, seq<TriggerNotify>>)
    requires Covers(result, start, sent, todo) && s.eid in todo && Drained(start, es, sent, delivered, todo)
             && s.eid in es
    requires s.notifies == es[s.eid].notifies
    requires Elements(s.interests) == es[s.eid].interests == Replay({}, delivered[s.eid] + s.notifies)
    ensures Covers(result + [s], start, sent, todo - {s.eid})
  {
    hide Replay, Elements;
    var r := result + [s];
    forall e | e in start && e !in todo - {s.eid} ensures exists i :: 0 <= i < |r| && r[i].eid == e {
      if e == s.eid {
        assert r[|result|].eid == e;
      } else {
        var i :| 0 <= i < |result| && result[i].eid == e;
        assert r[i].eid == e;
      }
    }
  }

  lemma DrainKeepsIndex(gridSize: nat, grids: map<GridPos, set<int>>, es: Entities, eid: int)
    requires gridSize >= 1 && Indexed(gridSize, grids, es) && eid in es
    ensures Indexed(gridSize, grids, es[eid := es[eid].(notifies := [])])
  {
    hide CalcGridPos;
  }

  lemma DrainKeepsBooks(es: Entities, retired: set<int>, delivered: map<int, seq<TriggerNotify>>, eid: int)
    requires Books(es, retired, delivered) && eid in es
    ensures Books(es[eid := es[eid].(notifies := [])], retired, delivered[eid := delivered[eid] + es[eid].notifies])
    ensures Replay({}, delivered[eid] + es[eid].notifies) == es[eid].interests
  {
    var sent := delivered[eid] + es[eid].notifies;
    assert sent + [] == sent;
    assert ReplaysTo(delivered[eid], es[eid]);
  }

  lemma DrainKeepsTracking(es: Entities, retired: set<int>, sent: map<int, seq<TriggerNotify>>,
                           delivered: map<int, seq<TriggerNotify>>, base: Entities, drained: set<int>, eid: int)
    requires Tracking(es, retired, sent, delivered, base, drained) && eid in es
    ensures Tracking(es[eid := es[eid].(notifies := [])], retired, sent,
                     delivered[eid := delivered[eid] + es[eid].notifies], base, drained + {eid})
  {
    if eid in base {
      assert Follows(base[eid], es[eid], eid in drained, sent[eid], delivered[eid]);
      assert eid in drained ==> delivered[eid] + es[eid].notifies == delivered[eid];
    }
  }

  lemma HitsInCells(gridSize: nat, grids: map<GridPos, set<int>>, es: Entities, hits: map<int, seq<int>>)
    requires gridSize >= 1 && Indexed(gridSize, grids, es) && forall e, x :: e in hits && x in hits[e] ==> x in es
    ensures forall e, x :: e in hits && x in hits[e] ==> exists pos :: pos in grids && x in grids[pos]
  {
    hide CalcGridPos;
    forall e, x | e in hits && x in hits[e] ensures exists pos :: pos in grids && x in grids[pos] {
      var pos := CalcGridPos(gridSize, es[x].x, es[x].y);
      assert pos in grids && x in grids[pos];
    }
  }

  lemma NewInterestsAreNews(before: AOIEntity, after: AOIEntity, interests: set<int>)
    requires Refreshed(before, after, interests) && interests != before.interests
    ensures after.notifies != before.notifies
  {
    var added := after.notifies[|before.notifies|..];
    assert |after.notifies| == |before.notifies| + |added|;
    assert Replay(before.interests, []) == before.interests;
  }

  lemma StateOf(result: seq<AOIState>, start: Entities, sent: map<int, seq<TriggerNotify>>, e: int) returns (i: nat)
    requires Covers(result, start, sent, {}) && e in start
    ensures i < |result| && result[i].eid == e && result[i].notifies == start[e].notifies
  {
    hide Replay, Elements;
    i :| 0 <= i < |result| && result[i].eid == e;
  }

  lemma DeliveredTo(start: Entities, es: Entities, sent: map<int, seq<TriggerNotify>>,
                    delivered: map<int, seq<TriggerNotify>>, e: int)
    requires Drained(start, es, sent, delivered, {}) && e in start
    ensures es.Keys == start.Keys && e in sent && e in delivered && delivered[e] == sent[e] + start[e].notifies
  {
  }

  /** One round of the worker over two entities in each other's sight, with or without a fetch between snapshot and
      merge. */
  method RoundOfTwo(service: GridAOI, fetch: bool) returns (fetched: seq<AOIState>)
    requires service.Valid() && service.worker.Idle? && service.entities.Keys == {1, 2} && 1 in service.delivered
    modifies service
    ensures service.Valid() && service.worker.Idle? && service.entities.Keys == {1, 2} && 1 in service.delivered
    ensures service.base == old(service.entities) && service.sent == old(service.delivered)
    ensures service.drained == if fetch then {1, 2} else {}
    ensures service.delivered[1] == old(service.delivered)[1] + if fetch then service.base[1].notifies else []
    ensures service.entities[1].interests == {2}
    ensures service.base[1].interests == {2} <==> service.entities[1].notifies == service.base[1].notifies
    ensures fetch ==> exists i ::
              && 0 <= i < |fetched| && fetched[i].eid == 1
              && fetched[i].notifies == service.base[1].notifies
  {
    hide Indexed, Books, Tracking, Ready, Replay, Dual, OnceUnlessFetched, Covers, Refreshed, Drained, Extends;
    var hits := map[1 := [2], 2 := [1]];
    service.TakeSnapshot();
    HitsInCells(service.gridSize, service.worker.grids, service.base, hits);
    fetched := [];
    if fetch {
      ghost var start, before := service.entities, service.delivered;
      fetched := service.FetchState();
      ghost var i := StateOf(fetched, start, before, 1);
      DeliveredTo(start, service.entities, before, service.delivered, 1);
    }
    service.Compute(hits);
    RoundOfOne(service.base[1], service.worker.entities[1]);
    service.Merge();
  }

  lemma RoundOfOne(before: AOIEntity, after: AOIEntity)
    requires Refreshed(before, after, Elements([2]) - {1})
    ensures after.interests == {2} && (before.interests == {2} <==> after.notifies == before.notifies)
  {
    assert Elements([2]) - {1} == {2};
    if before.interests != {2} { NewInterestsAreNews(before, after, {2}); }
  }

  /** A fetch between snapshot and merge: the batch it hands out is handed out again after the merge. Since the
      snapshot the client has got it twice, and nothing else. */
  method RedeliveryExample() returns (service: GridAOI, first: seq<AOIState>, second: seq<AOIState>)
    ensures service.Valid() && service.worker.Idle?
    ensures 1 in service.base && 1 in service.sent && 1 in service.delivered
    ensures var batch := service.base[1].notifies;
            && batch != [] && service.delivered[1] == service.sent[1] + batch + batch
            && exists i, j :: 0 <= i < |first| && 0 <= j < |second| && first[i].eid == 1 == second[j].eid
                              && first[i].notifies == batch == second[j].notifies
  {
    hide Indexed, Books, Tracking, Ready, Replay, Dual, OnceUnlessFetched, Covers, Drained;
    service := new GridAOI(10);
    var r := service.AddEntity(1, 0.0, 0.0, 5.0);
    r := service.AddEntity(2, 1.0, 0.0, 5.0);
    var none := RoundOfTwo(service, false);
    first := RoundOfTwo(service, true);
    ghost var start, before := service.entities, service.delivered;
    second := service.FetchState();
    ghost var j := StateOf(second, start, before, 1);
    DeliveredTo(start, service.entities, before, service.delivered, 1);
  }

  /** An id used again while entity 1 still lists its former owner: entity 1 sees entity 2, which does not know. */
  method ReuseExample() returns (service: GridAOI)
    ensures service.entities.Keys == {1, 2} && !Dual(service.entities)
    ensures 2 in service.entities[1].interests && 1 !in service.entities[2].observers
  {
    hide Indexed, Books, Tracking, Ready, Replay, Dual, OnceUnlessFetched, Covers, Drained;
    service := new GridAOI(10);
    var r := service.AddEntity(1, 0.0, 0.0, 5.0);
    r := service.AddEntity(2, 1.0, 0.0, 5.0);
    var none := RoundOfTwo(service, false);
    service.DelEntity(2);
    r := service.AddEntity(2, 1.0, 0.0, 5.0);
  }
}
