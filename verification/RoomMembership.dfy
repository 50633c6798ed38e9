/**
 * The fold engine `RoomMembership` of crates/iroh-rooms-core/src/membership/fold.rs: events
 * arrive in any order, wait for their parents, and are classified against their own ancestors.
 * What it settles to is a function of the set of events alone.
 */
module RoomMemberships {
  import opened Prelude
  import opened Membership

  // ---------------------------------------------------------------------------
  // Settled states
  // ---------------------------------------------------------------------------

  function EventsOf(nodes: View): map<EventId, Event> {
    map id | id in nodes :: nodes[id].event
  }

  predicate Classified(nodes: View, id: EventId) {
    id in nodes && !nodes[id].verdict.Pending?
  }

  /** Every parent is present and classified. */
  predicate Ready(nodes: View, e: Event) {
    forall p <- e.parents :: Classified(nodes, p)
  }

  /** Membership-relevant parents and their memoized ancestors. */
  function AncestorsOf(nodes: View, e: Event): set<EventId> {
    (set p | p in e.parents && p in nodes && AffectsMembership(nodes[p].event.content))
    + (set p, a | p in e.parents && p in nodes && a in nodes[p].ancestors :: a)
  }

  /** The nodes an event's verdict may depend on. */
  function Restrict(nodes: View, ids: set<EventId>): View {
    map id | id in ids && id in nodes :: nodes[id]
  }

  /** A node carries the verdict and ancestors that its earlier nodes determine. */
  ghost predicate Justified(room: Room, nodes: View, earlier: seq<EventId>, id: EventId) {
    && Classified(nodes, id)
    && (forall p <- nodes[id].event.parents :: p in earlier)
    && (forall a :: a in nodes[id].ancestors ==> a in earlier)
    && nodes[id].ancestors == AncestorsOf(nodes, nodes[id].event)
    && nodes[id].verdict == Gate(room, nodes[id].event, Restrict(nodes, nodes[id].ancestors))
  }

  /** `order` lists the classified nodes so that each is justified by those before it. */
  ghost predicate Consistent(room: Room, nodes: View, order: seq<EventId>) {
    && (forall id :: Classified(nodes, id) <==> id in order)
    && (forall i, j :: 0 <= i < j < |order| ==> order[i] != order[j])
    && (forall i :: 0 <= i < |order| ==> Justified(room, nodes, order[..i], order[i]))
    && (forall id :: id in nodes && nodes[id].verdict.Pending? ==> nodes[id].ancestors == {})
  }

  /** Nothing that could be classified is left pending. */
  ghost predicate Complete(nodes: View) {
    forall id :: id in nodes && nodes[id].verdict.Pending? ==> !Ready(nodes, nodes[id].event)
  }

  /** The state the fold settles to for a set of events. */
  ghost predicate Settled(room: Room, events: map<EventId, Event>, nodes: View) {
    EventsOf(nodes) == events && Complete(nodes) && exists order :: Consistent(room, nodes, order)
  }

  // ---------------------------------------------------------------------------
  // Convergence
  // ---------------------------------------------------------------------------

  lemma SameAncestors(a: View, b: View, e: Event)
    requires forall p <- e.parents :: p in a && p in b && a[p] == b[p]
    ensures AncestorsOf(a, e) == AncestorsOf(b, e)
  {}

  lemma SameRestriction(a: View, b: View, ids: set<EventId>)
    requires forall id :: id in ids ==> id in a && id in b && a[id] == b[id]
    ensures Restrict(a, ids) == Restrict(b, ids)
  {}

  /** Two justifications of the same event agree when the nodes behind one of them agree. */
  lemma JustifiedAlike(room: Room, a: View, b: View, before: seq<EventId>, elsewhere: seq<EventId>, id: EventId)
    requires Justified(room, a, before, id) && Justified(room, b, elsewhere, id)
    requires a[id].event == b[id].event
    requires forall x <- before :: x in a && x in b && a[x] == b[x]
    ensures a[id] == b[id]
  {
    hide Gate;
    SameAncestors(a, b, a[id].event);
    SameRestriction(a, b, a[id].ancestors);
  }

  /** If everything before an event is classified alike elsewhere, so is the event. */
  lemma StepAlike(room: Room, a: View, before: seq<EventId>, b: View, other: seq<EventId>, id: EventId)
    requires Justified(room, a, before, id) && Consistent(room, b, other) && Complete(b)
    requires EventsOf(a) == EventsOf(b)
    requires forall x <- before :: Classified(a, x) && x in b && a[x] == b[x]
    ensures id in b && a[id] == b[id]
  {
    hide Gate, AncestorsOf, Restrict;
    SameEvents(a, b, id);
    ReadyElsewhere(a, b, before, a[id].event);
    assert Classified(b, id);
    var j :| 0 <= j < |other| && other[j] == id;
    JustifiedAlike(room, a, b, before, other[..j], id);
  }

  /** What one settled state has classified, any other has classified the same way. */
  lemma {:induction false} ClassifiedAlike(room: Room, a: View, order: seq<EventId>, b: View, other: seq<EventId>,
                                           n: nat)
    requires Consistent(room, a, order) && Consistent(room, b, other) && Complete(b)
    requires EventsOf(a) == EventsOf(b) && n <= |order|
    ensures forall x <- order[..n] :: Classified(a, x) && x in b && a[x] == b[x]
  {
    hide Gate, AncestorsOf, Restrict, Complete, EventsOf;
    if n > 0 {
      ClassifiedAlike(room, a, order, b, other, n - 1);
      assert order[..n] == order[..n - 1] + [order[n - 1]];
      StepAlike(room, a, order[..n - 1], b, other, order[n - 1]);
    }
  }

  lemma SameEvents(a: View, b: View, id: EventId)
    requires EventsOf(a) == EventsOf(b) && id in a
    ensures id in b && a[id].event == b[id].event
  {
    assert id in EventsOf(a);
    assert EventsOf(a)[id] == EventsOf(b)[id];
  }

  lemma ReadyElsewhere(a: View, b: View, earlier: seq<EventId>, e: Event)
    requires forall p <- e.parents :: p in earlier
    requires forall x <- earlier :: Classified(a, x) && x in b && a[x] == b[x]
    ensures Ready(b, e)
  {}

  /**
   * Convergence: a set of events settles to one state. Whatever order two peers ingested the
   * same events in, their verdicts, ancestor sets and snapshots are equal.
   */
  lemma SettledIsUnique(room: Room, events: map<EventId, Event>, a: View, b: View)
    requires Settled(room, events, a) && Settled(room, events, b)
    ensures a == b
    ensures Fold(room, a) == Fold(room, b)
  {
    hide Gate, Fold, Justified;
    var order :| Consistent(room, a, order);
    var other :| Consistent(room, b, other);
    ClassifiedAlike(room, a, order, b, other, |order|);
    ClassifiedAlike(room, b, other, a, order, |other|);
    assert order[..|order|] == order && other[..|other|] == other;
    forall id | id in a ensures id in b && a[id] == b[id] {
      SameEvents(a, b, id);
      if Classified(a, id) {
        assert id in order;
      } else if Classified(b, id) {
        assert id in other;
      }
    }
    forall id | id in b ensures id in a {
      SameEvents(b, a, id);
    }
  }

  // ---------------------------------------------------------------------------
  // What ingesting keeps
  // ---------------------------------------------------------------------------

  /** A justification survives changes to nodes it does not mention. */
  lemma JustifiedElsewhere(room: Room, a: View, b: View, before: seq<EventId>, id: EventId)
    requires Justified(room, a, before, id) && id in b && a[id] == b[id]
    requires forall x <- before :: x in a && x in b && a[x] == b[x]
    ensures Justified(room, b, before, id)
  {
    hide Gate;
    SameAncestors(a, b, a[id].event);
    SameRestriction(a, b, a[id].ancestors);
  }

  /** Changing nodes that are not classified keeps every justification. */
  lemma UnclassifiedChange(room: Room, a: View, order: seq<EventId>, b: View)
    requires Consistent(room, a, order)
    requires forall x <- order :: x in b && b[x] == a[x]
    ensures forall i :: 0 <= i < |order| ==> Justified(room, b, order[..i], order[i])
  {
    hide Gate, AncestorsOf, Restrict;
    forall i | 0 <= i < |order| ensures Justified(room, b, order[..i], order[i]) {
      assert order[i] in order;
      forall x <- order[..i] ensures x in a && x in b && a[x] == b[x] {
        assert x in order;
      }
      JustifiedElsewhere(room, a, b, order[..i], order[i]);
    }
  }

  lemma InsertKeepsConsistent(room: Room, nodes: View, order: seq<EventId>, id: EventId, e: Event)
    requires Consistent(room, nodes, order) && id !in nodes
    ensures Consistent(room, nodes[id := Node(e, Pending, {})], order)
  {
    hide Justified;
    var nodes' := nodes[id := Node(e, Pending, {})];
    forall x <- order ensures x in nodes' && nodes'[x] == nodes[x] {
      assert Classified(nodes, x);
    }
    UnclassifiedChange(room, nodes, order, nodes');
    forall x ensures Classified(nodes', x) <==> x in order {
      assert Classified(nodes, x) <==> x in order;
    }
  }

  /** The node `try_classify` writes for a ready event. */
  function Classify(room: Room, nodes: View, e: Event): Node {
    var ancestors := AncestorsOf(nodes, e);
    Node(e, Gate(room, e, Restrict(nodes, ancestors)), ancestors)
  }

  lemma GateDecides(room: Room, e: Event, v: View)
    ensures !Gate(room, e, v).Pending?
  {}

  lemma AncestorsAreClassified(room: Room, nodes: View, order: seq<EventId>, e: Event)
    requires Consistent(room, nodes, order) && Ready(nodes, e)
    ensures forall a :: a in AncestorsOf(nodes, e) ==> a in order
  {
    hide Gate, Restrict;
    forall a | a in AncestorsOf(nodes, e) ensures a in order {
      if a !in e.parents {
        var p :| p in e.parents && p in nodes && a in nodes[p].ancestors;
        assert Classified(nodes, p);
        var i :| 0 <= i < |order| && order[i] == p;
        assert Justified(room, nodes, order[..i], order[i]);
      } else {
        assert Classified(nodes, a);
      }
    }
  }

  lemma ClassifyIsJustified(room: Room, nodes: View, order: seq<EventId>, id: EventId)
    requires Consistent(room, nodes, order)
    requires id in nodes && nodes[id].verdict.Pending? && Ready(nodes, nodes[id].event)
    ensures Justified(room, nodes[id := Classify(room, nodes, nodes[id].event)], order, id)
  {
    hide Gate;
    var e := nodes[id].event;
    var nodes' := nodes[id := Classify(room, nodes, e)];
    GateDecides(room, e, Restrict(nodes, AncestorsOf(nodes, e)));
    AncestorsAreClassified(room, nodes, order, e);
    forall p <- e.parents ensures p in order && nodes'[p] == nodes[p] {
      assert Classified(nodes, p);
    }
    SameAncestors(nodes, nodes', e);
    forall a | a in AncestorsOf(nodes, e) ensures a in nodes && nodes'[a] == nodes[a] {
      assert Classified(nodes, a);
    }
    SameRestriction(nodes, nodes', AncestorsOf(nodes, e));
  }

  lemma {:induction false} AppendJustified(room: Room, nodes: View, order: seq<EventId>, id: EventId)
    requires forall i :: 0 <= i < |order| ==> Justified(room, nodes, order[..i], order[i])
    requires Justified(room, nodes, order, id)
    ensures forall i :: 0 <= i < |order + [id]| ==> Justified(room, nodes, (order + [id])[..i], (order + [id])[i])
  {
    hide Justified;
    var order' := order + [id];
    forall i | 0 <= i < |order'| ensures Justified(room, nodes, order'[..i], order'[i]) {
      if i < |order| {
        assert order'[..i] == order[..i] && order'[i] == order[i];
      } else {
        assert order'[..i] == order && order'[i] == id;
      }
    }
  }

  lemma OthersUnchanged(nodes: View, order: seq<EventId>, id: EventId, node: Node)
    requires forall x :: Classified(nodes, x) <==> x in order
    requires id in nodes && nodes[id].verdict.Pending? && !node.verdict.Pending?
    ensures forall x <- order :: x in nodes && x != id
    ensures forall x :: Classified(nodes[id := node], x) <==> x in order + [id]
  {
    forall x <- order ensures x in nodes && x != id {
      assert Classified(nodes, x);
    }
    forall x ensures Classified(nodes[id := node], x) <==> x in order + [id] {
      assert Classified(nodes, x) <==> x in order;
    }
  }

  lemma AppendKeepsConsistent(room: Room, nodes: View, order: seq<EventId>, id: EventId, node: Node)
    requires Consistent(room, nodes, order)
    requires id in nodes && nodes[id].verdict.Pending? && !node.verdict.Pending?
    requires Justified(room, nodes[id := node], order, id)
    ensures Consistent(room, nodes[id := node], order + [id])
  {
    hide Justified;
    OthersUnchanged(nodes, order, id, node);
    UnclassifiedChange(room, nodes, order, nodes[id := node]);
    AppendJustified(room, nodes[id := node], order, id);
  }

  lemma ClassifyKeepsConsistent(room: Room, nodes: View, order: seq<EventId>, id: EventId)
    requires Consistent(room, nodes, order)
    requires id in nodes && nodes[id].verdict.Pending? && Ready(nodes, nodes[id].event)
    ensures !Classify(room, nodes, nodes[id].event).verdict.Pending?
    ensures Consistent(room, nodes[id := Classify(room, nodes, nodes[id].event)], order + [id])
  {
    hide Gate, Consistent, Justified, AncestorsOf, Restrict, Ready;
    GateDecides(room, nodes[id].event, Restrict(nodes, AncestorsOf(nodes, nodes[id].event)));
    ClassifyIsJustified(room, nodes, order, id);
    AppendKeepsConsistent(room, nodes, order, id, Classify(room, nodes, nodes[id].event));
  }

  // ---------------------------------------------------------------------------
  // The cascade
  // ---------------------------------------------------------------------------

  /** `children` are exactly the reverse edges of the tracked events. */
  ghost predicate Linked(nodes: View, children: map<EventId, seq<EventId>>) {
    forall p, c :: (p in children && c in children[p]) <==> (c in nodes && p in nodes[c].event.parents)
  }

  /** Everything that could be classified now is on the work list. */
  ghost predicate Waiting(nodes: View, work: seq<EventId>) {
    forall id :: id in nodes && nodes[id].verdict.Pending? && Ready(nodes, nodes[id].event) ==> id in work
  }

  function PendingIds(nodes: View): set<EventId> {
    set id | id in nodes && nodes[id].verdict.Pending?
  }

  /** The accepted membership events: all that the snapshot depends on. */
  function Relevant(nodes: View): View {
    map id | id in nodes && nodes[id].verdict.Accepted? && AffectsMembership(nodes[id].event.content) :: nodes[id]
  }

  /** After one classification only that event's children can have become ready. */
  lemma WaitingAfter(nodes: View, children: map<EventId, seq<EventId>>, work: seq<EventId>, id: EventId, node: Node)
    requires Linked(nodes, children) && Waiting(nodes, work + [id]) && id in nodes
    requires node.event == nodes[id].event && !node.verdict.Pending?
    ensures Waiting(nodes[id := node], work + if id in children then children[id] else [])
  {
    var nodes' := nodes[id := node];
    forall x | x in nodes' && nodes'[x].verdict.Pending? && Ready(nodes', nodes'[x].event)
      ensures x in work + if id in children then children[id] else []
    {
      if id !in nodes[x].event.parents {
        forall p <- nodes[x].event.parents ensures Classified(nodes, p) {
          assert Classified(nodes', p);
        }
        assert x in work + [id];
      }
    }
  }

  lemma WaitingSkip(nodes: View, work: seq<EventId>, id: EventId)
    requires Waiting(nodes, work + [id])
    requires id in nodes ==> Classified(nodes, id) || !Ready(nodes, nodes[id].event)
    ensures Waiting(nodes, work)
  {
    forall x | x in nodes && nodes[x].verdict.Pending? && Ready(nodes, nodes[x].event) ensures x in work {
      assert x in work + [id];
    }
  }

  lemma LinkedAfter(nodes: View, children: map<EventId, seq<EventId>>, id: EventId, node: Node)
    requires Linked(nodes, children) && id in nodes && node.event == nodes[id].event
    ensures Linked(nodes[id := node], children)
  {}

  lemma WaitingAfterInsert(nodes: View, id: EventId, e: Event)
    requires Complete(nodes) && id !in nodes
    ensures Waiting(nodes[id := Node(e, Pending, {})], [id])
  {
    var nodes' := nodes[id := Node(e, Pending, {})];
    forall x | x in nodes' && nodes'[x].verdict.Pending? && Ready(nodes', nodes'[x].event) ensures x in [id] {
      if x != id {
        forall p <- nodes[x].event.parents ensures Classified(nodes, p) {
          assert Classified(nodes', p);
        }
      }
    }
  }

  lemma PendingShrinks(nodes: View, id: EventId, node: Node)
    requires id in nodes && nodes[id].verdict.Pending? && !node.verdict.Pending?
    ensures PendingIds(nodes[id := node]) == PendingIds(nodes) - {id}
    ensures |PendingIds(nodes[id := node])| < |PendingIds(nodes)|
  {
    assert id in PendingIds(nodes);
  }

  lemma ClassifiedNode(room: Room, nodes: View, e: Event)
    ensures Classify(room, nodes, e).event == e && !Classify(room, nodes, e).verdict.Pending?
  {
    hide Gate;
    GateDecides(room, e, Restrict(nodes, AncestorsOf(nodes, e)));
  }

  lemma SameEventsAfter(nodes: View, id: EventId, node: Node)
    requires id in nodes && node.event == nodes[id].event
    ensures EventsOf(nodes[id := node]) == EventsOf(nodes)
  {}

  lemma RelevantAfter(nodes: View, id: EventId, node: Node)
    requires id in nodes && nodes[id].verdict.Pending?
    ensures id !in Relevant(nodes[id := node]) ==> Relevant(nodes[id := node]) == Relevant(nodes)
  {}

  /** The same events, with every verdict of `a` still standing in `b`. */
  ghost predicate Extends(a: View, b: View) {
    EventsOf(a) == EventsOf(b) && forall x :: Classified(a, x) ==> x in b && b[x] == a[x]
  }

  lemma ExtendsItself(a: View)
    ensures Extends(a, a)
  {}

  lemma ExtendsAfter(a: View, b: View, id: EventId, node: Node)
    requires Extends(a, b) && id in b && b[id].verdict.Pending? && node.event == b[id].event
    ensures Extends(a, b[id := node])
  {
    SameEventsAfter(b, id, node);
  }

  /** Everything one classification of the cascade keeps. */
  lemma AfterClassified(room: Room, start: View, nodes: View, children: map<EventId, seq<EventId>>,
                        work: seq<EventId>, id: EventId)
    requires Extends(start, nodes) && Linked(nodes, children) && Waiting(nodes, work + [id])
    requires id in nodes && nodes[id].verdict.Pending?
    ensures var nodes' := nodes[id := Classify(room, nodes, nodes[id].event)];
            && Extends(start, nodes') && Linked(nodes', children)
            && Waiting(nodes', work + if id in children then children[id] else [])
            && |PendingIds(nodes')| < |PendingIds(nodes)|
            && (id !in Relevant(nodes') ==> Relevant(nodes') == Relevant(nodes))
  {
    hide Extends, Linked, Waiting, Classify, Relevant, PendingIds;
    var node := Classify(room, nodes, nodes[id].event);
    ClassifiedNode(room, nodes, nodes[id].event);
    ExtendsAfter(start, nodes, id, node);
    LinkedAfter(nodes, children, id, node);
    WaitingAfter(nodes, children, work, id, node);
    PendingShrinks(nodes, id, node);
    RelevantAfter(nodes, id, node);
  }

  lemma SnapshotAfterInsert(nodes: View, id: EventId, e: Event)
    requires id !in nodes
    ensures Relevant(nodes[id := Node(e, Pending, {})]) == Relevant(nodes)
    ensures EventsOf(nodes[id := Node(e, Pending, {})]) == EventsOf(nodes)[id := e]
  {}

  lemma NothingWaiting(nodes: View)
    requires Waiting(nodes, [])
    ensures Complete(nodes)
  {}

  /** The set of events that a list of arrivals leaves; the first arrival of an id stands. */
  function Merged(known: map<EventId, Event>, events: seq<(EventId, Event)>): map<EventId, Event>
    decreases |events|
  {
    if events == [] then known
    else
      var (id, e) := events[0];
      Merged(if id in known then known else known[id := e], events[1..])
  }

  lemma {:induction false} MergedSnoc(known: map<EventId, Event>, events: seq<(EventId, Event)>, next: (EventId, Event))
    ensures var m := Merged(known, events);
            Merged(known, events + [next]) == if next.0 in m then m else m[next.0 := next.1]
    decreases |events|
  {
    if events == [] {
      assert events + [next] == [next];
    } else {
      var (id, e) := events[0];
      assert (events + [next])[1..] == events[1..] + [next];
      MergedSnoc(if id in known then known else known[id := e], events[1..], next);
    }
  }

  /** Ids are content hashes: one id never names two events. */
  ghost predicate OneEventPerId(events: seq<(EventId, Event)>) {
    forall x <- events, y <- events :: x.0 == y.0 ==> x == y
  }

  lemma {:induction false} MergedHolds(known: map<EventId, Event>, events: seq<(EventId, Event)>, id: EventId)
    requires OneEventPerId(events)
    ensures id in Merged(known, events) <==> id in known || exists x <- events :: x.0 == id
    ensures forall x <- events :: x.0 == id && id !in known ==>
              id in Merged(known, events) && Merged(known, events)[id] == x.1
    ensures id in known ==> id in Merged(known, events) && Merged(known, events)[id] == known[id]
    decreases |events|
  {
    if events != [] {
      var (first, e) := events[0];
      var known' := if first in known then known else known[first := e];
      assert events == [events[0]] + events[1..];
      MergedHolds(known', events[1..], id);
    }
  }

  lemma MergedFromNothing(xs: seq<(EventId, Event)>, ys: seq<(EventId, Event)>, id: EventId)
    requires OneEventPerId(xs) && OneEventPerId(ys) && (forall x :: x in xs <==> x in ys)
    requires id in Merged(map[], xs)
    ensures id in Merged(map[], ys) && Merged(map[], ys)[id] == Merged(map[], xs)[id]
  {
    MergedHolds(map[], xs, id);
    MergedHolds(map[], ys, id);
    var x :| x in xs && x.0 == id;
    assert x in ys;
  }

  /**
   * Arrival order is irrelevant: two engines given the same events, in any two orders and with
   * any repetitions, hold the same verdicts and the same snapshot.
   */
  lemma ArrivalOrderIsIrrelevant(room: Room, xs: seq<(EventId, Event)>, ys: seq<(EventId, Event)>, a: View, b: View)
    requires OneEventPerId(xs) && (forall x :: x in xs <==> x in ys)
    requires Settled(room, Merged(map[], xs), a) && Settled(room, Merged(map[], ys), b)
    ensures a == b && Fold(room, a) == Fold(room, b)
  {
    hide Settled, Fold;
    forall x <- ys, y <- ys | x.0 == y.0 ensures x == y {
      assert x in xs && y in xs;
    }
    forall id ensures id in Merged(map[], xs) <==> id in Merged(map[], ys) {
      if id in Merged(map[], xs) { MergedFromNothing(xs, ys, id); }
      if id in Merged(map[], ys) { MergedFromNothing(ys, xs, id); }
    }
    forall id | id in Merged(map[], xs) ensures Merged(map[], ys)[id] == Merged(map[], xs)[id] {
      MergedFromNothing(xs, ys, id);
    }
    assert Merged(map[], xs) == Merged(map[], ys);
    SettledIsUnique(room, Merged(map[], xs), a, b);
  }

  // ---------------------------------------------------------------------------
  // The snapshot depends on accepted membership events only
  // ---------------------------------------------------------------------------

  lemma ResolveIsRelevant(v: View, s: IdentityKey)
    ensures Resolve(v, s) == Resolve(Relevant(v), s)
    ensures Rank(v, s) == Rank(Relevant(v), s)
  {
    var r := Relevant(v);
    var touch := Touch(v, s);
    assert touch == Touch(r, s);
    var heads := Heads(v, touch);
    assert heads == Heads(r, touch);
    assert StatusOf(v, heads) == StatusOf(r, heads);
    assert LeastRole(v, heads) == LeastRole(r, heads);
    assert LeastRole(v, touch) == LeastRole(r, touch);
    assert Joins(v, heads) == Joins(r, heads);
    assert Joins(v, touch) == Joins(r, touch);
  }

  lemma SubjectsAreRelevant(v: View)
    ensures Geneses(v) == Geneses(Relevant(v)) && AdminOf(v) == AdminOf(Relevant(v))
    ensures Subjects(v) == Subjects(Relevant(v))
  {
    var r := Relevant(v);
    assert Geneses(v) == Geneses(r);
    assert AdminOf(v) == AdminOf(r);
    hide Subjects, AdminOf, Geneses;
    forall s ensures s in Subjects(v) <==> s in Subjects(r) {
      SubjectsAreTouched(v, s);
      SubjectsAreTouched(r, s);
      assert Touch(v, s) == Touch(r, s);
    }
  }

  lemma AdmittedAreRelevant(room: Room, v: View)
    ensures Admitted(room, v) == Admitted(room, Relevant(v))
  {
    hide Resolve, Rank, Relevant, Subjects, AdminOf;
    var r := Relevant(v);
    SubjectsAreRelevant(v);
    forall s ensures Resolve(v, s) == Resolve(r, s) && Rank(v, s) == Rank(r, s) {
      ResolveIsRelevant(v, s);
    }
    assert ActiveSubjects(v) == ActiveSubjects(r);
    forall s | s in ActiveSubjects(v) ensures s in Admitted(room, v) <==> s in Admitted(room, r) {
      assert (set t | t in ActiveSubjects(v) && RanksBefore(v, t, s))
          == (set t | t in ActiveSubjects(r) && RanksBefore(r, t, s));
    }
  }

  lemma BoundIsRelevant(v: View, d: DeviceKey)
    ensures HighestBound(v, d) == HighestBound(Relevant(v), d)
  {
    hide Resolve, Relevant, Subjects;
    SubjectsAreRelevant(v);
    forall s ensures Resolve(v, s) == Resolve(Relevant(v), s) {
      ResolveIsRelevant(v, s);
    }
    assert Bound(v, d) == Bound(Relevant(v), d);
  }

  lemma AdminIsRelevant(v: View)
    ensures Geneses(v) == Geneses(Relevant(v))
    ensures Geneses(v) != {} ==> AdminMember(v) == AdminMember(Relevant(v))
  {
    assert Geneses(v) == Geneses(Relevant(v));
  }

  lemma DevicesAreRelevant(v: View)
    ensures DeviceIndex(v) == DeviceIndex(Relevant(v))
  {
    hide Resolve, Relevant, Subjects, AdminMember, Geneses, HighestBound;
    var r := Relevant(v);
    AdminIsRelevant(v);
    SubjectsAreRelevant(v);
    forall s ensures Resolve(v, s) == Resolve(r, s) {
      ResolveIsRelevant(v, s);
    }
    forall d ensures HighestBound(v, d) == HighestBound(r, d) {
      BoundIsRelevant(v, d);
    }
    assert BoundDevices(v) == BoundDevices(r);
  }

  lemma FoldIsRelevant(room: Room, v: View)
    ensures Fold(room, v) == Fold(room, Relevant(v))
  {
    hide Resolve, Relevant, Subjects, AdminMember, Geneses, AdminOf, Admitted, DeviceIndex;
    var r := Relevant(v);
    SubjectsAreRelevant(v);
    AdmittedAreRelevant(room, v);
    DevicesAreRelevant(v);
    AdminIsRelevant(v);
    forall s ensures Capped(room, v, s) == Capped(room, r, s) {
      ResolveIsRelevant(v, s);
    }
    assert (map s | s in Subjects(v) :: Capped(room, v, s)) == (map s | s in Subjects(r) :: Capped(room, r, s));
  }

  class RoomMembership {
    const room: Room
    var nodes: View
    var children: map<EventId, seq<EventId>>
    var generation: u64
    /** The classified events in the order they were classified. */
    ghost var order: seq<EventId>

    ghost predicate Valid()
      reads this
    {
      Consistent(room, nodes, order) && Complete(nodes) && Linked(nodes, children)
    }

    constructor (room: Room)
      ensures Valid() && this.room == room && nodes == map[]
    {
      this.room := room;
      nodes := map[];
      children := map[];
      generation := 0;
      order := [];
    }

    function CurrentSnapshot(): Snapshot
      reads this
    {
      Fold(room, nodes)
    }

    /** Registers a new event under each parent it cites. */
    method Link(id: EventId, e: Event)
      requires id !in nodes && Linked(nodes, children)
      modifies this`children
      ensures Linked(nodes[id := Node(e, Pending, {})], children)
    {
      var k := 0;
      while k < |e.parents|
        invariant 0 <= k <= |e.parents|
        invariant forall p, c :: (p in children && c in children[p])
                                 <==> (c in nodes && p in nodes[c].event.parents) || (c == id && p in e.parents[..k])
      {
        var parent := e.parents[k];
        var cited := if parent in children then children[parent] else [];
        children := children[parent := cited + [id]];
        k := k + 1;
      }
    }

    /** The membership ancestors inherited through the parents. */
    method GatherAncestors(e: Event) returns (ancestors: set<EventId>)
      ensures ancestors == AncestorsOf(nodes, e)
    {
      ancestors := {};
      var k := 0;
      while k < |e.parents|
        invariant 0 <= k <= |e.parents|
        invariant ancestors == AncestorsOf(nodes, e.(parents := e.parents[..k]))
      {
        var parent := e.parents[k];
        if parent in nodes {
          if AffectsMembership(nodes[parent].event.content) {
            ancestors := ancestors + {parent};
          }
          ancestors := ancestors + nodes[parent].ancestors;
        }
        k := k + 1;
      }
      assert e.parents[..k] == e.parents;
    }

    /** Moves a pending event whose parents are all classified to its final verdict. */
    method TryClassify(id: EventId) returns (moved: bool)
      requires Consistent(room, nodes, order)
      modifies this`nodes, this`generation, this`order
      ensures Consistent(room, nodes, order)
      ensures moved <==> old(id in nodes && nodes[id].verdict.Pending? && Ready(nodes, nodes[id].event))
      ensures !moved ==> nodes == old(nodes) && order == old(order) && generation == old(generation)
      ensures moved ==> nodes == old(nodes)[id := old(Classify(room, nodes, nodes[id].event))]
      ensures moved ==> Classified(nodes, id) && order == old(order) + [id]
      ensures moved ==> generation == if id in Relevant(nodes) && old(generation) < U64_MAX then old(generation) + 1
                                      else old(generation)
    {
      hide Gate, Consistent, AncestorsOf, Restrict;
      if id !in nodes || !nodes[id].verdict.Pending? {
        return false;
      }
      var e := nodes[id].event;
      var k := 0;
      while k < |e.parents|
        invariant 0 <= k <= |e.parents|
        invariant forall p <- e.parents[..k] :: Classified(nodes, p)
      {
        if e.parents[k] !in nodes || nodes[e.parents[k]].verdict.Pending? {
          assert e.parents[k] in e.parents && !Classified(nodes, e.parents[k]);
          return false;
        }
        k := k + 1;
      }
      assert Ready(nodes, e);
      ClassifyKeepsConsistent(room, nodes, order, id);
      var ancestors := GatherAncestors(e);
      var verdict := Gate(room, e, Restrict(nodes, ancestors));
      nodes := nodes[id := Node(e, verdict, ancestors)];
      order := order + [id];
      if verdict.Accepted? && AffectsMembership(e.content) && generation < U64_MAX {
        generation := generation + 1;
      }
      return true;
    }

    /** Classifies `id` and whatever it unblocks. */
    method Cascade(id: EventId)
      requires Consistent(room, nodes, order) && Linked(nodes, children) && Waiting(nodes, [id])
      modifies this`nodes, this`generation, this`order
      ensures Valid()
      ensures Extends(old(nodes), nodes)
      ensures old(generation) <= generation
      ensures old(generation) == generation < U64_MAX ==> Relevant(nodes) == old(Relevant(nodes))
    {
      hide Gate, Consistent, Linked, Waiting, Ready, Relevant, Classify, Extends;
      ExtendsItself(nodes);
      var work := [id];
      while work != []
        invariant Consistent(room, nodes, order) && Linked(nodes, children) && Waiting(nodes, work)
        invariant Extends(old(nodes), nodes)
        invariant old(generation) <= generation
        invariant old(generation) == generation < U64_MAX ==> Relevant(nodes) == old(Relevant(nodes))
        decreases |PendingIds(nodes)|, |work|
      {
        var current := work[|work| - 1];
        assert work == work[..|work| - 1] + [current];
        work := work[..|work| - 1];
        ghost var was := nodes;
        var moved := TryClassify(current);
        if moved {
          AfterClassified(room, old(nodes), was, children, work, current);
          if current in children {
            work := work + children[current];
          } else {
            assert work + [] == work;
          }
        } else {
          WaitingSkip(nodes, work, current);
        }
      }
      NothingWaiting(nodes);
    }

    /** Adds one event, in any order; what is already known changes nothing. */
    method Ingest(id: EventId, e: Event) returns (verdict: Verdict)
      requires Valid()
      modifies this
      ensures Valid()
      ensures id in nodes && verdict == nodes[id].verdict
      ensures EventsOf(nodes) == if id in old(nodes) then old(EventsOf(nodes)) else old(EventsOf(nodes))[id := e]
      ensures id in old(nodes) ==> nodes == old(nodes) && generation == old(generation)
      ensures forall x :: Classified(old(nodes), x) ==> x in nodes && nodes[x] == old(nodes)[x]
      ensures Settled(room, EventsOf(nodes), nodes)
      ensures old(generation) == generation < U64_MAX ==> CurrentSnapshot() == old(CurrentSnapshot())
    {
      hide Gate, Fold, Complete, Consistent, Linked, Waiting, Relevant, Ready;
      if id in nodes {
        return nodes[id].verdict;
      }
      WaitingAfterInsert(nodes, id, e);
      InsertKeepsConsistent(room, nodes, order, id, e);
      SnapshotAfterInsert(nodes, id, e);
      FoldIsRelevant(room, nodes);
      Link(id, e);
      nodes := nodes[id := Node(e, Pending, {})];
      Cascade(id);
      FoldIsRelevant(room, nodes);
      assert id in EventsOf(nodes);
      verdict := nodes[id].verdict;
    }

    /** Folds a whole list of events. */
    method IngestAll(events: seq<(EventId, Event)>)
      requires Valid()
      modifies this
      ensures Valid()
      ensures EventsOf(nodes) == Merged(old(EventsOf(nodes)), events)
      ensures Settled(room, EventsOf(nodes), nodes)
    {
      hide Consistent, Complete, Linked, Fold;
      var k := 0;
      while k < |events|
        invariant 0 <= k <= |events|
        invariant Valid()
        invariant EventsOf(nodes) == Merged(old(EventsOf(nodes)), events[..k])
      {
        assert events[..k + 1] == events[..k] + [events[k]];
        MergedSnoc(old(EventsOf(nodes)), events[..k], events[k]);
        assert forall id :: id in nodes <==> id in EventsOf(nodes);
        var _ := Ingest(events[k].0, events[k].1);
        k := k + 1;
      }
      assert events[..k] == events;
    }
  }
}
