/**
 The active-link projection: the observer callback over sections with an
 id. Each intersecting entry clears `active` from every nav link and then
 gives it to the first nav link whose href is "#" followed by the section's
 id, if there is one. Entries are processed in delivery order, so the last
 intersecting entry of a batch decides.
 */
module ActiveLinks {
  import opened Options

  /** A `.nav-link` anchor, by its href attribute. */
  datatype NavLink = NavLink(href: string)

  /** One record of an observer batch: the observed section's id and whether it intersects. */
  datatype SectionEntry = SectionEntry(sectionId: string, isIntersecting: bool)

  /** The href that points at the section with this id. */
  function Anchor(id: string): string {
    "#" + id
  }

  /** `document.querySelector('.nav-link[href="#id"]')`: the first nav link,
      in page order, pointing at `id`; None when no link does. */
  function LinkFor(links: seq<NavLink>, id: string): (r: Option<nat>)
    ensures r.Some? ==> r.value < |links| && links[r.value].href == Anchor(id)
                        && forall j :: 0 <= j < r.value ==> links[j].href != Anchor(id)
    ensures r.None? ==> forall j :: 0 <= j < |links| ==> links[j].href != Anchor(id)
    decreases |links|
  {
    if links == [] then None
    else if links[0].href == Anchor(id) then Some(0)
    else
      match LinkFor(links[1..], id)
      case None => None
      case Some(i) =>
        assert forall j :: 1 <= j < i + 1 ==> links[j] == links[1..][j - 1];
        Some(i + 1)
  }

  /** The active set once section `id` has been reported intersecting: just
      its link, or nothing when no link points at it. */
  function Selection(links: seq<NavLink>, id: string): set<nat> {
    match LinkFor(links, id)
    case Some(i) => {i}
    case None => {}
  }

  /** One entry of the callback. `active` holds the positions of the nav
      links carrying the class. */
  function Step(active: set<nat>, links: seq<NavLink>, e: SectionEntry): (r: set<nat>)
    ensures !e.isIntersecting ==> r == active
    ensures e.isIntersecting ==> |r| <= 1 && forall i :: i in r ==> i < |links| && links[i].href == Anchor(e.sectionId)
    ensures e.isIntersecting ==> (r == {} <==> forall j :: 0 <= j < |links| ==> links[j].href != Anchor(e.sectionId))
  {
    if e.isIntersecting then SelectionSingle(links, e.sectionId); Selection(links, e.sectionId) else active
  }

  /** `i` is the last intersecting entry of the batch. */
  predicate LastIntersecting(batch: seq<SectionEntry>, i: nat) {
    i < |batch| && batch[i].isIntersecting
    && forall j :: i < j < |batch| ==> !batch[j].isIntersecting
  }

  /** The callback over a whole batch, entries taken in delivery order. A
      batch with no intersecting entry changes nothing; otherwise the last
      intersecting entry alone decides the active set. */
  function Observe(active: set<nat>, links: seq<NavLink>, batch: seq<SectionEntry>): (r: set<nat>)
    ensures (forall j :: 0 <= j < |batch| ==> !batch[j].isIntersecting) ==> r == active
    ensures forall i: nat :: LastIntersecting(batch, i) ==> r == Selection(links, batch[i].sectionId)
    decreases |batch|
  {
    if batch == [] then active
    else
      var init := batch[..|batch| - 1];
      var last := batch[|batch| - 1];
      LastIntersectingSplit(batch);
      Step(Observe(active, links, init), links, last)
  }

  /** The last intersecting entry of a batch is its final entry when that one
      intersects, and otherwise the last intersecting entry of the rest. */
  lemma LastIntersectingSplit(batch: seq<SectionEntry>)
    requires batch != []
    ensures var init := batch[..|batch| - 1];
            && (batch[|batch| - 1].isIntersecting ==>
                  forall i: nat :: LastIntersecting(batch, i) <==> i == |batch| - 1)
            && (!batch[|batch| - 1].isIntersecting ==>
                  && (forall i: nat :: LastIntersecting(batch, i) <==> LastIntersecting(init, i))
                  && ((forall j :: 0 <= j < |batch| ==> !batch[j].isIntersecting) <==>
                        (forall j :: 0 <= j < |init| ==> !init[j].isIntersecting)))
  {
    var init := batch[..|batch| - 1];
    assert forall j :: 0 <= j < |init| ==> init[j] == batch[j];
  }

  /** The selection never holds more than one link. */
  lemma SelectionSingle(links: seq<NavLink>, id: string)
    ensures |Selection(links, id)| <= 1
    ensures forall i :: i in Selection(links, id) ==> i < |links| && links[i].href == Anchor(id)
  {
  }

  /** At most one nav link is active after any batch, provided at most one
      was before; after a batch with an intersecting entry, whatever the
      state before. */
  lemma {:induction false} AtMostOneActive(active: set<nat>, links: seq<NavLink>, batch: seq<SectionEntry>)
    requires |active| <= 1 || exists j :: 0 <= j < |batch| && batch[j].isIntersecting
    ensures |Observe(active, links, batch)| <= 1
  {
    if exists j :: 0 <= j < |batch| && batch[j].isIntersecting {
      var i := LastIntersectingIndex(batch);
      SelectionSingle(links, batch[i].sectionId);
    }
  }

  /** Position of the last intersecting entry of a batch that has one. */
  function LastIntersectingIndex(batch: seq<SectionEntry>): (i: nat)
    requires exists j :: 0 <= j < |batch| && batch[j].isIntersecting
    ensures LastIntersecting(batch, i)
    decreases |batch|
  {
    if batch[|batch| - 1].isIntersecting then |batch| - 1
    else
      var init := batch[..|batch| - 1];
      assert exists j :: 0 <= j < |init| && init[j].isIntersecting by {
        var j :| 0 <= j < |batch| && batch[j].isIntersecting;
        assert init[j] == batch[j];
      }
      LastIntersectingIndex(init)
  }

  /** Two batches in a row have the effect of their concatenation. */
  lemma {:induction false} ObserveConcat(active: set<nat>, links: seq<NavLink>, a: seq<SectionEntry>, b: seq<SectionEntry>)
    ensures Observe(Observe(active, links, a), links, b) == Observe(active, links, a + b)
    decreases |b|
  {
    if b == [] {
      assert a + b == a;
    } else {
      var init := b[..|b| - 1];
      ObserveConcat(active, links, a, init);
      assert (a + b)[..|a + b| - 1] == a + init;
      assert (a + b)[|a + b| - 1] == b[|b| - 1];
    }
  }

  /** Last wins: once a batch holding an intersecting entry has been
      processed, nothing that happened before it matters. */
  lemma LastWins(active: set<nat>, other: set<nat>, links: seq<NavLink>, batch: seq<SectionEntry>)
    requires exists j :: 0 <= j < |batch| && batch[j].isIntersecting
    ensures Observe(active, links, batch) == Observe(other, links, batch)
  {
    var i := LastIntersectingIndex(batch);
  }

  /** Reporting one section as intersecting activates exactly its link: the
      link is active afterwards if and only if it is the first link whose
      href names the section. */
  lemma ActivatesMatchingLink(active: set<nat>, links: seq<NavLink>, id: string, k: nat)
    ensures k in Observe(active, links, [SectionEntry(id, true)]) <==>
              k < |links| && links[k].href == Anchor(id)
              && forall j :: 0 <= j < k ==> links[j].href != Anchor(id)
  {
    assert LastIntersecting([SectionEntry(id, true)], 0);
  }
}
