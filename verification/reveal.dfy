/**
 The reveal projection: the observer callback that adds `animate-in` to every
 observed element reported as intersecting. The set of elements carrying the
 class only ever grows.
 */
module Reveal {

  /** One record of an observer batch: which element, and whether it now intersects. */
  datatype Entry<E> = Entry(target: E, isIntersecting: bool)

  /** The targets of the intersecting entries of a batch: what the batch reveals. */
  function Entered<E>(batch: seq<Entry<E>>): set<E> {
    set i | 0 <= i < |batch| && batch[i].isIntersecting :: batch[i].target
  }

  /** One entry of the callback: an intersecting entry marks its target; a
      non-intersecting one changes nothing (nothing is ever unmarked). */
  function Step<E>(revealed: set<E>, e: Entry<E>): (r: set<E>)
    ensures revealed <= r && r - revealed <= {e.target}
    ensures e.target in r <==> e.target in revealed || e.isIntersecting
  {
    if e.isIntersecting then revealed + {e.target} else revealed
  }

  /** The callback over a whole batch, entries taken in delivery order. */
  function Observe<E>(revealed: set<E>, batch: seq<Entry<E>>): (r: set<E>)
    ensures r == revealed + Entered(batch)
    decreases |batch|
  {
    if batch == [] then revealed
    else
      var init := batch[..|batch| - 1];
      var last := batch[|batch| - 1];
      assert Entered(batch) == Entered(init) + (if last.isIntersecting then {last.target} else {}) by {
        forall x ensures x in Entered(batch) <==> x in Entered(init) || (last.isIntersecting && x == last.target) {
          if x in Entered(batch) {
            var i :| 0 <= i < |batch| && batch[i].isIntersecting && batch[i].target == x;
            if i < |batch| - 1 { assert init[i] == batch[i]; }
          }
          if x in Entered(init) {
            var i :| 0 <= i < |init| && init[i].isIntersecting && init[i].target == x;
            assert batch[i] == init[i];
          }
        }
      }
      Step(Observe(revealed, init), last)
  }

  /** Reveal is monotonic: no batch removes `animate-in` from anything. */
  lemma ObserveMonotonic<E>(revealed: set<E>, batch: seq<Entry<E>>)
    ensures revealed <= Observe(revealed, batch)
  {
  }

  /** Exactly the targets of intersecting entries are added: a target
      reported only as not intersecting stays as it was. */
  lemma ObserveAddsExactlyEntered<E>(revealed: set<E>, batch: seq<Entry<E>>, x: E)
    requires x !in revealed
    ensures x in Observe(revealed, batch) <==>
              exists i :: 0 <= i < |batch| && batch[i].target == x && batch[i].isIntersecting
  {
  }

  /** Two batches in a row have the effect of their concatenation, so the
      projection does not depend on how entries are grouped into batches. */
  lemma {:induction false} ObserveConcat<E>(revealed: set<E>, a: seq<Entry<E>>, b: seq<Entry<E>>)
    ensures Observe(Observe(revealed, a), b) == Observe(revealed, a + b)
  {
    assert Entered(a + b) == Entered(a) + Entered(b) by {
      forall x ensures x in Entered(a + b) <==> x in Entered(a) || x in Entered(b) {
        if x in Entered(a + b) {
          var i :| 0 <= i < |a + b| && (a + b)[i].isIntersecting && (a + b)[i].target == x;
          if i < |a| { assert a[i] == (a + b)[i]; }
          else { assert b[i - |a|] == (a + b)[i]; }
        }
        if x in Entered(a) {
          var i :| 0 <= i < |a| && a[i].isIntersecting && a[i].target == x;
          assert (a + b)[i] == a[i];
        }
        if x in Entered(b) {
          var i :| 0 <= i < |b| && b[i].isIntersecting && b[i].target == x;
          assert (a + b)[|a| + i] == b[i];
        }
      }
    }
  }

  /** Replaying a batch reveals nothing new: re-entering the viewport is a no-op. */
  lemma ObserveIdempotent<E>(revealed: set<E>, batch: seq<Entry<E>>)
    ensures Observe(Observe(revealed, batch), batch) == Observe(revealed, batch)
  {
  }

  /** The order in which entries are delivered does not matter. */
  lemma ObserveOrderInsensitive<E>(revealed: set<E>, a: seq<Entry<E>>, b: seq<Entry<E>>)
    requires multiset(a) == multiset(b)
    ensures Observe(revealed, a) == Observe(revealed, b)
  {
    assert Entered(a) == Entered(b) by {
      forall x | x in Entered(a) ensures x in Entered(b) {
        var i :| 0 <= i < |a| && a[i].isIntersecting && a[i].target == x;
        assert a[i] in multiset(b);
        var j :| 0 <= j < |b| && b[j] == a[i];
      }
      forall x | x in Entered(b) ensures x in Entered(a) {
        var j :| 0 <= j < |b| && b[j].isIntersecting && b[j].target == x;
        assert b[j] in multiset(a);
        var i :| 0 <= i < |a| && a[i] == b[j];
      }
    }
  }
}
