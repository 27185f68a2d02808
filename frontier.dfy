// The open list of the search: candidate entries and the extract-min that heappop performs.

module Frontier {
  import opened Graphs

  /** An open-list entry: estimated total f, cost so far g, the city reached,
      and the cities passed on the way there (the city itself not included). */
  datatype Entry = Entry(f: nat, g: nat, city: City, path: seq<City>)

  /** a is popped before b: smaller estimate, or equal estimate and smaller cost. */
  predicate Before(a: Entry, b: Entry) {
    a.f < b.f || (a.f == b.f && a.g < b.g)
  }

  /** The position of the entry heappop removes: one with the least (f, g),
      the earliest in the open list among those. */
  method MinIndex(open: seq<Entry>) returns (best: nat)
    requires open != []
    ensures best < |open|
    ensures forall k :: 0 <= k < |open| ==> !Before(open[k], open[best])
    ensures forall k :: 0 <= k < best ==> Before(open[best], open[k])
  {
    best := 0;
    var i := 1;
    while i < |open|
      invariant best < i <= |open|
      invariant forall k :: 0 <= k < i ==> !Before(open[k], open[best])
      invariant forall k :: 0 <= k < best ==> Before(open[best], open[k])
    {
      if Before(open[i], open[best]) {
        best := i;
      }
      i := i + 1;
    }
  }

  /** The open list without its entry at position i. */
  function Remove(open: seq<Entry>, i: nat): (rest: seq<Entry>)
    requires i < |open|
    ensures |rest| == |open| - 1
    ensures forall k :: 0 <= k < |open| && k != i ==> open[k] in rest
    ensures forall e :: e in rest ==> e in open
    ensures multiset(rest) == multiset(open) - multiset{open[i]}
  {
    assert open == open[..i] + [open[i]] + open[i + 1..];
    open[..i] + open[i + 1..]
  }

  /** Some entry for city m costs at most bound so far. */
  ghost predicate HasEntry(open: seq<Entry>, m: City, bound: nat) {
    exists k :: 0 <= k < |open| && open[k].city == m && open[k].g <= bound
  }

  /** Removing an entry for another city keeps an entry for m. */
  lemma HasEntryRemove(open: seq<Entry>, i: nat, m: City, bound: nat)
    requires i < |open| && open[i].city != m && HasEntry(open, m, bound)
    ensures HasEntry(Remove(open, i), m, bound)
  {
    var k :| 0 <= k < |open| && open[k].city == m && open[k].g <= bound;
    var rest := Remove(open, i);
    if k < i {
      assert rest[k] == open[k];
    } else {
      assert rest[k - 1] == open[k];
    }
  }

  /** Pushing entries at the end keeps an entry for m. */
  lemma HasEntryExtend(open: seq<Entry>, more: seq<Entry>, m: City, bound: nat)
    requires HasEntry(open, m, bound)
    ensures HasEntry(open + more, m, bound)
  {
    var k :| 0 <= k < |open| && open[k].city == m && open[k].g <= bound;
    assert (open + more)[k] == open[k];
  }
}
