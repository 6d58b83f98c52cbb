/**
 What the modules share: options, the engine's values, the choice of a member that loops over a set or map make,
 and sorting.
 */
module Wrappers {
  datatype Option<+T> = None | Some(value: T)

  /** An engine value, as far as comparing and storing it goes. */
  datatype Variant =
    | Nil
    | Boolean(truth: bool)
    | Integer(number: int)
    | Decimal(fraction: real)
    | Text(characters: string)

  /** Any member: which one a hash map's iteration yields next is not specified. */
  method Pick<T>(s: set<T>) returns (x: T)
    requires s != {}
    ensures x in s
  {
    x :| x in s;
  }

  ghost predicate Distinct<T>(items: seq<T>) {
    forall i, j :: 0 <= i < j < |items| ==> items[i] != items[j]
  }

  /** The list is the other two, each in its order, shuffled into one. */
  ghost predicate Interleaves<T>(all: seq<T>, one: seq<T>, other: seq<T>) {
    if all == [] then one == [] && other == []
    else
      var early, last := all[..|all| - 1], all[|all| - 1];
      || (one != [] && one[|one| - 1] == last && Interleaves(early, one[..|one| - 1], other))
      || (other != [] && other[|other| - 1] == last && Interleaves(early, one, other[..|other| - 1]))
  }

  lemma InterleavesAppend<T>(all: seq<T>, one: seq<T>, other: seq<T>, last: T)
    requires Interleaves(all, one, other)
    ensures Interleaves(all + [last], one + [last], other) && Interleaves(all + [last], one, other + [last])
  {
    assert (all + [last])[..|all|] == all && (one + [last])[..|one|] == one && (other + [last])[..|other|] == other;
  }

  /** Sorting a list without repeats, as the source does with what it gathers from a set or map. */
  method Sorted(items: seq<int>) returns (sorted: seq<int>)
    requires Distinct(items)
    ensures forall i, j :: 0 <= i < j < |sorted| ==> sorted[i] < sorted[j]
    ensures forall x :: x in sorted <==> x in items
  {
    sorted := [];
    for n := 0 to |items|
      invariant forall i, j :: 0 <= i < j < |sorted| ==> sorted[i] < sorted[j]
      invariant forall x :: x in sorted <==> x in items[..n]
    {
      var at := 0;
      while at < |sorted| && sorted[at] < items[n]
        invariant 0 <= at <= |sorted|
        invariant forall i :: 0 <= i < at ==> sorted[i] < items[n]
      {
        at := at + 1;
      }
      assert items[n] !in items[..n];
      assert items[..n + 1] == items[..n] + [items[n]];
      ghost var before := sorted;
      sorted := sorted[..at] + [items[n]] + sorted[at..];
      assert before == before[..at] + before[at..];
    }
    assert items[..|items|] == items;
  }
}
