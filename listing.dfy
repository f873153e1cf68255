/**
 The view both `show_tasks` functions print: the incomplete tasks, as
 `(id, description)` pairs in ascending id order. A task counts as incomplete
 when `stats.get(tid, False)` is false, the test both variants apply.
 */
module Listing {
  import opened Keys

  predicate IdsIncreasing(ps: seq<(int, string)>) {
    forall i, j | 0 <= i < j < |ps| :: ps[i].0 < ps[j].0
  }

  predicate IsIncomplete(stats: map<int, bool>, k: int) {
    !Get(stats, k, false)
  }

  /** The pairs of `keys`, taken in the order given, whose task is incomplete. */
  function IncompleteIn(tasks: map<int, string>, stats: map<int, bool>, keys: seq<int>): seq<(int, string)>
    requires forall i | 0 <= i < |keys| :: keys[i] in tasks
    decreases |keys|
  {
    if keys == [] then []
    else
      var earlier := IncompleteIn(tasks, stats, keys[..|keys| - 1]);
      var k := keys[|keys| - 1];
      if IsIncomplete(stats, k) then earlier + [(k, tasks[k])] else earlier
  }

  lemma {:induction false} IncompleteInSpec(tasks: map<int, string>, stats: map<int, bool>, keys: seq<int>)
    requires forall i | 0 <= i < |keys| :: keys[i] in tasks
    ensures var ps := IncompleteIn(tasks, stats, keys);
      forall p :: p in ps <==> p.0 in keys && p.0 in tasks && tasks[p.0] == p.1 && IsIncomplete(stats, p.0)
    ensures StrictlyIncreasing(keys) ==> IdsIncreasing(IncompleteIn(tasks, stats, keys))
    decreases |keys|
  {
    if keys != [] {
      var front := keys[..|keys| - 1];
      var k := keys[|keys| - 1];
      assert keys == front + [k];
      IncompleteInSpec(tasks, stats, front);
      var earlier := IncompleteIn(tasks, stats, front);
      if StrictlyIncreasing(keys) {
        assert StrictlyIncreasing(front);
        forall i | 0 <= i < |earlier| ensures earlier[i].0 < k {
          assert earlier[i] in earlier;
          var j :| 0 <= j < |front| && front[j] == earlier[i].0;
          assert keys[j] < keys[|keys| - 1];
        }
      }
    }
  }

  /**
   `list_incomplete`: exactly the tasks whose status is not true, each once with
   its description, in ascending id order.
   */
  function IncompletePairs(tasks: map<int, string>, stats: map<int, bool>): (ps: seq<(int, string)>)
    ensures IdsIncreasing(ps)
    ensures forall p | p in ps :: p.0 in tasks && tasks[p.0] == p.1 && IsIncomplete(stats, p.0)
    ensures forall k | k in tasks :: (k, tasks[k]) in ps <==> IsIncomplete(stats, k)
  {
    var keys := SortedKeys(tasks.Keys);
    IncompleteInSpec(tasks, stats, keys);
    IncompleteIn(tasks, stats, keys)
  }

  /** Two id-ordered sequences with the same pairs are the same sequence. */
  lemma {:induction false} IncreasingSameElementsEqual(a: seq<(int, string)>, b: seq<(int, string)>)
    requires IdsIncreasing(a) && IdsIncreasing(b)
    requires forall p :: p in a <==> p in b
    ensures a == b
    decreases |a|
  {
    assert b != [] ==> b[0] in b;
    if a != [] {
      SameHeads(a, b);
      SameTails(a, b);
      IncreasingSameElementsEqual(a[1..], b[1..]);
      assert a == [a[0]] + a[1..];
      assert b == [b[0]] + b[1..];
    }
  }

  /** The least pair of each is the least pair of the other. */
  lemma SameHeads(a: seq<(int, string)>, b: seq<(int, string)>)
    requires IdsIncreasing(a) && IdsIncreasing(b) && a != []
    requires forall p :: p in a <==> p in b
    ensures b != [] && a[0] == b[0]
  {
    assert a[0] in a;
    var j :| 0 <= j < |b| && b[j] == a[0];
    assert b[0] in b;
    var i :| 0 <= i < |a| && a[i] == b[0];
    assert a[0].0 <= a[i].0 && b[0].0 <= b[j].0;
  }

  lemma SameTails(a: seq<(int, string)>, b: seq<(int, string)>)
    requires IdsIncreasing(a) && IdsIncreasing(b) && a != [] && b != [] && a[0] == b[0]
    requires forall p :: p in a <==> p in b
    ensures IdsIncreasing(a[1..]) && IdsIncreasing(b[1..])
    ensures forall p :: p in a[1..] <==> p in b[1..]
  {
    forall p ensures p in a[1..] <==> p in b[1..] {
      if p in a[1..] {
        var k :| 1 <= k < |a| && a[k] == p;
        assert a[0].0 < a[k].0;
        assert p in b;
      }
      if p in b[1..] {
        var k :| 1 <= k < |b| && b[k] == p;
        assert b[0].0 < b[k].0;
        assert p in a;
      }
    }
  }

  /**
   The contract of `IncompletePairs` pins its result down: any id-ordered list
   of exactly the incomplete tasks is that result.
   */
  lemma IncompletePairsUnique(tasks: map<int, string>, stats: map<int, bool>, qs: seq<(int, string)>)
    requires IdsIncreasing(qs)
    requires forall p | p in qs :: p.0 in tasks && tasks[p.0] == p.1 && IsIncomplete(stats, p.0)
    requires forall k | k in tasks :: (k, tasks[k]) in qs <==> IsIncomplete(stats, k)
    ensures qs == IncompletePairs(tasks, stats)
  {
    var ps := IncompletePairs(tasks, stats);
    forall p ensures p in qs <==> p in ps {
      if p in qs { assert (p.0, tasks[p.0]) in qs; }
      if p in ps { assert (p.0, tasks[p.0]) in ps; }
    }
    IncreasingSameElementsEqual(qs, ps);
  }

  /** `IncompletePairs` is empty exactly when no task is incomplete. */
  lemma IncompletePairsEmpty(tasks: map<int, string>, stats: map<int, bool>)
    ensures IncompletePairs(tasks, stats) == [] <==> forall k | k in tasks :: !IsIncomplete(stats, k)
  {
    var ps := IncompletePairs(tasks, stats);
    assert ps != [] ==> ps[0] in ps;
  }
}
