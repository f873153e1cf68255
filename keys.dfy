/**
 The Python built-ins the registries apply to their dictionaries' keys:
 `max(d.keys())`, `sorted(d.keys())` and `d.get(k, default)`.
 */
module Keys {

  predicate StrictlyIncreasing(s: seq<int>) {
    forall i, j | 0 <= i < j < |s| :: s[i] < s[j]
  }

  /** `d.get(k, default)`: the value under `k`, or `default` when `k` is absent. */
  function Get<K, V>(d: map<K, V>, k: K, default: V): V
  {
    if k in d then d[k] else default
  }

  lemma HasElement(s: set<int>)
    requires s != {}
    ensures exists x :: x in s
  {
    if forall x :: x !in s {
      assert false;
    }
  }

  predicate IsLeast(m: int, s: set<int>) {
    m in s && forall k | k in s :: m <= k
  }

  lemma {:induction false} HasLeast(s: set<int>)
    requires s != {}
    ensures exists m :: IsLeast(m, s)
    decreases s
  {
    HasElement(s);
    var x :| x in s;
    var t := s - {x};
    if t == {} {
      assert s == {x};
      assert IsLeast(x, s);
    } else {
      HasLeast(t);
      var m :| IsLeast(m, t);
      var least := if x < m then x else m;
      forall k | k in s ensures least <= k {
        if k != x { assert k in t; }
      }
      assert IsLeast(least, s);
    }
  }

  /** The least element of a non-empty set of ids. */
  function MinKey(s: set<int>): (m: int)
    requires s != {}
    ensures m in s && forall k | k in s :: m <= k
  {
    HasLeast(s);
    var m :| IsLeast(m, s); m
  }

  /** `sorted(keys)`: every key exactly once, in ascending order. */
  function SortedKeys(s: set<int>): (r: seq<int>)
    ensures StrictlyIncreasing(r)
    ensures forall i | 0 <= i < |r| :: r[i] in s
    ensures forall k | k in s :: k in r
    ensures |r| == |s|
    decreases s
  {
    if s == {} then []
    else
      var m := MinKey(s);
      var rest := SortedKeys(s - {m});
      assert forall i | 0 < i < |rest| + 1 :: ([m] + rest)[i] == rest[i - 1];
      [m] + rest
  }

  predicate IsGreatest(m: int, s: set<int>) {
    m in s && forall k | k in s :: k <= m
  }

  lemma {:induction false} HasGreatest(s: set<int>)
    requires s != {}
    ensures exists m :: IsGreatest(m, s)
    decreases s
  {
    HasElement(s);
    var x :| x in s;
    var t := s - {x};
    if t == {} {
      assert s == {x};
      assert IsGreatest(x, s);
    } else {
      HasGreatest(t);
      var m :| IsGreatest(m, t);
      var greatest := if x > m then x else m;
      forall k | k in s ensures k <= greatest {
        if k != x { assert k in t; }
      }
      assert IsGreatest(greatest, s);
    }
  }

  /** `max(keys)`: the greatest element of a non-empty set of ids. */
  function MaxKey(s: set<int>): (m: int)
    requires s != {}
    ensures m in s && forall k | k in s :: k <= m
  {
    HasGreatest(s);
    var m :| IsGreatest(m, s); m
  }

  lemma PrependIncreasing(x: int, s: seq<int>)
    requires StrictlyIncreasing(s)
    requires forall i | 0 <= i < |s| :: x < s[i]
    ensures StrictlyIncreasing([x] + s)
  {
    var t := [x] + s;
    forall i, j | 0 <= i < j < |t| ensures t[i] < t[j] {
      assert t[j] == s[j - 1];
      if i > 0 { assert t[i] == s[i - 1]; }
    }
  }
}
