/** Python's `sorted(d)` over a dictionary whose keys are natural numbers. */
module SortedKeys {

  /** A number above every element of a finite set. */
  ghost function Bound(s: set<nat>): (b: nat)
    ensures forall k | k in s :: k < b
    decreases s
  {
    if s == {} then 0
    else
      var x :| x in s;
      var b := Bound(s - {x});
      assert forall k | k in s :: k == x || k in s - {x};
      if x < b then b else x + 1
  }

  predicate StrictlyAscending(s: seq<nat>)
  {
    forall i, j | 0 <= i < j < |s| :: s[i] < s[j]
  }

  /** The keys of `m` in `[lo, hi)`, in ascending order. */
  function KeysIn<V>(m: map<nat, V>, lo: nat, hi: nat): seq<nat>
    decreases hi - lo
  {
    if lo >= hi then []
    else if lo in m then [lo] + KeysIn(m, lo + 1, hi)
    else KeysIn(m, lo + 1, hi)
  }

  /** `KeysIn` lists exactly the keys in the range, each once, smallest first. */
  lemma {:induction false} KeysInFacts<V>(m: map<nat, V>, lo: nat, hi: nat)
    decreases hi - lo
    ensures var r := KeysIn(m, lo, hi);
            && StrictlyAscending(r)
            && forall k :: k in r <==> k in m && lo <= k < hi
  {
    if lo < hi {
      KeysInFacts(m, lo + 1, hi);
      var rest := KeysIn(m, lo + 1, hi);
      if lo in m {
        assert forall i | 0 <= i < |rest| :: lo < rest[i] by {
          forall i | 0 <= i < |rest| ensures lo < rest[i] {
            assert rest[i] in rest;
          }
        }
        assert KeysIn(m, lo, hi) == [lo] + rest;
      }
    }
  }

  /** Python `sorted(m)`: every key once, smallest first (see `SortedFacts`). */
  function Sorted<V>(m: map<nat, V>): (r: seq<nat>)
    ensures r == [] <==> |m| == 0
  {
    if |m| == 0 then []
    else
      KeysInFacts(m, 0, MaxKey(m) + 1);
      KeysIn(m, 0, MaxKey(m) + 1)
  }

  /** `sorted(m)` lists every key of `m` exactly once, in ascending order. */
  lemma SortedFacts<V>(m: map<nat, V>)
    ensures StrictlyAscending(Sorted(m))
    ensures forall k :: k in Sorted(m) <==> k in m
  {
    if |m| > 0 {
      KeysInFacts(m, 0, MaxKey(m) + 1);
    } else {
      assert forall k :: k !in m;
    }
  }

  /** A non-empty dictionary has a largest key: the last of its keys in ascending order. */
  lemma MaxExists<V>(m: map<nat, V>)
    requires |m| > 0
    ensures exists k :: k in m && forall j | j in m :: j <= k
  {
    var ks := KeysIn(m, 0, Bound(m.Keys));
    KeysInFacts(m, 0, Bound(m.Keys));
    var x :| x in m;
    assert x in ks;
    var k := ks[|ks| - 1];
    assert k in ks;
    forall j | j in m ensures j <= k {
      assert j in ks;
    }
  }

  /** The largest key of a non-empty dictionary (Python `max(d)`). */
  function MaxKey<V>(m: map<nat, V>): (k: nat)
    requires |m| > 0
    ensures k in m && forall j | j in m :: j <= k
  {
    MaxExists(m);
    var k :| k in m && forall j | j in m :: j <= k;
    k
  }

  /** A strictly ascending listing of a set is unique. */
  lemma {:induction false} AscendingUnique(a: seq<nat>, b: seq<nat>)
    requires StrictlyAscending(a) && StrictlyAscending(b)
    requires forall k :: k in a <==> k in b
    ensures a == b
    decreases |a|
  {
    if a != [] && b != [] {
      assert a[0] == b[0] by {
        assert a[0] in b && b[0] in a;
      }
      forall k ensures k in a[1..] <==> k in b[1..] {
        if k in a[1..] {
          assert k in b;
          assert k != b[0];
        }
        if k in b[1..] {
          assert k in a;
          assert k != a[0];
        }
      }
      AscendingUnique(a[1..], b[1..]);
      assert a == [a[0]] + a[1..] && b == [b[0]] + b[1..];
    } else if a != [] {
      HeadIn(a);
      assert false;
    } else if b != [] {
      HeadIn(b);
      assert false;
    }
  }

  lemma HeadIn(s: seq<nat>)
    requires s != []
    ensures s[0] in s
  {
  }

  /** Dictionaries with the same keys are sorted alike, whatever their values. */
  lemma SortedSameKeys<V, W>(m: map<nat, V>, n: map<nat, W>)
    requires forall k :: k in m <==> k in n
    ensures Sorted(m) == Sorted(n)
  {
    SortedFacts(m);
    SortedFacts(n);
    AscendingUnique(Sorted(m), Sorted(n));
  }
}
