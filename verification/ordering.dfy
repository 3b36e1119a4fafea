/** The move-ordering pass of the alpha-beta nodes: every move gets the
    immediate utility of the board it produces, the utilities are sorted in
    descending order, and for each utility of that sorted list every move with
    that utility is appended, in the original order. */
module Ordering {
  import opened Othello

  /** s is sorted in descending (non-increasing) order. */
  predicate Descending(s: seq<int>)
  {
    forall i, j :: 0 <= i < j < |s| ==> s[i] >= s[j]
  }

  /** Inserts x into a descending list, before the first element not larger than x. */
  function Insert(x: int, s: seq<int>): (t: seq<int>)
    requires Descending(s)
    ensures multiset(t) == multiset(s) + multiset{x}
    ensures Descending(t)
  {
    if s == [] then [x]
    else if x >= s[0] then [x] + s
    else
      var rest := Insert(x, s[1..]);
      assert s == [s[0]] + s[1..];
      assert forall k :: 0 <= k < |rest| ==> rest[k] <= s[0] by {
        forall k | 0 <= k < |rest| ensures rest[k] <= s[0] {
          assert rest[k] in multiset(rest);
          assert rest[k] == x || rest[k] in s[1..];
        }
      }
      [s[0]] + rest
  }

  /** util_list.sort(reverse=True): the descending permutation of s. */
  function SortDescending(s: seq<int>): (t: seq<int>)
    ensures multiset(t) == multiset(s)
    ensures Descending(t)
  {
    if s == [] then []
    else
      assert s == s[..|s| - 1] + [s[|s| - 1]];
      Insert(s[|s| - 1], SortDescending(s[..|s| - 1]))
  }

  /** util_list before sorting: the key of each move, in the order of the moves. */
  function UtilityList(ms: seq<Move>, key: Move -> int): (us: seq<int>)
    ensures |us| == |ms|
    ensures forall k :: 0 <= k < |ms| ==> us[k] == key(ms[k])
  {
    if ms == [] then []
    else UtilityList(ms[..|ms| - 1], key) + [key(ms[|ms| - 1])]
  }

  /** The moves of ms whose key is u, in their order in ms (one pass of the inner loop). */
  function Tier(ms: seq<Move>, key: Move -> int, u: int): (t: seq<Move>)
    ensures forall m :: m in t <==> m in ms && key(m) == u
  {
    if ms == [] then []
    else
      var last := ms[|ms| - 1];
      assert ms == ms[..|ms| - 1] + [last];
      Tier(ms[..|ms| - 1], key, u) + (if key(last) == u then [last] else [])
  }

  /** move_list_ordered after the outer loop has visited the utilities us. */
  function Reorder(ms: seq<Move>, key: Move -> int, us: seq<int>): (o: seq<Move>)
    ensures forall m :: m in o ==> m in ms && key(m) in us
  {
    if us == [] then []
    else Reorder(ms, key, us[..|us| - 1]) + Tier(ms, key, us[|us| - 1])
  }

  /** The reordered move list that the ordering block produces. */
  function OrderedMoves(ms: seq<Move>, key: Move -> int): (o: seq<Move>)
    ensures forall m :: m in o ==> m in ms
  {
    Reorder(ms, key, SortDescending(UtilityList(ms, key)))
  }

  /** The ordering block of alphabeta_min_node and alphabeta_max_node; key(m) is
      compute_utility of the board obtained by playing m. */
  method OrderMoves(ms: seq<Move>, key: Move -> int) returns (ordered: seq<Move>)
    ensures ordered == OrderedMoves(ms, key)
  {
    var utilOf, utils := TabulateUtilities(ms, key);
    var sorted := SortDescending(utils);
    ordered := CollectTiers(ms, key, utilOf, sorted);
  }

  /** The first loop of the ordering block: board_util_dict and util_list. */
  method TabulateUtilities(ms: seq<Move>, key: Move -> int) returns (utilOf: map<Move, int>, utils: seq<int>)
    ensures utils == UtilityList(ms, key)
    ensures forall m :: m in utilOf <==> m in ms
    ensures forall m :: m in utilOf ==> utilOf[m] == key(m)
  {
    utilOf, utils := map[], [];
    for i := 0 to |ms|
      invariant utils == UtilityList(ms[..i], key)
      invariant forall m :: m in utilOf <==> m in ms[..i]
      invariant forall m :: m in utilOf ==> utilOf[m] == key(m)
    {
      var u := key(ms[i]);
      utilOf := utilOf[ms[i] := u];
      assert ms[..i + 1] == ms[..i] + [ms[i]];
      utils := utils + [u];
    }
    assert ms[..|ms|] == ms;
  }

  /** The nested loops of the ordering block: for each utility of the sorted
      list, append every move whose tabulated utility equals it. */
  method CollectTiers(ms: seq<Move>, key: Move -> int, utilOf: map<Move, int>, sorted: seq<int>)
    returns (ordered: seq<Move>)
    requires forall m :: m in ms ==> m in utilOf && utilOf[m] == key(m)
    ensures ordered == Reorder(ms, key, sorted)
  {
    ordered := [];
    for i := 0 to |sorted|
      invariant ordered == Reorder(ms, key, sorted[..i])
    {
      ordered := AppendTier(ms, key, utilOf, sorted[i], ordered);
      assert sorted[..i + 1][..i] == sorted[..i];
    }
    assert sorted[..|sorted|] == sorted;
  }

  /** The inner loop: appends, in their order, the moves whose tabulated utility is u. */
  method AppendTier(ms: seq<Move>, key: Move -> int, utilOf: map<Move, int>, u: int, acc: seq<Move>)
    returns (ordered: seq<Move>)
    requires forall m :: m in ms ==> m in utilOf && utilOf[m] == key(m)
    ensures ordered == acc + Tier(ms, key, u)
  {
    ordered := acc;
    for j := 0 to |ms|
      invariant ordered == acc + Tier(ms[..j], key, u)
    {
      assert ms[..j + 1][..j] == ms[..j];
      if utilOf[ms[j]] == u {
        ordered := ordered + [ms[j]];
      }
    }
    assert ms[..|ms|] == ms;
  }

  /** Number of occurrences of u in s. */
  function Count(s: seq<int>, u: int): nat
  {
    multiset(s)[u]
  }

  /** s repeated n times. */
  function Repeat(s: seq<Move>, n: nat): seq<Move>
  {
    if n == 0 then [] else Repeat(s, n - 1) + s
  }

  lemma {:induction false} TierMultiplicity(ms: seq<Move>, key: Move -> int, u: int, m: Move)
    ensures multiset(Tier(ms, key, u))[m] == if key(m) == u then multiset(ms)[m] else 0
  {
    if ms != [] {
      var init := ms[..|ms| - 1];
      assert ms == init + [ms[|ms| - 1]];
      TierMultiplicity(init, key, u, m);
    }
  }

  /** Arithmetic step of ReorderMultiplicity, kept apart so that the solver
      sees it without the multiset facts around it. */
  lemma Distribute(a: int, o: int)
    ensures (a + 1) * o == a * o + o
  {
  }

  /** Arithmetic step of OrderedMovesMultiplicity, kept apart for the same reason. */
  lemma ProductPositive(a: nat, b: nat)
    requires a >= 1 && b >= 1
    ensures a * b >= 1
  {
  }

  lemma {:induction false} ReorderMultiplicity(ms: seq<Move>, key: Move -> int, us: seq<int>, m: Move)
    ensures multiset(Reorder(ms, key, us))[m] == multiset(us)[key(m)] * multiset(ms)[m]
  {
    if us != [] {
      var init := us[..|us| - 1];
      assert us == init + [us[|us| - 1]];
      var v := us[|us| - 1];
      ReorderMultiplicity(ms, key, init, m);
      TierMultiplicity(ms, key, v, m);
      var a := multiset(init)[key(m)];
      var o := multiset(ms)[m];
      var prefix := Reorder(ms, key, init);
      var tier := Tier(ms, key, v);
      assert Reorder(ms, key, us) == prefix + tier;
      assert multiset(prefix + tier)[m] == multiset(prefix)[m] + multiset(tier)[m];
      if key(m) == v {
        assert multiset(us)[key(m)] == a + 1;
        Distribute(a, o);
      } else {
        assert multiset(us)[key(m)] == a;
      }
    }
  }

  /** The reordered list holds each original move once for every original
      move that shares its immediate utility (ties produce duplicates), times
      the number of times it occurs in the original list; hence it holds
      every original move and no other. */
  lemma OrderedMovesMultiplicity(ms: seq<Move>, key: Move -> int, m: Move)
    ensures multiset(OrderedMoves(ms, key))[m]
         == Count(UtilityList(ms, key), key(m)) * multiset(ms)[m]
    ensures m in OrderedMoves(ms, key) <==> m in ms
  {
    var us := UtilityList(ms, key);
    var o := OrderedMoves(ms, key);
    ReorderMultiplicity(ms, key, SortDescending(us), m);
    var count := Count(us, key(m));
    var occurrences := multiset(ms)[m];
    if m in ms {
      var k :| 0 <= k < |ms| && ms[k] == m;
      assert us[k] == key(m);
      assert key(m) in multiset(us);
      ProductPositive(count, occurrences);
      assert m in multiset(o);
    } else {
      assert occurrences == 0;
      assert count * occurrences == 0;
      assert m !in multiset(o);
    }
  }

  /** The reordered list is non-increasing in the immediate utility. */
  lemma {:induction false} ReorderDescending(ms: seq<Move>, key: Move -> int, us: seq<int>)
    requires Descending(us)
    ensures forall i, j :: 0 <= i < j < |Reorder(ms, key, us)| ==>
      key(Reorder(ms, key, us)[i]) >= key(Reorder(ms, key, us)[j])
  {
    if us != [] {
      var init := us[..|us| - 1];
      var u := us[|us| - 1];
      ReorderDescending(ms, key, init);
      var a := Reorder(ms, key, init);
      var t := Tier(ms, key, u);
      assert Reorder(ms, key, us) == a + t;
      forall i, j | 0 <= i < j < |a + t|
        ensures key((a + t)[i]) >= key((a + t)[j])
      {
        if j >= |a| {
          assert (a + t)[j] in t;
          if i < |a| {
            assert a[i] in a;
            var k :| 0 <= k < |init| && init[k] == key(a[i]);
            assert us[k] >= us[|us| - 1];
          } else {
            assert (a + t)[i] in t;
          }
        }
      }
    }
  }

  lemma OrderedMovesDescending(ms: seq<Move>, key: Move -> int)
    ensures forall i, j :: 0 <= i < j < |OrderedMoves(ms, key)| ==>
      key(OrderedMoves(ms, key)[i]) >= key(OrderedMoves(ms, key)[j])
  {
    ReorderDescending(ms, key, SortDescending(UtilityList(ms, key)));
  }

  lemma {:induction false} TierAppend(a: seq<Move>, b: seq<Move>, key: Move -> int, u: int)
    ensures Tier(a + b, key, u) == Tier(a, key, u) + Tier(b, key, u)
  {
    if b == [] {
      assert a + b == a;
    } else {
      var init := b[..|b| - 1];
      assert (a + b)[..|a + b| - 1] == a + init;
      assert (a + b)[|a + b| - 1] == b[|b| - 1];
      TierAppend(a, init, key, u);
    }
  }

  lemma {:induction false} TierOfTier(ms: seq<Move>, key: Move -> int, v: int, u: int)
    ensures Tier(Tier(ms, key, v), key, u) == if v == u then Tier(ms, key, u) else []
  {
    if ms != [] {
      var init := ms[..|ms| - 1];
      var last := ms[|ms| - 1];
      TierOfTier(init, key, v, u);
      TierAppend(Tier(init, key, v), if key(last) == v then [last] else [], key, u);
      assert Tier([last], key, u) == (if key(last) == u then [last] else []) by {
        assert [last][..0] == [];
      }
    }
  }

  /** Within one utility tier the reordered list keeps the original relative
      order: the moves of utility u appear as the original tier of u, repeated
      once for every occurrence of u among the utilities. */
  lemma {:induction false} ReorderTiers(ms: seq<Move>, key: Move -> int, us: seq<int>, u: int)
    ensures Tier(Reorder(ms, key, us), key, u) == Repeat(Tier(ms, key, u), Count(us, u))
  {
    if us != [] {
      var init := us[..|us| - 1];
      var v := us[|us| - 1];
      assert us == init + [v];
      ReorderTiers(ms, key, init, u);
      TierAppend(Reorder(ms, key, init), Tier(ms, key, v), key, u);
      TierOfTier(ms, key, v, u);
      if v == u {
        assert Count(us, u) == Count(init, u) + 1;
      } else {
        assert Count(us, u) == Count(init, u);
      }
    }
  }

  lemma OrderedMovesTiers(ms: seq<Move>, key: Move -> int, u: int)
    ensures Tier(OrderedMoves(ms, key), key, u)
         == Repeat(Tier(ms, key, u), Count(UtilityList(ms, key), u))
  {
    var us := UtilityList(ms, key);
    ReorderTiers(ms, key, SortDescending(us), u);
    assert Count(SortDescending(us), u) == Count(us, u);
  }

  /** A tier is a subsequence of the original list: idx gives, strictly
      increasing, the position in ms of each element of the tier. */
  lemma {:induction false} TierIsSubsequence(ms: seq<Move>, key: Move -> int, u: int) returns (idx: seq<nat>)
    ensures |idx| == |Tier(ms, key, u)|
    ensures forall k :: 0 <= k < |idx| ==> idx[k] < |ms| && Tier(ms, key, u)[k] == ms[idx[k]]
    ensures forall k, l :: 0 <= k < l < |idx| ==> idx[k] < idx[l]
  {
    if ms == [] {
      idx := [];
    } else {
      var n := |ms| - 1;
      var init := ms[..n];
      var rest := TierIsSubsequence(init, key, u);
      if key(ms[n]) == u {
        idx := rest + [n];
      } else {
        idx := rest;
      }
    }
  }
}
