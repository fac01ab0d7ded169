/** Walking up a finite table of parent links.

Topics, posts, legacy replies and legacy categories are all stored as rows that name at most one
parent. Everything the service says about ancestry, cycles and roots is a statement about this walk.
*/
module ParentLinks {
  import opened Basics

  /** For each stored row, the parent it names (which need not be stored itself). */
  type Links<K> = map<K, Option<K>>

  /** The row reached from `d` by `k` parent hops, if the walk gets that far. */
  ghost function Climb<K>(up: Links<K>, d: K, k: nat): Option<K>
    decreases k
  {
    if d !in up then None
    else if k == 0 then Some(d)
    else if up[d].None? then None
    else Climb(up, up[d].value, k - 1)
  }

  /** Every named parent is itself stored. */
  ghost predicate Closed<K>(up: Links<K>) {
    forall d :: d in up && up[d].Some? ==> up[d].value in up
  }

  /** No row is its own ancestor. */
  ghost predicate Acyclic<K(!new)>(up: Links<K>) {
    forall d, k: nat {:trigger Climb(up, d, k)} :: k > 0 ==> Climb(up, d, k) != Some(d)
  }

  ghost predicate Sound<K(!new)>(up: Links<K>) {
    Closed(up) && Acyclic(up)
  }

  /** After `k` hops the walk from `d` stands on a row without a parent. */
  ghost predicate RootAt<K>(up: Links<K>, d: K, k: nat) {
    var top := Climb(up, d, k);
    top.Some? && top.value in up && up[top.value].None?
  }

  ghost predicate Rooted<K>(up: Links<K>, d: K) {
    exists k: nat :: RootAt(up, d, k)
  }

  /** The walk from `d` meets a row that is its own ancestor (possibly `d` itself). */
  ghost predicate BelowCycle<K(!new)>(up: Links<K>, d: K) {
    exists i: nat, c, p: nat :: p > 0 && Climb(up, d, i) == Some(c) && Climb(up, c, p) == Some(c)
  }

  lemma {:induction false} ClimbStored<K>(up: Links<K>, d: K, k: nat)
    ensures Climb(up, d, k).Some? ==> d in up && Climb(up, d, k).value in up
    decreases k
  {
    if d in up && k > 0 && up[d].Some? {
      ClimbStored(up, up[d].value, k - 1);
    }
  }

  /** Hops compose: `j + k` hops are `j` hops followed by `k`. */
  lemma {:induction false} ClimbAdd<K>(up: Links<K>, d: K, j: nat, k: nat)
    ensures Climb(up, d, j + k) ==
            if Climb(up, d, j).None? then None else Climb(up, Climb(up, d, j).value, k)
    decreases j
  {
    if d in up && j > 0 && up[d].Some? {
      ClimbAdd(up, up[d].value, j - 1, k);
      assert Climb(up, d, j + k) == Climb(up, up[d].value, j - 1 + k);
    }
  }

  /** A walk that reaches `n` hops passed through every smaller count. */
  lemma ClimbPrefix<K>(up: Links<K>, d: K, m: nat, n: nat)
    requires m <= n && Climb(up, d, n).Some?
    ensures Climb(up, d, m).Some?
  {
    ClimbAdd(up, d, m, n - m);
  }

  /** One hop at the far end of a walk. */
  lemma ClimbNext<K>(up: Links<K>, d: K, k: nat)
    ensures Climb(up, d, k + 1) ==
            if Climb(up, d, k).None? then None
            else var a := Climb(up, d, k).value;
                 if a in up && up[a].Some? && up[a].value in up then up[a] else None
  {
    ClimbAdd(up, d, k, 1);
    ClimbStored(up, d, k);
  }

  /** A walk that stands on a root goes no further, so a row has at most one distance to its root. */
  lemma RootUnique<K>(up: Links<K>, d: K, j: nat, k: nat)
    requires RootAt(up, d, j) && RootAt(up, d, k)
    ensures j == k
  {
    if j < k {
      ClimbNext(up, d, j);
      ClimbPrefix(up, d, j + 1, k);
    } else if k < j {
      ClimbNext(up, d, k);
      ClimbPrefix(up, d, k + 1, j);
    }
  }

  /** A row that is its own ancestor can be climbed from forever. */
  lemma {:induction false} CycleForever<K>(up: Links<K>, c: K, p: nat, n: nat)
    requires p > 0 && Climb(up, c, p) == Some(c)
    ensures Climb(up, c, n).Some?
    decreases n
  {
    if n <= p {
      ClimbPrefix(up, c, n, p);
    } else {
      CycleForever(up, c, p, n - p);
      ClimbAdd(up, c, p, n - p);
    }
  }

  /** Two visits to one row during a walk exhibit a cycle. */
  lemma RepeatIsCycle<K(!new)>(up: Links<K>, d: K, i: nat, j: nat)
    requires i < j && Climb(up, d, i).Some? && Climb(up, d, i) == Climb(up, d, j)
    ensures Climb(up, Climb(up, d, i).value, j - i) == Climb(up, d, i)
    ensures BelowCycle(up, d)
  {
    ClimbAdd(up, d, i, j - i);
  }

  /** Pigeonhole: a walk with at least as many hops as stored rows repeats a row. */
  lemma LongWalkRepeats<K(!new)>(up: Links<K>, d: K, n: nat)
    requires n >= |up| && Climb(up, d, n).Some?
    ensures BelowCycle(up, d)
  {
    forall i: nat | i <= n ensures Climb(up, d, i).Some? && Climb(up, d, i).value in up {
      ClimbPrefix(up, d, i, n);
      ClimbStored(up, d, i);
    }
    var walk := seq(n + 1, i requires 0 <= i <= n => Climb(up, d, i).value);
    if Distinct(walk) {
      DistinctFits(walk, up.Keys);
    } else {
      var i, j :| 0 <= i < j < |walk| && walk[i] == walk[j];
      RepeatIsCycle(up, d, i, j);
    }
  }

  /** With every parent stored, the rows that reach a root are exactly those not on or below a cycle. */
  lemma RootedOrCycle<K(!new)>(up: Links<K>, d: K)
    requires Closed(up) && d in up
    ensures Rooted(up, d) <==> !BelowCycle(up, d)
  {
    if !Rooted(up, d) {
      ClimbsOn(up, d, |up|);
      LongWalkRepeats(up, d, |up|);
    }
    if Rooted(up, d) && BelowCycle(up, d) {
      var k: nat :| RootAt(up, d, k);
      var i: nat, c, p: nat :| p > 0 && Climb(up, d, i) == Some(c) && Climb(up, c, p) == Some(c);
      CycleForever(up, c, p, k + 1);
      ClimbAdd(up, d, i, k + 1);
      ClimbPrefix(up, d, k + 1, i + k + 1);
      ClimbNext(up, d, k);
    }
  }

  /** Without a root in reach, and with every parent stored, the walk never stops. */
  lemma {:induction false} ClimbsOn<K>(up: Links<K>, d: K, n: nat)
    requires Closed(up) && d in up && !Rooted(up, d)
    ensures Climb(up, d, n).Some?
    decreases n
  {
    if n > 0 {
      ClimbsOn(up, d, n - 1);
      ClimbStored(up, d, n - 1);
      assert !RootAt(up, d, n - 1);
      ClimbNext(up, d, n - 1);
    }
  }

  lemma SoundIsRooted<K(!new)>(up: Links<K>, d: K)
    requires Sound(up) && d in up
    ensures Rooted(up, d)
  {
    RootedOrCycle(up, d);
  }

  /** In a sound table a row is met at most once on a walk. */
  lemma DepthUnique<K(!new)>(up: Links<K>, d: K, i: nat, j: nat)
    requires Acyclic(up) && Climb(up, d, i).Some? && Climb(up, d, i) == Climb(up, d, j)
    ensures i == j
  {
    if i < j {
      RepeatIsCycle(up, d, i, j);
    } else if j < i {
      RepeatIsCycle(up, d, j, i);
    }
  }

  /** The number of hops to the root. */
  ghost function Height<K(!new)>(up: Links<K>, d: K): (h: nat)
    requires Rooted(up, d)
    ensures RootAt(up, d, h)
    ensures h < |up|
  {
    var h: nat :| RootAt(up, d, h);
    assert h < |up| by {
      if h >= |up| {
        LongWalkRepeats(up, d, h);
        var i: nat, c, p: nat :| p > 0 && Climb(up, d, i) == Some(c) && Climb(up, c, p) == Some(c);
        CycleForever(up, c, p, h + 1);
        ClimbAdd(up, d, i, h + 1);
        ClimbPrefix(up, d, h + 1, i + h + 1);
        ClimbNext(up, d, h);
      }
    }
    h
  }

  lemma HeightIs<K(!new)>(up: Links<K>, d: K, k: nat)
    requires RootAt(up, d, k)
    ensures Rooted(up, d) && Height(up, d) == k
  {
    RootUnique(up, d, k, Height(up, d));
  }

  /** The whole walk from `d` to its root, `d` first. */
  ghost function Chain<K(!new)>(up: Links<K>, d: K): (chain: seq<K>)
    requires Rooted(up, d)
    ensures |chain| == Height(up, d) + 1 && chain[0] == d
    ensures forall i :: 0 <= i < |chain| ==> Climb(up, d, i) == Some(chain[i]) && chain[i] in up
    ensures forall k: nat :: k >= |chain| ==> Climb(up, d, k).None?
  {
    var h := Height(up, d);
    assert forall i: nat :: i <= h ==> Climb(up, d, i).Some? && Climb(up, d, i).value in up by {
      forall i: nat | i <= h ensures Climb(up, d, i).Some? && Climb(up, d, i).value in up {
        ClimbPrefix(up, d, i, h);
        ClimbStored(up, d, i);
      }
    }
    assert forall k: nat :: k > h ==> Climb(up, d, k).None? by {
      forall k: nat | k > h ensures Climb(up, d, k).None? {
        ClimbNext(up, d, h);
        if Climb(up, d, k).Some? {
          ClimbPrefix(up, d, h + 1, k);
        }
      }
    }
    assert d in up by { ClimbStored(up, d, h); }
    seq(h + 1, i requires 0 <= i <= h => Climb(up, d, i).value)
  }

  /** The chain of an ancestor is the tail of the chain. */
  lemma ChainSuffix<K(!new)>(up: Links<K>, d: K, a: K, k: nat)
    requires Rooted(up, d) && Climb(up, d, k) == Some(a)
    ensures Rooted(up, a) && k < |Chain(up, d)|
    ensures Chain(up, a) == Chain(up, d)[k..]
  {
    var chain := Chain(up, d);
    var h := Height(up, d);
    assert k <= h;
    ClimbAdd(up, d, k, h - k);
    assert RootAt(up, a, h - k);
    HeightIs(up, a, h - k);
    forall i | 0 <= i <= h - k ensures Chain(up, a)[i] == chain[k..][i] {
      ClimbAdd(up, d, k, i);
    }
  }

  /** Adding a new row under a stored parent (or as a root) leaves every existing walk alone. */
  lemma {:induction false} ClimbExtend<K>(up: Links<K>, x: K, parent: Option<K>, d: K, k: nat)
    requires Closed(up) && x !in up && d in up
    ensures Climb(up[x := parent], d, k) == Climb(up, d, k)
    decreases k
  {
    if k > 0 && up[d].Some? {
      ClimbExtend(up, x, parent, up[d].value, k - 1);
    }
  }

  /** The walk of the new row is one hop followed by its parent's walk. */
  lemma ClimbNew<K>(up: Links<K>, x: K, parent: Option<K>, k: nat)
    requires Closed(up) && x !in up && (parent.Some? ==> parent.value in up)
    ensures Climb(up[x := parent], x, k) ==
            if k == 0 then Some(x)
            else if parent.None? then None
            else Climb(up, parent.value, k - 1)
  {
    if k > 0 && parent.Some? {
      ClimbExtend(up, x, parent, parent.value, k - 1);
    }
  }

  /** Adding a leaf under a stored parent keeps the table sound. */
  lemma SoundExtend<K(!new)>(up: Links<K>, x: K, parent: Option<K>)
    requires Sound(up) && x !in up && (parent.Some? ==> parent.value in up)
    ensures Sound(up[x := parent])
  {
    var wider := up[x := parent];
    forall d, k: nat | k > 0 ensures Climb(wider, d, k) != Some(d) {
      if d in up {
        ClimbExtend(up, x, parent, d, k);
      } else if d == x {
        ClimbNew(up, x, parent, k);
        if parent.Some? { ClimbStored(up, parent.value, k - 1); }
      }
    }
  }

  /** The rows met in the first `k` steps of a walk. */
  ghost function WalkSet<K>(up: Links<K>, d: K, k: nat): set<K> {
    if k == 0 then {}
    else
      var a := Climb(up, d, k - 1);
      WalkSet(up, d, k - 1) + (if a.Some? then {a.value} else {})
  }

  lemma {:induction false} WalkSetMember<K>(up: Links<K>, d: K, k: nat, a: K) returns (i: nat)
    requires a in WalkSet(up, d, k)
    ensures i < k && Climb(up, d, i) == Some(a)
  {
    if Climb(up, d, k - 1) == Some(a) {
      i := k - 1;
    } else {
      i := WalkSetMember(up, d, k - 1, a);
    }
  }
}
