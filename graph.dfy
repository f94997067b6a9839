/**
 * The person arena as a value, and the reachability sets the two
 * traversals `explore` and `_explore_blood` compute.
 *
 * Acyclicity of the parent/child links is witnessed by a rank: every child
 * ranks strictly below its parent. Only with such a rank does the
 * descendant flood of the source, which keeps no visited set, terminate.
 */
module Graph {
  import opened Relationship
  import opened Family

  type People = map<int, Person>

  /** Every link of every member points at a member. */
  predicate Closed(ps: People) {
    forall x, i :: x in ps && 0 <= i < |ps[x].family| ==> ps[x].family[i].personId in ps
  }

  /** A link from `x` respects the rank: children rank below `x`, parents above. */
  ghost predicate LinkRanked(rank: map<int, nat>, x: int, l: Link) {
    && x in rank && l.personId in rank
    && (IsChild(l.relation) ==> rank[l.personId] < rank[x])
    && (IsParent(l.relation) ==> rank[x] < rank[l.personId])
  }

  /** `rank` witnesses that following child links (or parent links
      backwards) never returns to where it started. */
  ghost predicate Ranked(ps: People, rank: map<int, nat>) {
    && ps.Keys <= rank.Keys
    && forall x, i :: x in ps && 0 <= i < |ps[x].family| ==> LinkRanked(rank, x, ps[x].family[i])
  }

  /** The targets of the child-kind links of a link list, as a set. */
  function ChildTargets(fam: seq<Link>): set<int> {
    set i | 0 <= i < |fam| && IsChild(fam[i].relation) :: fam[i].personId
  }

  /** The targets of the parent-kind links of a link list, as a set. */
  function ParentTargets(fam: seq<Link>): set<int> {
    set i | 0 <= i < |fam| && IsParent(fam[i].relation) :: fam[i].personId
  }

  /** The sets agree with the `children` and `parents` views. */
  lemma TargetSetsAreViews(p: Person)
    ensures forall c :: c in ChildTargets(p.family) <==> c in p.Children()
    ensures forall c :: c in ParentTargets(p.family) <==> c in p.Parents()
  {
  }

  /** The parents of the members of `s`, as a set. */
  function ParentSet(ps: People, s: set<int>): set<int> {
    set x, p | x in s && x in ps && p in ParentTargets(ps[x].family) :: p
  }

  lemma ChildRanked(ps: People, rank: map<int, nat>, x: int, c: int)
    requires Closed(ps) && Ranked(ps, rank) && x in ps && c in ChildTargets(ps[x].family)
    ensures c in ps && c in rank && rank[c] < rank[x]
  {
    var i :| 0 <= i < |ps[x].family| && IsChild(ps[x].family[i].relation) && ps[x].family[i].personId == c;
    assert LinkRanked(rank, x, ps[x].family[i]);
  }

  lemma ParentSetInKeys(ps: People, s: set<int>)
    requires Closed(ps)
    ensures ParentSet(ps, s) <= ps.Keys
  {
    forall p | p in ParentSet(ps, s)
      ensures p in ps
    {
      var x :| x in s && x in ps && p in ParentTargets(ps[x].family);
      var i :| 0 <= i < |ps[x].family| && IsParent(ps[x].family[i].relation) && ps[x].family[i].personId == p;
    }
  }

  /** Every child-kind link of `fam` leads to a member ranked below `bound`. */
  ghost predicate Below(ps: People, rank: map<int, nat>, fam: seq<Link>, bound: nat) {
    forall i :: 0 <= i < |fam| && IsChild(fam[i].relation) ==>
      fam[i].personId in ps && fam[i].personId in rank && rank[fam[i].personId] < bound
  }

  /** `x` and everything reachable from it along child links. */
  ghost function Desc(ps: People, rank: map<int, nat>, x: int): set<int>
    requires Closed(ps) && Ranked(ps, rank) && x in ps
    decreases rank[x], 1
  {
    {x} + DescLinks(ps, rank, ps[x].family, rank[x])
  }

  /** The descendants reached through the child-kind links of `fam`. */
  ghost function DescLinks(ps: People, rank: map<int, nat>, fam: seq<Link>, bound: nat): set<int>
    requires Closed(ps) && Ranked(ps, rank) && Below(ps, rank, fam, bound)
    decreases bound, 0, |fam|
  {
    if fam == [] then {}
    else
      (if IsChild(fam[0].relation) then Desc(ps, rank, fam[0].personId) else {})
      + DescLinks(ps, rank, fam[1..], bound)
  }

  /** The union of `Desc` over the members of `w`. */
  ghost function DescOf(ps: People, rank: map<int, nat>, w: set<int>): set<int>
    requires Closed(ps) && Ranked(ps, rank)
  {
    set x, y | x in w && x in ps && y in Desc(ps, rank, x) :: y
  }

  lemma ChildTargetsCons(fam: seq<Link>)
    requires fam != []
    ensures ChildTargets(fam) == (if IsChild(fam[0].relation) then {fam[0].personId} else {}) + ChildTargets(fam[1..])
  {
    var h := if IsChild(fam[0].relation) then {fam[0].personId} else {};
    forall y | y in ChildTargets(fam)
      ensures y in h + ChildTargets(fam[1..])
    {
      var i :| 0 <= i < |fam| && IsChild(fam[i].relation) && fam[i].personId == y;
      if i > 0 {
        assert fam[1..][i - 1] == fam[i];
      }
    }
    forall y | y in ChildTargets(fam[1..])
      ensures y in ChildTargets(fam)
    {
      var i :| 0 <= i < |fam[1..]| && IsChild(fam[1..][i].relation) && fam[1..][i].personId == y;
      assert fam[i + 1] == fam[1..][i];
    }
  }

  lemma DescOfUnion(ps: People, rank: map<int, nat>, a: set<int>, b: set<int>)
    requires Closed(ps) && Ranked(ps, rank)
    ensures DescOf(ps, rank, a + b) == DescOf(ps, rank, a) + DescOf(ps, rank, b)
  {
  }

  lemma DescOfSingle(ps: People, rank: map<int, nat>, x: int)
    requires Closed(ps) && Ranked(ps, rank) && x in ps
    ensures DescOf(ps, rank, {x}) == Desc(ps, rank, x)
  {
    forall y | y in Desc(ps, rank, x)
      ensures y in DescOf(ps, rank, {x})
    {
      assert x in {x};
    }
  }

  lemma DescOfEmpty(ps: People, rank: map<int, nat>)
    requires Closed(ps) && Ranked(ps, rank)
    ensures DescOf(ps, rank, {}) == {}
  {
  }

  lemma DescOfMonotone(ps: People, rank: map<int, nat>, a: set<int>, b: set<int>)
    requires Closed(ps) && Ranked(ps, rank) && a <= b
    ensures DescOf(ps, rank, a) <= DescOf(ps, rank, b)
  {
  }

  lemma {:induction false} DescLinksIsDescOf(ps: People, rank: map<int, nat>, fam: seq<Link>, bound: nat)
    requires Closed(ps) && Ranked(ps, rank) && Below(ps, rank, fam, bound)
    ensures DescLinks(ps, rank, fam, bound) == DescOf(ps, rank, ChildTargets(fam))
    decreases |fam|
  {
    if fam == [] {
      DescOfEmpty(ps, rank);
      assert ChildTargets(fam) == {};
    } else {
      DescLinksIsDescOf(ps, rank, fam[1..], bound);
      var h := if IsChild(fam[0].relation) then {fam[0].personId} else {};
      ChildTargetsCons(fam);
      DescOfUnion(ps, rank, h, ChildTargets(fam[1..]));
      if IsChild(fam[0].relation) {
        DescOfSingle(ps, rank, fam[0].personId);
      } else {
        DescOfEmpty(ps, rank);
      }
    }
  }

  /** A member's descendants: itself, and the descendants of its children. */
  lemma DescUnfold(ps: People, rank: map<int, nat>, x: int)
    requires Closed(ps) && Ranked(ps, rank) && x in ps
    ensures Desc(ps, rank, x) == {x} + DescOf(ps, rank, ChildTargets(ps[x].family))
  {
    DescLinksIsDescOf(ps, rank, ps[x].family, rank[x]);
  }

  lemma {:induction false} DescInKeys(ps: People, rank: map<int, nat>, x: int)
    requires Closed(ps) && Ranked(ps, rank) && x in ps
    ensures Desc(ps, rank, x) <= ps.Keys
    decreases rank[x]
  {
    DescUnfold(ps, rank, x);
    forall c | c in ChildTargets(ps[x].family)
      ensures Desc(ps, rank, c) <= ps.Keys
    {
      ChildRanked(ps, rank, x, c);
      DescInKeys(ps, rank, c);
    }
  }

  lemma DescOfInKeys(ps: People, rank: map<int, nat>, w: set<int>)
    requires Closed(ps) && Ranked(ps, rank)
    ensures DescOf(ps, rank, w) <= ps.Keys
  {
    forall x | x in w && x in ps
      ensures Desc(ps, rank, x) <= ps.Keys
    {
      DescInKeys(ps, rank, x);
    }
  }

  /** Every member of `w` is among its own descendants. */
  lemma DescOfContains(ps: People, rank: map<int, nat>, w: set<int>)
    requires Closed(ps) && Ranked(ps, rank) && w <= ps.Keys
    ensures w <= DescOf(ps, rank, w)
  {
    forall x | x in w
      ensures x in DescOf(ps, rank, w)
    {
      assert x in Desc(ps, rank, x);
    }
  }

  /** One step of the flood: taking `x` out of the worklist and putting its
      children in keeps the union of what is reachable, once `x` itself is
      counted as seen. */
  lemma DescOfPop(ps: People, rank: map<int, nat>, w: set<int>, x: int)
    requires Closed(ps) && Ranked(ps, rank) && x in w && x in ps
    ensures DescOf(ps, rank, w) == {x} + DescOf(ps, rank, (w - {x}) + ChildTargets(ps[x].family))
  {
    DescOfUnion(ps, rank, w - {x}, ChildTargets(ps[x].family));
    DescOfUnion(ps, rank, w - {x}, {x});
    assert w == (w - {x}) + {x};
    DescOfSingle(ps, rank, x);
    DescUnfold(ps, rank, x);
  }

  /** Descendant sets are closed under taking children. */
  lemma {:induction false} DescChildClosed(ps: People, rank: map<int, nat>, x: int, y: int, c: int)
    requires Closed(ps) && Ranked(ps, rank) && x in ps
    requires y in Desc(ps, rank, x) && y in ps && c in ChildTargets(ps[y].family)
    ensures c in Desc(ps, rank, x)
    decreases rank[x]
  {
    DescUnfold(ps, rank, x);
    ChildRanked(ps, rank, y, c);
    if y == x {
      assert c in Desc(ps, rank, c);
    } else {
      var c' :| c' in ChildTargets(ps[x].family) && c' in ps && y in Desc(ps, rank, c');
      ChildRanked(ps, rank, x, c');
      DescChildClosed(ps, rank, c', y, c);
    }
  }

  lemma DescOfChildClosed(ps: People, rank: map<int, nat>, w: set<int>, y: int, c: int)
    requires Closed(ps) && Ranked(ps, rank)
    requires y in DescOf(ps, rank, w) && y in ps && c in ChildTargets(ps[y].family)
    ensures c in DescOf(ps, rank, w)
  {
    var x :| x in w && x in ps && y in Desc(ps, rank, x);
    DescChildClosed(ps, rank, x, y, c);
  }

  // ---------------------------------------------------------------------
  // explore(levels)
  // ---------------------------------------------------------------------

  /** What `Tree.explore(levels)` returns: `{head}` at level 0; otherwise the
      previous level's set, the parents of its members, and every
      descendant of both (the worklist starts as a copy of the previous set,
      so its members' descendants are flooded too). */
  ghost function ExploreSpec(ps: People, rank: map<int, nat>, head: int, levels: nat): set<int>
    requires Closed(ps) && Ranked(ps, rank) && head in ps
    decreases levels
  {
    if levels == 0 then {head}
    else ExploreRound(ps, rank, ExploreSpec(ps, rank, head, levels - 1))
  }

  /** One round of `explore`: the set, the parents of its members, and
      every descendant of both. */
  ghost function ExploreRound(ps: People, rank: map<int, nat>, s: set<int>): set<int>
    requires Closed(ps) && Ranked(ps, rank)
  {
    s + DescOf(ps, rank, s + ParentSet(ps, s))
  }

  /** A round keeps what it started from. */
  lemma RoundGrows(ps: People, rank: map<int, nat>, s: set<int>)
    requires Closed(ps) && Ranked(ps, rank)
    ensures s <= ExploreRound(ps, rank, s)
  {
  }

  lemma {:induction false} ExploreInKeys(ps: People, rank: map<int, nat>, head: int, levels: nat)
    requires Closed(ps) && Ranked(ps, rank) && head in ps
    ensures ExploreSpec(ps, rank, head, levels) <= ps.Keys
  {
    if levels > 0 {
      ExploreInKeys(ps, rank, head, levels - 1);
      RoundInKeys(ps, rank, ExploreSpec(ps, rank, head, levels - 1));
    }
  }

  lemma RoundInKeys(ps: People, rank: map<int, nat>, s: set<int>)
    requires Closed(ps) && Ranked(ps, rank) && s <= ps.Keys
    ensures ExploreRound(ps, rank, s) <= ps.Keys
  {
    var d := DescOf(ps, rank, s + ParentSet(ps, s));
    DescOfInKeys(ps, rank, s + ParentSet(ps, s));
    UnionIn(s, d, ps.Keys);
  }

  lemma UnionIn(a: set<int>, b: set<int>, k: set<int>)
    requires a <= k && b <= k
    ensures a + b <= k
  {
  }

  /** One more level keeps everything the previous level found. */
  lemma ExploreStep(ps: People, rank: map<int, nat>, head: int, k: nat)
    requires Closed(ps) && Ranked(ps, rank) && head in ps
    ensures ExploreSpec(ps, rank, head, k) <= ExploreSpec(ps, rank, head, k + 1)
  {
    RoundGrows(ps, rank, ExploreSpec(ps, rank, head, k));
  }

  /** More levels never return fewer people. */
  lemma ExploreMonotone(ps: People, rank: map<int, nat>, head: int, n: nat, m: nat)
    requires Closed(ps) && Ranked(ps, rank) && head in ps && n <= m
    ensures ExploreSpec(ps, rank, head, n) <= ExploreSpec(ps, rank, head, m)
  {
    var f := (k: nat) => ExploreSpec(ps, rank, head, k);
    forall k: nat
      ensures f(k) <= f(k + 1)
    {
      ExploreStep(ps, rank, head, k);
    }
    ChainGrows(f, n, m);
  }

  /** A chain of sets in which each grows into the next. */
  lemma {:induction false} ChainGrows(f: nat -> set<int>, n: nat, m: nat)
    requires n <= m && forall k: nat :: f(k) <= f(k + 1)
    ensures f(n) <= f(m)
    decreases m
  {
    if n < m {
      ChainGrows(f, n, m - 1);
      assert f(m - 1) <= f(m);
    }
  }

  /** The head belongs to every level. */
  lemma ExploreHasHead(ps: People, rank: map<int, nat>, head: int, n: nat)
    requires Closed(ps) && Ranked(ps, rank) && head in ps
    ensures head in ExploreSpec(ps, rank, head, n)
  {
    ExploreMonotone(ps, rank, head, 0, n);
  }

  lemma SubsetTrans(a: set<int>, b: set<int>, c: set<int>)
    requires a <= b && b <= c
    ensures a <= c
  {
  }

  /** From level 1 on, the result is closed under children. */
  lemma ExploreChildClosed(ps: People, rank: map<int, nat>, head: int, n: nat, y: int, c: int)
    requires Closed(ps) && Ranked(ps, rank) && head in ps && n >= 1
    requires y in ExploreSpec(ps, rank, head, n) && y in ps && c in ChildTargets(ps[y].family)
    ensures c in ExploreSpec(ps, rank, head, n)
  {
    var prev := ExploreSpec(ps, rank, head, n - 1);
    assert ExploreSpec(ps, rank, head, n) == ExploreRound(ps, rank, prev);
    ExploreInKeys(ps, rank, head, n - 1);
    RoundChildClosed(ps, rank, prev, y, c);
  }

  lemma RoundChildClosed(ps: People, rank: map<int, nat>, s: set<int>, y: int, c: int)
    requires Closed(ps) && Ranked(ps, rank) && s <= ps.Keys
    requires y in ExploreRound(ps, rank, s) && y in ps && c in ChildTargets(ps[y].family)
    ensures c in ExploreRound(ps, rank, s)
  {
    var w := s + ParentSet(ps, s);
    ParentSetInKeys(ps, s);
    DescOfContains(ps, rank, w);
    DescOfChildClosed(ps, rank, w, y, c);
  }

  /** Each level holds the parents of every member of the level before it. */
  lemma ExploreHasParents(ps: People, rank: map<int, nat>, head: int, n: nat)
    requires Closed(ps) && Ranked(ps, rank) && head in ps && n >= 1
    ensures ParentSet(ps, ExploreSpec(ps, rank, head, n - 1)) <= ExploreSpec(ps, rank, head, n)
  {
    ExploreInKeys(ps, rank, head, n - 1);
    RoundHasParents(ps, rank, ExploreSpec(ps, rank, head, n - 1));
  }

  lemma RoundHasParents(ps: People, rank: map<int, nat>, s: set<int>)
    requires Closed(ps) && Ranked(ps, rank) && s <= ps.Keys
    ensures ParentSet(ps, s) <= ExploreRound(ps, rank, s)
  {
    ParentSetInKeys(ps, s);
    DescOfContains(ps, rank, s + ParentSet(ps, s));
  }

  // ---------------------------------------------------------------------
  // _explore_blood(levels, _seen, _top)
  // ---------------------------------------------------------------------

  lemma ProperSubsetCard(a: set<int>, b: set<int>)
    requires a < b
    ensures |a| < |b|
  {
    assert b == a + (b - a);
    assert (b - a) != {};
  }

  /** A seen set that grew within the members leaves fewer members unseen. */
  lemma UnseenShrinks(keys: set<int>, seen: set<int>, s: set<int>)
    requires seen <= s <= keys && s != seen
    ensures |keys - s| < |keys - seen|
  {
    ProperSubsetCard(seen, s);
    DiffCard(keys, s);
    DiffCard(keys, seen);
  }

  lemma DiffCard(keys: set<int>, a: set<int>)
    requires a <= keys
    ensures |keys - a| == |keys| - |a|
  {
    assert keys == a + (keys - a);
    assert a * (keys - a) == {};
  }

  /** What `_explore_blood(levels, seen, top)` returns. One pass adds the
      parents of `top` and all their descendants to `seen`; the next pass
      starts from those parents. With a level count the recursion stops
      when it reaches 0; without one, as soon as a pass adds nothing. */
  ghost function BloodFrom(ps: People, rank: map<int, nat>, levels: Option<nat>, seen: set<int>, top: set<int>): set<int>
    requires Closed(ps) && Ranked(ps, rank) && seen <= ps.Keys
    decreases levels.Some?, if levels.Some? then levels.value else |ps.Keys - seen|
  {
    if levels == Some(0) then seen
    else
      var next := ParentSet(ps, top);
      var s := seen + DescOf(ps, rank, next);
      DescOfInKeys(ps, rank, next);
      if levels.None? then
        if s == seen then s
        else
          ProperSubsetCard(ps.Keys - s, ps.Keys - seen);
          BloodFrom(ps, rank, None, s, next)
      else BloodFrom(ps, rank, Some(levels.value - 1), s, next)
  }

  /** One pass of `BloodFrom`, unfolded: `next` is the frontier's parents
      and `s` what has been seen once their descendants are added. */
  lemma BloodFromStep(ps: People, rank: map<int, nat>, levels: Option<nat>, seen: set<int>, top: set<int>, next: set<int>, s: set<int>)
    requires Closed(ps) && Ranked(ps, rank) && seen <= ps.Keys && levels != Some(0)
    requires next == ParentSet(ps, top) && s == seen + DescOf(ps, rank, next)
    ensures s <= ps.Keys
    ensures BloodFrom(ps, rank, levels, seen, top)
      == if levels.None? && s == seen then s
         else BloodFrom(ps, rank, if levels.None? then None else Some(levels.value - 1), s, next)
  {
    DescOfInKeys(ps, rank, next);
  }

  /** The unbounded traversal stops once a pass adds nothing new. */
  lemma BloodFromDone(ps: People, rank: map<int, nat>, seen: set<int>, top: set<int>)
    requires Closed(ps) && Ranked(ps, rank) && seen <= ps.Keys
    requires seen + DescOf(ps, rank, ParentSet(ps, top)) == seen
    ensures BloodFrom(ps, rank, None, seen, top) == seen
  {
    BloodFromStep(ps, rank, None, seen, top, ParentSet(ps, top), seen);
  }

  /** The level bound for the next pass: one fewer, or still none. */
  function Fewer(levels: Option<nat>): (r: Option<nat>)
    requires levels != Some(0)
    ensures r.None? <==> levels.None?
    ensures levels.Some? ==> r.value + 1 == levels.value
  {
    if levels.None? then None else Some(levels.value - 1)
  }

  /** Otherwise it goes on from what the pass found; with a level count,
      one level fewer remains. */
  lemma BloodFromNext(ps: People, rank: map<int, nat>, levels: Option<nat>, seen: set<int>, top: set<int>, next: set<int>, s: set<int>, r: set<int>)
    requires Closed(ps) && Ranked(ps, rank) && seen <= ps.Keys && levels != Some(0)
    requires next == ParentSet(ps, top) && s == seen + DescOf(ps, rank, next) && s <= ps.Keys
    requires levels.None? ==> s != seen
    requires r == BloodFrom(ps, rank, Fewer(levels), s, next)
    ensures r == BloodFrom(ps, rank, levels, seen, top)
  {
    BloodFromStep(ps, rank, levels, seen, top, next, s);
  }

  /** `explore_blood(levels)`: the traversal started with `{head}` as both
      the seen set and the frontier. */
  ghost function BloodSpec(ps: People, rank: map<int, nat>, head: int, levels: Option<nat>): set<int>
    requires Closed(ps) && Ranked(ps, rank) && head in ps
  {
    BloodFrom(ps, rank, levels, {head}, {head})
  }

  /** The ancestors exactly `j` generations above the members of `top`. */
  function Level(ps: People, top: set<int>, j: nat): set<int>
    decreases j
  {
    if j == 0 then top else ParentSet(ps, Level(ps, top, j - 1))
  }

  /** The union, over the generations 1..k above `top`, of the descendants of
      the ancestors in that generation. */
  ghost function UpTo(ps: People, rank: map<int, nat>, top: set<int>, k: nat): set<int>
    requires Closed(ps) && Ranked(ps, rank)
    decreases k
  {
    if k == 0 then {} else UpTo(ps, rank, top, k - 1) + DescOf(ps, rank, Level(ps, top, k))
  }

  lemma {:induction false} LevelShift(ps: People, top: set<int>, j: nat)
    ensures Level(ps, ParentSet(ps, top), j) == Level(ps, top, j + 1)
  {
    if j > 0 {
      LevelShift(ps, top, j - 1);
    }
  }

  lemma {:induction false} UpToShift(ps: People, rank: map<int, nat>, top: set<int>, k: nat)
    requires Closed(ps) && Ranked(ps, rank)
    ensures UpTo(ps, rank, top, k + 1) == DescOf(ps, rank, ParentSet(ps, top)) + UpTo(ps, rank, ParentSet(ps, top), k)
  {
    LevelShift(ps, top, k);
    if k > 0 {
      UpToShift(ps, rank, top, k - 1);
    }
  }

  /** With a level count, the blood traversal is exactly: what it was given,
      plus, for each of the generations 1..levels above the frontier, every
      descendant of the ancestors in that generation. Ancestors are
      depth-bounded, their descendants are not. */
  lemma {:induction false} BloodLevels(ps: People, rank: map<int, nat>, k: nat, seen: set<int>, top: set<int>)
    requires Closed(ps) && Ranked(ps, rank) && seen <= ps.Keys
    ensures BloodFrom(ps, rank, Some(k), seen, top) == seen + UpTo(ps, rank, top, k)
    decreases k
  {
    if k > 0 {
      var next := ParentSet(ps, top);
      var s := seen + DescOf(ps, rank, next);
      DescOfInKeys(ps, rank, next);
      BloodFromStep(ps, rank, Some(k), seen, top, next, s);
      assert BloodFrom(ps, rank, Some(k), seen, top) == BloodFrom(ps, rank, Some(k - 1), s, next);
      BloodLevels(ps, rank, k - 1, s, next);
      UpToShift(ps, rank, top, k - 1);
      UnionAssoc(seen, DescOf(ps, rank, next), UpTo(ps, rank, next, k - 1));
    }
  }

  lemma UnionAssoc(a: set<int>, b: set<int>, c: set<int>)
    ensures (a + b) + c == a + (b + c)
  {
  }

  /** Membership, stated outright: the head, or a descendant of an
      ancestor at most `k` generations up. */
  lemma {:induction false} BloodMembers(ps: People, rank: map<int, nat>, head: int, k: nat, x: int)
    requires Closed(ps) && Ranked(ps, rank) && head in ps
    ensures x in BloodSpec(ps, rank, head, Some(k)) <==>
      x == head || exists j :: 1 <= j <= k && x in DescOf(ps, rank, Level(ps, {head}, j))
    decreases k
  {
    BloodLevels(ps, rank, k, {head}, {head});
    UpToMembers(ps, rank, {head}, k, x);
  }

  lemma {:induction false} UpToMembers(ps: People, rank: map<int, nat>, top: set<int>, k: nat, x: int)
    requires Closed(ps) && Ranked(ps, rank)
    ensures x in UpTo(ps, rank, top, k) <==> exists j :: 1 <= j <= k && x in DescOf(ps, rank, Level(ps, top, j))
  {
    if x in UpTo(ps, rank, top, k) {
      var j := UpToWitness(ps, rank, top, k, x);
    }
    if exists j :: 1 <= j <= k && x in DescOf(ps, rank, Level(ps, top, j)) {
      var j :| 1 <= j <= k && x in DescOf(ps, rank, Level(ps, top, j));
      UpToHas(ps, rank, top, k, j, x);
    }
  }

  lemma {:induction false} UpToWitness(ps: People, rank: map<int, nat>, top: set<int>, k: nat, x: int) returns (j: nat)
    requires Closed(ps) && Ranked(ps, rank) && x in UpTo(ps, rank, top, k)
    ensures 1 <= j <= k && x in DescOf(ps, rank, Level(ps, top, j))
    decreases k
  {
    if x in DescOf(ps, rank, Level(ps, top, k)) {
      j := k;
    } else {
      j := UpToWitness(ps, rank, top, k - 1, x);
    }
  }

  lemma {:induction false} UpToHas(ps: People, rank: map<int, nat>, top: set<int>, k: nat, j: nat, x: int)
    requires Closed(ps) && Ranked(ps, rank)
    requires 1 <= j <= k && x in DescOf(ps, rank, Level(ps, top, j))
    ensures x in UpTo(ps, rank, top, k)
    decreases k
  {
    if j < k {
      UpToHas(ps, rank, top, k - 1, j, x);
    }
  }

  /** The seen set a pass starts from is never lost. */
  lemma {:induction false} BloodGrows(ps: People, rank: map<int, nat>, levels: Option<nat>, seen: set<int>, top: set<int>)
    requires Closed(ps) && Ranked(ps, rank) && seen <= ps.Keys
    ensures seen <= BloodFrom(ps, rank, levels, seen, top) <= ps.Keys
    decreases levels.Some?, if levels.Some? then levels.value else |ps.Keys - seen|
  {
    if levels != Some(0) {
      var next := ParentSet(ps, top);
      var s := seen + DescOf(ps, rank, next);
      DescOfInKeys(ps, rank, next);
      if levels.None? {
        if s != seen {
          ProperSubsetCard(ps.Keys - s, ps.Keys - seen);
          BloodGrows(ps, rank, None, s, next);
        }
      } else {
        BloodGrows(ps, rank, Some(levels.value - 1), s, next);
      }
    }
  }

  /** One more level never removes anyone. */
  lemma {:induction false} BloodMonotone(ps: People, rank: map<int, nat>, k: nat, seen: set<int>, top: set<int>)
    requires Closed(ps) && Ranked(ps, rank) && seen <= ps.Keys
    ensures BloodFrom(ps, rank, Some(k), seen, top) <= BloodFrom(ps, rank, Some(k + 1), seen, top)
  {
    BloodLevels(ps, rank, k, seen, top);
    BloodLevels(ps, rank, k + 1, seen, top);
  }

  /** The unbounded traversal always makes at least one pass: it includes
      the parents of the frontier and all their descendants. */
  lemma BloodNoneOnePass(ps: People, rank: map<int, nat>, seen: set<int>, top: set<int>)
    requires Closed(ps) && Ranked(ps, rank) && seen <= ps.Keys
    ensures seen + DescOf(ps, rank, ParentSet(ps, top)) <= BloodFrom(ps, rank, None, seen, top)
  {
    var next := ParentSet(ps, top);
    var s := seen + DescOf(ps, rank, next);
    DescOfInKeys(ps, rank, next);
    if s != seen {
      ProperSubsetCard(ps.Keys - s, ps.Keys - seen);
      BloodGrows(ps, rank, None, s, next);
    }
  }

  /** `k` levels give what the unbounded traversal gives, and so does one
      level fewer: the passes have reached their fixpoint by level `k`. */
  ghost predicate FixpointLevel(ps: People, rank: map<int, nat>, seen: set<int>, top: set<int>, k: nat)
    requires Closed(ps) && Ranked(ps, rank) && seen <= ps.Keys
  {
    && k >= 1
    && BloodFrom(ps, rank, None, seen, top) == BloodFrom(ps, rank, Some(k), seen, top)
    && BloodFrom(ps, rank, Some(k), seen, top) == BloodFrom(ps, rank, Some(k - 1), seen, top)
  }

  /** The unbounded traversal is the bounded one at the first level count
      `k` at which one level fewer already gives the same set: it stops at
      a fixpoint of the passes, and what it returns is characterised level
      by level as for a bound. */
  lemma {:induction false} BloodNoneIsSomeLevel(ps: People, rank: map<int, nat>, seen: set<int>, top: set<int>) returns (k: nat)
    requires Closed(ps) && Ranked(ps, rank) && seen <= ps.Keys
    ensures FixpointLevel(ps, rank, seen, top, k)
    decreases |ps.Keys - seen|
  {
    var next := ParentSet(ps, top);
    var s := seen + DescOf(ps, rank, next);
    DescOfInKeys(ps, rank, next);
    if s == seen {
      k := BloodNoneStops(ps, rank, seen, top);
    } else {
      UnseenShrinks(ps.Keys, seen, s);
      var k1 := BloodNoneIsSomeLevel(ps, rank, s, next);
      k := BloodNoneGoesOn(ps, rank, seen, top, next, s, k1);
    }
  }

  /** A pass that adds nothing ends the unbounded traversal where one
      level would. */
  lemma BloodNoneStops(ps: People, rank: map<int, nat>, seen: set<int>, top: set<int>) returns (k: nat)
    requires Closed(ps) && Ranked(ps, rank) && seen <= ps.Keys
    requires seen + DescOf(ps, rank, ParentSet(ps, top)) == seen
    ensures k == 1 && FixpointLevel(ps, rank, seen, top, k)
    ensures BloodFrom(ps, rank, None, seen, top) == seen
  {
    k := 1;
    BloodFromDone(ps, rank, seen, top);
    BloodFromLevel(ps, rank, 1, 0, seen, top, ParentSet(ps, top), seen);
  }

  /** A pass that adds someone moves the fixpoint level up by one. */
  lemma BloodNoneGoesOn(ps: People, rank: map<int, nat>, seen: set<int>, top: set<int>, next: set<int>, s: set<int>, k1: nat) returns (k: nat)
    requires Closed(ps) && Ranked(ps, rank) && seen <= ps.Keys && s <= ps.Keys
    requires next == ParentSet(ps, top) && s == seen + DescOf(ps, rank, next) && s != seen
    requires FixpointLevel(ps, rank, s, next, k1)
    ensures k == k1 + 1 && FixpointLevel(ps, rank, seen, top, k)
  {
    k := k1 + 1;
    assert k - 1 == k1;
    BloodFromNext(ps, rank, None, seen, top, next, s, BloodFrom(ps, rank, None, s, next));
    BloodFromLevel(ps, rank, k1 + 1, k1, seen, top, next, s);
    BloodFromLevel(ps, rank, k1, k1 - 1, seen, top, next, s);
  }

  /** One pass of the bounded traversal, with `k` levels left and `j`, one
      fewer, after it. */
  lemma BloodFromLevel(ps: People, rank: map<int, nat>, k: nat, j: nat, seen: set<int>, top: set<int>, next: set<int>, s: set<int>)
    requires Closed(ps) && Ranked(ps, rank) && seen <= ps.Keys && k == j + 1
    requires next == ParentSet(ps, top) && s == seen + DescOf(ps, rank, next)
    ensures s <= ps.Keys
    ensures BloodFrom(ps, rank, Some(k), seen, top) == BloodFrom(ps, rank, Some(j), s, next)
  {
    BloodFromStep(ps, rank, Some(k), seen, top, next, s);
  }

  /** The same for `explore_blood()` from the head. */
  lemma BloodSpecNoneIsSomeLevel(ps: People, rank: map<int, nat>, head: int) returns (k: nat)
    requires Closed(ps) && Ranked(ps, rank) && head in ps
    ensures k >= 1
    ensures BloodSpec(ps, rank, head, None) == BloodSpec(ps, rank, head, Some(k))
    ensures BloodSpec(ps, rank, head, Some(k)) == BloodSpec(ps, rank, head, Some(k - 1))
  {
    k := BloodNoneIsSomeLevel(ps, rank, {head}, {head});
  }

  /** The head's own children enter only through a parent: a head with no
      recorded parents is alone in its blood set, whatever the level. */
  lemma BloodWithoutParents(ps: People, rank: map<int, nat>, head: int, levels: Option<nat>)
    requires Closed(ps) && Ranked(ps, rank) && head in ps
    requires ps[head].Parents() == []
    ensures BloodSpec(ps, rank, head, levels) == {head}
  {
    NoParentSet(ps, head);
    DescOfEmpty(ps, rank);
    if levels.Some? && levels.value > 0 {
      BloodWithoutParentsLevels(ps, rank, head, levels.value);
    }
  }

  lemma BloodWithoutParentsLevels(ps: People, rank: map<int, nat>, head: int, n: nat)
    requires Closed(ps) && Ranked(ps, rank) && head in ps && n > 0
    requires ParentSet(ps, {head}) == {}
    ensures BloodSpec(ps, rank, head, Some(n)) == {head}
  {
    BloodLevels(ps, rank, n, {head}, {head});
    UpToNoParents(ps, rank, {head}, n);
  }

  lemma UpToNoParents(ps: People, rank: map<int, nat>, top: set<int>, n: nat)
    requires Closed(ps) && Ranked(ps, rank) && n > 0
    requires ParentSet(ps, top) == {}
    ensures UpTo(ps, rank, top, n) == {}
  {
    UpToShift(ps, rank, top, n - 1);
    EmptyUpTo(ps, rank, n - 1);
    DescOfEmpty(ps, rank);
  }

  lemma NoParentSet(ps: People, head: int)
    requires head in ps && ps[head].Parents() == []
    ensures ParentSet(ps, {head}) == {}
  {
    TargetSetsAreViews(ps[head]);
  }

  lemma {:induction false} EmptyUpTo(ps: People, rank: map<int, nat>, k: nat)
    requires Closed(ps) && Ranked(ps, rank)
    ensures UpTo(ps, rank, {}, k) == {}
  {
    if k > 0 {
      EmptyUpTo(ps, rank, k - 1);
      EmptyLevel(ps, k);
    }
  }

  lemma {:induction false} EmptyLevel(ps: People, j: nat)
    ensures Level(ps, {}, j) == {}
  {
    if j > 0 {
      EmptyLevel(ps, j - 1);
    }
  }
}
