/**
 * The family tree: the arena of people, the iteration order of its member
 * set, the cached head, and the operations that change them in place.
 */
module FamilyTree {
  import opened Relationship
  import opened Family
  import opened Measure
  import opened Graph
  import opened Connect
  import opened Fixing
  import opened Lookup

  /** `order` lists every member of `ps` exactly once: the iteration order
      of the member set. */
  ghost predicate Enumerates(order: seq<int>, keys: set<int>) {
    && (forall i, j :: 0 <= i < j < |order| ==> order[i] != order[j])
    && (forall x :: x in keys <==> x in order)
  }

  class Tree {
    var people: People
    var order: seq<int>
    /** The `_head` cache: `None` until the head is first asked for. */
    var head: Option<int>
    /** Witness that the parent/child links have no cycle. */
    ghost var rank: map<int, nat>

    /** The arena is enumerated by `order`, non-empty, closed and ranked. */
    ghost predicate ValidGraph()
      reads this
    {
      && Enumerates(order, people.Keys) && |order| > 0
      && Sound(people, rank)
      && (head.Some? ==> head.value in people)
    }

    /** Once built, a tree has its head cached. */
    ghost predicate Valid()
      reads this
    {
      ValidGraph() && head.Some?
    }

    /** `Tree(tree)`: the members are connected and then fixed. The head is
        the first member in iteration order. */
    constructor (ps: People, ord: seq<int>, ghost rk: map<int, nat>)
      requires Enumerates(ord, ps.Keys) && |ord| > 0 && Sound(ps, rk)
      ensures Valid() && order == ord && rank == rk && head == Some(ord[0])
      ensures Sound(ConnectNodes(ps, ord, ord), rk)
      ensures people == FixSpec(ConnectNodes(ps, ord, ord), rk, ord[0])
    {
      people := ps;
      order := ord;
      head := None;
      rank := rk;
      new;
      Connect();
      Fix();
    }

    /** The `head` property: the cached head, or else the first member,
        which is then cached. */
    method Head() returns (h: int)
      requires ValidGraph()
      modifies this
      ensures ValidGraph() && head == Some(h) && h in people
      ensures h == if old(head).Some? then old(head).value else order[0]
      ensures people == old(people) && order == old(order) && rank == old(rank)
    {
      if head.None? {
        head := Some(order[0]);
      }
      h := head.value;
    }

    /** `set_head`. */
    method SetHead(h: int)
      requires ValidGraph() && h in people
      modifies this
      ensures Valid() && head == Some(h)
      ensures people == old(people) && order == old(order) && rank == old(rank)
    {
      head := Some(h);
    }

    // -------------------------------------------------------------------
    // connect
    // -------------------------------------------------------------------

    /** `connect`: for each member in iteration order, its back-link pass
        and then its sibling pass. */
    method Connect()
      requires ValidGraph()
      modifies this
      ensures ValidGraph() && order == old(order) && head == old(head) && rank == old(rank)
      ensures people == ConnectNodes(old(people), order, order)
    {
      ghost var base := people;
      var k := 0;
      while k < |order|
        invariant 0 <= k <= |order|
        invariant order == old(order) && head == old(head) && rank == old(rank)
        invariant ValidGraph()
        invariant people == ConnectNodes(base, order[..k], order)
      {
        var node := order[k];
        assert order[..k + 1][..k] == order[..k];
        assert ConnectNodes(base, order[..k + 1], order) == ConnectNode(people, node, order);
        ConnectOne(node);
        k := k + 1;
      }
      assert order[..|order|] == order;
    }

    /** One iteration of the outer loop of `connect`. */
    method ConnectOne(node: int)
      requires ValidGraph() && node in people
      modifies this
      ensures ValidGraph() && order == old(order) && head == old(head) && rank == old(rank)
      ensures people == ConnectNode(old(people), node, order)
    {
      LinkBack(node);
      AddSiblings(node);
    }

    /** `if not any(f.person_id == node for f in rel.family): rel.family.append(...)`. */
    method AppendIfMissing(t: int, node: int, r: Relation)
      requires t in people
      modifies this
      ensures people == TryAppend(old(people), t, node, r)
      ensures order == old(order) && head == old(head) && rank == old(rank)
    {
      if !HasLinkTo(people[t].family, node) {
        people := people[t := people[t].(family := people[t].family + [Link(r, node)])];
      }
    }

    /** The five tests of the back-link loop on one link of `node`. */
    method LinkBackOne(node: int, family: Link)
      requires family.personId in people
      modifies this
      ensures people == BackLinkStep(old(people), node, family)
      ensures order == old(order) && head == old(head) && rank == old(rank)
    {
      var t := family.personId;
      ghost var s0 := people;
      if IsParent(family.relation) {
        AppendIfMissing(t, node, Child);
      }
      ghost var s1 := people;
      if family.relation == Child {
        AppendIfMissing(t, node, Parent);
      }
      ghost var s2 := people;
      if family.relation == AdoptedParent {
        AppendIfMissing(t, node, AdoptedChild);
      }
      ghost var s3 := people;
      if family.relation == AdoptedChild {
        AppendIfMissing(t, node, AdoptedParent);
      }
      ghost var s4 := people;
      if IsSpouse(family.relation) {
        AppendIfMissing(t, node, Spouse);
      }
      FiveTestsAreOneStep(s0, people, node, family);
    }

    /** The back-link half of one outer iteration of `connect`. */
    method LinkBack(node: int)
      requires ValidGraph() && node in people
      modifies this
      ensures ValidGraph() && order == old(order) && head == old(head) && rank == old(rank)
      ensures people == BackLinks(old(people), node, old(people)[node].family)
    {
      ghost var base := people;
      assert LinksSound(base, rank, node, base[node].family) by {
        forall i | 0 <= i < |base[node].family|
          ensures LinkRanked(rank, node, base[node].family[i])
        {
        }
      }
      BackLinkLoop(node);
      BackLinksSound(base, rank, node, base[node].family);
    }

    /** `for family in node.family: ...`: the links of `node` are walked in
        order. The walk never appends to `node` itself, so the list it
        walks stays as it was. */
    method BackLinkLoop(node: int)
      requires node in people
      requires forall i :: 0 <= i < |people[node].family| ==> people[node].family[i].personId in people
      modifies this
      ensures order == old(order) && head == old(head) && rank == old(rank)
      ensures people == BackLinks(old(people), node, old(people)[node].family)
    {
      ghost var fam := people[node].family;
      var j := 0;
      while j < |people[node].family|
        invariant order == old(order) && head == old(head) && rank == old(rank)
        invariant people.Keys == old(people).Keys
        invariant node in people && people[node].family == fam
        invariant 0 <= j <= |fam|
        invariant people == BackLinks(old(people), node, fam[..j])
      {
        var family := people[node].family[j];
        ghost var before := people;
        LinkBackOne(node, family);
        BackLinkStepKeepsNode(before, node, j);
        assert fam[..j + 1][..j] == fam[..j];
        j := j + 1;
      }
      assert fam[..|fam|] == fam;
    }

    /** One step of the sibling pass: `node` gains a sibling link to
        `node2` for two shared parents, a step-sibling link for one. */
    method AddSiblingOne(node: int, node2: int)
      requires node in people && node2 in people
      modifies this
      ensures people == SiblingStep(old(people), node, node2)
      ensures order == old(order) && head == old(head) && rank == old(rank)
    {
      if node2 != node {
        var nodeParents := people[node].Parents();
        var node2Parents := people[node2].Parents();
        var same := SharedCount(nodeParents, node2Parents);
        if same == 2 {
          people := people[node := people[node].(family := people[node].family + [Link(Sibling, node2)])];
        } else if same == 1 {
          people := people[node := people[node].(family := people[node].family + [Link(StepSibling, node2)])];
        }
      }
    }

    /** The sibling half of one outer iteration of `connect`. */
    method AddSiblings(node: int)
      requires ValidGraph() && node in people
      modifies this
      ensures ValidGraph() && order == old(order) && head == old(head) && rank == old(rank)
      ensures people == SiblingPass(old(people), node, order)
    {
      SiblingLoop(node);
      SiblingPassSound(old(people), rank, node, order);
    }

    /** `for node2 in self.tree: ...`, one sibling step per member. */
    method SiblingLoop(node: int)
      requires Enumerates(order, people.Keys) && node in people
      modifies this
      ensures order == old(order) && head == old(head) && rank == old(rank)
      ensures people == SiblingPass(old(people), node, order)
    {
      var m := 0;
      while m < |order|
        invariant 0 <= m <= |order|
        invariant order == old(order) && head == old(head) && rank == old(rank)
        invariant people == SiblingPass(old(people), node, order[..m])
      {
        var node2 := order[m];
        AddSiblingOne(node, node2);
        assert order[..m + 1][..m] == order[..m];
        m := m + 1;
      }
      assert order[..|order|] == order;
    }

    // -------------------------------------------------------------------
    // fix
    // -------------------------------------------------------------------

    /** `fix`: promotion of exact parent links, then the blood flags of
        everyone the unbounded blood traversal reaches. */
    method Fix()
      requires ValidGraph()
      modifies this
      ensures Valid() && order == old(order) && rank == old(rank)
      ensures head == if old(head).Some? then old(head) else Some(order[0])
      ensures people == FixSpec(old(people), rank, head.value)
    {
      PromoteParents();
      var h := Head();
      var blood := ExploreBlood(None);
      BloodGrows(people, rank, None, {h}, {h});
      MarkBlood(blood);
      FixSound(old(people), rank, h);
    }

    /** The first loop of `fix`, member by member in iteration order. */
    method PromoteParents()
      requires ValidGraph()
      modifies this
      ensures ValidGraph() && order == old(order) && head == old(head) && rank == old(rank)
      ensures people == PromoteAll(old(people))
    {
      ghost var base := people;
      PromoteSound(base, rank);
      var k := 0;
      while k < |order|
        invariant 0 <= k <= |order|
        invariant order == old(order) && head == old(head) && rank == old(rank)
        invariant Partly(people, base, PromoteAll(base), order[..k])
      {
        var node := order[k];
        var fam := PromoteFamily(people[node].family);
        PartlyFresh(people, base, PromoteAll(base), order, k);
        SameGendersPromote(people, base, people[node].family);
        PartlyStep(people, base, PromoteAll(base), order[..k], node, people[node].(family := fam));
        people := people[node := people[node].(family := fam)];
        assert order[..k + 1] == order[..k] + [node];
        k := k + 1;
      }
      assert order[..k] == order;
      PartlyDone(people, base, PromoteAll(base), order);
    }

    /** The inner loop of the first loop of `fix`: an exact `parent` link
        becomes `father` or `mother` by the gender of the member it names. */
    method PromoteFamily(family: seq<Link>) returns (fam: seq<Link>)
      ensures fam == PromoteLinks(people, family)
    {
      fam := family;
      for j := 0 to |fam|
        invariant |fam| == |family|
        invariant forall i :: 0 <= i < j ==> fam[i] == PromoteLink(people, family[i])
        invariant forall i :: j <= i < |fam| ==> fam[i] == family[i]
      {
        if fam[j].relation == Parent && fam[j].personId in people {
          var target := people[fam[j].personId];
          if target.gender == Male {
            fam := fam[j := fam[j].(relation := Father)];
          } else if target.gender == Female {
            fam := fam[j := fam[j].(relation := Mother)];
          }
        }
      }
    }

    /** The second loop of `fix`: set the flag of every member of `s`. */
    method MarkBlood(s: set<int>)
      requires ValidGraph() && s <= people.Keys
      modifies this
      ensures ValidGraph() && order == old(order) && head == old(head) && rank == old(rank)
      ensures people == SetBlood(old(people), s)
    {
      var rest := s;
      while rest != {}
        invariant rest <= s
        invariant order == old(order) && head == old(head) && rank == old(rank)
        invariant people == SetBlood(old(people), s - rest)
        decreases rest
      {
        NonEmpty(rest);
        var node :| node in rest;
        people := people[node := people[node].(blood := true)];
        rest := rest - {node};
      }
      assert s - rest == s;
      SetBloodSound(old(people), rank, s);
    }

    // -------------------------------------------------------------------
    // explore and explore_blood
    // -------------------------------------------------------------------

    /** The `while next_nodes` flood shared by both traversals: pop, mark
        seen, push the children. */
    method Flood(seen: set<int>, next: set<int>) returns (r: set<int>)
      requires Sound(people, rank) && next <= people.Keys
      ensures r == seen + DescOf(people, rank, next)
    {
      r := seen;
      var work := next;
      while work != {}
        invariant work <= people.Keys
        invariant r + DescOf(people, rank, work) == seen + DescOf(people, rank, next)
        decreases Weight(work, rank, |people.Keys| + 1)
      {
        NonEmpty(work);
        var node :| node in work;
        FloodStep(people, rank, work, node);
        r := r + {node};
        work := PushChildren(work - {node}, node);
      }
      DescOfEmpty(people, rank);
    }

    /** `for child in node.children: next_nodes.add(child)`. */
    method PushChildren(work: set<int>, node: int) returns (w: set<int>)
      requires node in people
      ensures w == work + ChildTargets(people[node].family)
    {
      w := work;
      var children := people[node].Children();
      TargetSetsAreViews(people[node]);
      for i := 0 to |children|
        invariant w == work + set c | c in children[..i]
      {
        assert children[..i + 1] == children[..i] + [children[i]];
        w := w + {children[i]};
      }
      assert children[..|children|] == children;
    }

    /** The parents of the members of `s`, gathered by the loop
        `for node in s: for parent in node.parents: ...add(parent)`. */
    method ParentsOf(s: set<int>) returns (r: set<int>)
      requires Sound(people, rank) && s <= people.Keys
      ensures r == ParentSet(people, s) && r <= people.Keys
    {
      r := {};
      var rest := s;
      while rest != {}
        invariant rest <= s
        invariant r == ParentSet(people, s - rest)
        decreases rest
      {
        NonEmpty(rest);
        var node := PickFrom(rest);
        r := AddParents(r, node);
        ParentSetAdd(s - rest, node);
        rest := rest - {node};
        assert s - rest == (s - (rest + {node})) + {node};
      }
      assert s - rest == s;
      ParentSetInKeys(people, s);
    }

    /** The inner loop of the grandparent step: the parents of `node` join `acc`. */
    method AddParents(acc: set<int>, node: int) returns (r: set<int>)
      requires node in people
      ensures r == acc + ParentTargets(people[node].family)
    {
      var parents := people[node].Parents();
      TargetSetsAreViews(people[node]);
      r := acc;
      for i := 0 to |parents|
        invariant r == acc + set p | p in parents[..i]
      {
        assert parents[..i + 1] == parents[..i] + [parents[i]];
        r := r + {parents[i]};
      }
      assert parents[..|parents|] == parents;
    }

    /** Any member of a non-empty set (`set.pop()`). */
    method PickFrom(s: set<int>) returns (x: int)
      requires s != {}
      ensures x in s
    {
      NonEmpty(s);
      x :| x in s;
    }

    lemma ParentSetAdd(s: set<int>, node: int)
      requires node in people
      ensures ParentSet(people, s + {node}) == ParentSet(people, s) + ParentTargets(people[node].family)
    {
    }

    /** `explore(levels)`. */
    method Explore(levels: nat) returns (r: set<int>)
      requires Valid()
      ensures r == ExploreSpec(people, rank, head.value, levels)
      decreases levels
    {
      if levels == 0 {
        return {head.value};
      }
      var seen := Explore(levels - 1);
      ExploreInKeys(people, rank, head.value, levels - 1);
      var nextNodes := seen;
      var parents := ParentsOf(seen);
      nextNodes := nextNodes + parents;
      r := Flood(seen, nextNodes);
    }

    /** `explore_blood(levels)`, started from the head. With a bound `k`
        it is the head plus the descendants of its ancestors 1..k levels
        up; without one it is the bounded result at a level count where
        one level fewer gives the same set, so a further pass adds nothing. */
    method ExploreBlood(levels: Option<nat>) returns (r: set<int>)
      requires Valid()
      ensures r == BloodSpec(people, rank, head.value, levels)
      ensures levels.Some? ==> r == {head.value} + UpTo(people, rank, {head.value}, levels.value)
      ensures levels.None? ==> exists k: nat ::
        (k >= 1 && r == BloodSpec(people, rank, head.value, Some(k))
         && BloodSpec(people, rank, head.value, Some(k)) == BloodSpec(people, rank, head.value, Some(k - 1)))
    {
      r := ExploreBloodFrom(levels, {head.value}, {head.value});
      if levels.Some? {
        BloodLevels(people, rank, levels.value, {head.value}, {head.value});
      } else {
        var k := BloodSpecNoneIsSomeLevel(people, rank, head.value);
        assert BloodSpec(people, rank, head.value, Some(k)) == BloodSpec(people, rank, head.value, Some(k - 1));
      }
    }

    /** `_explore_blood(levels, seen, top)`. */
    method ExploreBloodFrom(levels: Option<nat>, seen: set<int>, top: set<int>) returns (r: set<int>)
      requires Sound(people, rank) && seen <= people.Keys && top <= people.Keys
      ensures r == BloodFrom(people, rank, levels, seen, top)
      decreases levels.Some?, if levels.Some? then levels.value else |people.Keys - seen|
    {
      if levels == Some(0) {
        return seen;
      }
      var s, nextTop := BloodPass(seen, top);
      if levels.None? {
        if s == seen {
          BloodFromDone(people, rank, seen, top);
          return s;
        }
        UnseenShrinks(people.Keys, seen, s);
      }
      r := ExploreBloodFrom(Fewer(levels), s, nextTop);
      BloodFromNext(people, rank, levels, seen, top, nextTop, s, r);
    }

    /** One pass of `_explore_blood`: the parents of the frontier become
        the next frontier, and they and all their descendants join `seen`. */
    method BloodPass(seen: set<int>, top: set<int>) returns (s: set<int>, nextTop: set<int>)
      requires Sound(people, rank) && seen <= people.Keys && top <= people.Keys
      ensures nextTop == ParentSet(people, top) && nextTop <= people.Keys
      ensures s == seen + DescOf(people, rank, nextTop) && s <= people.Keys
    {
      nextTop := ParentsOf(top);
      var nextNodes := nextTop;
      s := Flood(seen, nextNodes);
      DescOfInKeys(people, rank, nextTop);
    }

    // -------------------------------------------------------------------
    // add, get, rename, search_names
    // -------------------------------------------------------------------

    /** `add(node)`: the member set gains the person unless a member with
        that id is already there (then the set and its order are unchanged).
        Growing the set may re-hash it, which can permute the old members,
        so the new iteration order is any order `newOrder` listing the old
        members and `id` once each. Then `connect` and `fix`. */
    method Add(id: int, p: Person, newOrder: seq<int>, ghost newRank: map<int, nat>)
      requires Valid()
      requires id !in people ==> Sound(people[id := p], newRank) && Enumerates(newOrder, people.Keys + {id})
      modifies this
      ensures Valid() && head == old(head)
      ensures order == if id in old(people) then old(order) else newOrder
      ensures rank == if id in old(people) then old(rank) else newRank
      ensures var added := if id in old(people) then old(people) else old(people)[id := p];
        Sound(ConnectNodes(added, order, order), rank)
        && people == FixSpec(ConnectNodes(added, order, order), rank, head.value)
    {
      if id !in people {
        Admit(id, p, newOrder, newRank);
      }
      ghost var added := people;
      Connect();
      ConnectSound(added, rank, order, order);
      Fix();
    }

    /** `self.tree.add(node)` for a new id: the member set gains `id`, and
        its iteration order becomes `newOrder`. */
    method Admit(id: int, p: Person, newOrder: seq<int>, ghost newRank: map<int, nat>)
      requires Valid() && id !in people && Sound(people[id := p], newRank)
      requires Enumerates(newOrder, people.Keys + {id})
      modifies this
      ensures Valid() && head == old(head)
      ensures people == old(people)[id := p] && rank == newRank
      ensures order == newOrder && id in order
      ensures forall x :: x in old(order) ==> x in order
    {
      people := people[id := p];
      order := newOrder;
      rank := newRank;
      assert id in order;
    }

    /** `get(id)`: the member with that id, if any. */
    method Get(id: int) returns (r: Option<Person>)
      requires ValidGraph()
      ensures r.Some? <==> id in people
      ensures r.Some? ==> r.value == people[id]
    {
      for k := 0 to |order|
        invariant forall i :: 0 <= i < k ==> order[i] != id
      {
        if order[k] == id {
          return Some(people[id]);
        }
      }
      return None;
    }

    /** `rename(old, new)`: every link naming `a` is rewritten to `b`, and
        the member `a`, if there is one, takes the id `b`. Its position in
        iteration order is kept. */
    method Rename(a: int, b: int)
      requires Valid() && (b !in people || a == b)
      modifies this
      ensures Valid()
      ensures people == RenamePeople(old(people), a, b)
      ensures order == RenameIds(old(order), a, b)
      ensures head == Some(RenameId(old(head).value, a, b))
    {
      ghost var base := people;
      ghost var baseOrder := order;
      ghost var baseRank := rank;
      ghost var h := head.value;
      RelinkAll(a, b);
      Rekey(a, b);
      order := RenameIds(order, a, b);
      head := Some(RenameId(head.value, a, b));
      rank := RenameRank(rank, a, b);
      RenameKeepsValid(base, baseRank, baseOrder, h, a, b);
    }

    /** The id half of `rename`: the member `a`, if any, is stored under `b`. */
    method Rekey(a: int, b: int)
      modifies this
      ensures people == if a in old(people) then (old(people) - {a})[b := old(people)[a]] else old(people)
      ensures order == old(order) && head == old(head) && rank == old(rank)
    {
      if a in people {
        people := (people - {a})[b := people[a]];
      }
    }

    /** The link-rewriting half of `rename`, member by member in iteration
        order and link by link. */
    method RelinkAll(a: int, b: int)
      requires Enumerates(order, people.Keys)
      modifies this
      ensures people == Relink(old(people), a, b)
      ensures order == old(order) && head == old(head) && rank == old(rank)
    {
      ghost var base := people;
      var k := 0;
      while k < |order|
        invariant 0 <= k <= |order|
        invariant order == old(order) && head == old(head) && rank == old(rank)
        invariant Partly(people, base, Relink(base, a, b), order[..k])
      {
        var node := order[k];
        var fam := RelinkOne(people[node].family, a, b);
        PartlyFresh(people, base, Relink(base, a, b), order, k);
        PartlyStep(people, base, Relink(base, a, b), order[..k], node, people[node].(family := fam));
        people := people[node := people[node].(family := fam)];
        assert order[..k + 1] == order[..k] + [node];
        k := k + 1;
      }
      assert order[..k] == order;
      PartlyDone(people, base, Relink(base, a, b), order);
    }

    /** `for fam in node.family: if fam.person_id == old: fam.person_id = new`. */
    static method RelinkOne(family: seq<Link>, a: int, b: int) returns (fam: seq<Link>)
      ensures fam == RenameLinks(family, a, b)
    {
      fam := family;
      for j := 0 to |fam|
        invariant |fam| == |family|
        invariant forall i :: 0 <= i < j ==> fam[i] == family[i].(personId := RenameId(family[i].personId, a, b))
        invariant forall i :: j <= i < |fam| ==> fam[i] == family[i]
      {
        if fam[j].personId == a {
          fam := fam[j := fam[j].(personId := b)];
        }
      }
    }

    /** `search_names(name)`: the members whose name contains `name`. */
    method SearchNames(name: string) returns (nodes: set<int>)
      requires ValidGraph()
      ensures forall x :: x in nodes <==> x in people && Occurs(name, people[x].name)
    {
      nodes := {};
      for k := 0 to |order|
        invariant forall x :: x in nodes <==> x in order[..k] && Occurs(name, people[x].name)
      {
        var node := order[k];
        if Contains(people[node].name, name) {
          nodes := nodes + {node};
        }
        assert forall x :: x in order[..k + 1] <==> x in order[..k] || x == node;
      }
      assert order[..|order|] == order;
    }
  }

  /** One pop of the flood: `x` leaves the worklist, its children join
      it; the descendants still to visit lose only `x`, and the worklist
      gets lighter. */
  lemma FloodStep(ps: People, rank: map<int, nat>, w: set<int>, x: int)
    requires Sound(ps, rank) && x in w && w <= ps.Keys
    ensures var w2 := (w - {x}) + ChildTargets(ps[x].family);
      && w2 <= ps.Keys
      && DescOf(ps, rank, w) == {x} + DescOf(ps, rank, w2)
      && Weight(w2, rank, |ps.Keys| + 1) < Weight(w, rank, |ps.Keys| + 1)
  {
    var kids := ChildTargets(ps[x].family);
    forall c | c in kids
      ensures c in ps.Keys && c in rank && rank[c] < rank[x]
    {
      ChildRanked(ps, rank, x, c);
    }
    DescOfPop(ps, rank, w, x);
    WorklistStep(w, x, kids, ps.Keys, rank);
  }

  /** A member-by-member rewrite from `base` to `target` that has done the
      members of `done`: those hold their new record, the rest their old one. */
  ghost predicate Partly(cur: People, base: People, target: People, done: seq<int>) {
    && cur.Keys == base.Keys == target.Keys
    && forall x :: x in cur ==> cur[x] == if x in done then target[x] else base[x]
  }

  lemma PartlyStep(cur: People, base: People, target: People, done: seq<int>, x: int, v: Person)
    requires Partly(cur, base, target, done) && x in cur && v == target[x]
    ensures Partly(cur[x := v], base, target, done + [x])
  {
  }

  /** The next member in a duplicate-free order has not been done yet. */
  lemma PartlyFresh(cur: People, base: People, target: People, order: seq<int>, k: nat)
    requires k < |order| && Partly(cur, base, target, order[..k]) && Enumerates(order, cur.Keys)
    ensures order[k] in cur && cur[order[k]] == base[order[k]]
  {
    assert order[k] in order;
    forall i | 0 <= i < k
      ensures order[..k][i] != order[k]
    {
      assert order[..k][i] == order[i];
    }
  }

  lemma PartlyDone(cur: People, base: People, target: People, order: seq<int>)
    requires Partly(cur, base, target, order) && Enumerates(order, cur.Keys)
    ensures cur == target
  {
    forall x | x in cur
      ensures cur[x] == target[x]
    {
      assert x in order;
    }
  }

  /** The five tests of the back-link loop, run one after the other on the
      same link, add at most one link, and the one `BackLink` names. */
  lemma FiveTestsAreOneStep(before: People, after: People, node: int, l: Link)
    requires l.personId in before
    requires after == (
      var s1 := if IsParent(l.relation) then TryAppend(before, l.personId, node, Child) else before;
      var s2 := if l.relation == Child then TryAppend(s1, l.personId, node, Parent) else s1;
      var s3 := if l.relation == AdoptedParent then TryAppend(s2, l.personId, node, AdoptedChild) else s2;
      var s4 := if l.relation == AdoptedChild then TryAppend(s3, l.personId, node, AdoptedParent) else s3;
      if IsSpouse(l.relation) then TryAppend(s4, l.personId, node, Spouse) else s4)
    ensures after == BackLinkStep(before, node, l)
  {
    var t := l.personId;
    if l.relation == AdoptedParent {
      var s1 := TryAppend(before, t, node, Child);
      HasLinkToAppend(before[t].family, Link(Child, node));
      assert HasLinkTo(s1[t].family, node);
    }
  }

  /** What one `AppendIfMissing` call does to the arena. */
  function TryAppend(ps: People, t: int, node: int, r: Relation): People {
    if t in ps && !HasLinkTo(ps[t].family, node) then Append(ps, t, Link(r, node)) else ps
  }

  /** A back-link step never appends to `node` itself: a link of `node` to
      itself already counts as a link to `node`. */
  lemma BackLinkStepKeepsNode(ps: People, node: int, j: int)
    requires node in ps && 0 <= j < |ps[node].family|
    ensures BackLinkStep(ps, node, ps[node].family[j])[node] == ps[node]
  {
    var l := ps[node].family[j];
    if l.personId == node {
      assert HasLinkTo(ps[node].family, node);
    }
  }

  /** Renaming the entries of an enumeration of `keys` enumerates the
      renamed keys, provided the new id was not already there. */
  lemma RenamedEnumerates(order: seq<int>, keys: set<int>, a: int, b: int)
    requires Enumerates(order, keys) && (b !in keys || a == b)
    ensures Enumerates(RenameIds(order, a, b), if a in keys then keys - {a} + {b} else keys)
  {
    var r := RenameIds(order, a, b);
    var nk := if a in keys then keys - {a} + {b} else keys;
    forall x | x in nk
      ensures x in r
    {
      var y := if x == b && a in keys then a else x;
      assert y in keys;
      var i :| 0 <= i < |order| && order[i] == y;
      assert r[i] == x;
    }
    forall x | x in r
      ensures x in nk
    {
      var i :| 0 <= i < |r| && r[i] == x;
      assert order[i] in keys;
    }
  }

  /** Promotion looks only at the genders of the members named. */
  lemma SameGendersPromote(p: People, q: People, fam: seq<Link>)
    requires p.Keys == q.Keys && forall x :: x in p ==> p[x].gender == q[x].gender
    ensures PromoteLinks(p, fam) == PromoteLinks(q, fam)
  {
    forall i | 0 <= i < |fam|
      ensures PromoteLink(p, fam[i]) == PromoteLink(q, fam[i])
    {
    }
  }

  /** Everything `Valid` asks of a tree survives a rename to a free id. */
  lemma RenameKeepsValid(ps: People, rank: map<int, nat>, order: seq<int>, h: int, a: int, b: int)
    requires Enumerates(order, ps.Keys) && Sound(ps, rank) && h in ps && (b !in ps || a == b)
    ensures var r := RenamePeople(ps, a, b);
      && Enumerates(RenameIds(order, a, b), r.Keys)
      && Sound(r, RenameRank(rank, a, b))
      && RenameId(h, a, b) in r
  {
    RenamedEnumerates(order, ps.Keys, a, b);
    RenameClosed(ps, a, b);
    RenameRanked(ps, rank, a, b);
    RenameKeyIn(ps, a, b, h);
  }
}
