/**
 * What `Tree.connect` does to the arena, as a fold over the iteration
 * order: for each node, a back-link pass over its links followed by a
 * sibling pass over every other node.
 */
module Connect {
  import opened Relationship
  import opened Family
  import opened Graph

  /** Some link of `fam`, whatever its relation, points at `id`. */
  predicate HasLinkTo(fam: seq<Link>, id: int) {
    exists i :: 0 <= i < |fam| && fam[i].personId == id
  }

  /** The relation a link is answered with on its target, if any: parent
      kinds are answered by `Child`, an exact `Child` by `Parent`, an
      adopted child by `AdoptedParent`, spouse and partner by `Spouse`. An
      `AdoptedParent` link is answered by `Child`, since it is a parent kind
      and that branch comes first. */
  function BackLink(r: Relation): Option<Relation> {
    if IsParent(r) then Some(Child)
    else if r == Child then Some(Parent)
    else if r == AdoptedChild then Some(AdoptedParent)
    else if IsSpouse(r) then Some(Spouse)
    else None
  }

  /** A back-link points the other way: it is a child kind exactly when the
      link it answers is a parent kind, and so on. Son, daughter and the
      two sibling kinds are never answered. */
  lemma BackLinkInverts(r: Relation)
    ensures BackLink(r).Some? <==> IsParent(r) || r == Child || r == AdoptedChild || IsSpouse(r)
    ensures BackLink(r).Some? ==>
      && (IsChild(BackLink(r).value) <==> IsParent(r))
      && (IsParent(BackLink(r).value) <==> IsChild(r))
      && (IsSpouse(BackLink(r).value) <==> IsSpouse(r))
  {
  }

  /** `fam.append(l)` on the member `t`. */
  function Append(ps: People, t: int, l: Link): (r: People)
    ensures r.Keys == ps.Keys
  {
    if t in ps then ps[t := ps[t].(family := ps[t].family + [l])] else ps
  }

  /** Back-link step for one link `l` of `node`: the target gains the
      answering link unless it already has a link of any relation to
      `node`. */
  function BackLinkStep(ps: People, node: int, l: Link): (r: People)
    ensures r.Keys == ps.Keys
  {
    match BackLink(l.relation)
    case None => ps
    case Some(b) =>
      if l.personId in ps && !HasLinkTo(ps[l.personId].family, node)
      then Append(ps, l.personId, Link(b, node))
      else ps
  }

  /** The back-link pass over a list of `node`'s links, in order. */
  function BackLinks(ps: People, node: int, links: seq<Link>): (r: People)
    ensures r.Keys == ps.Keys
    decreases |links|
  {
    if links == [] then ps
    else BackLinkStep(BackLinks(ps, node, links[..|links| - 1]), node, links[|links| - 1])
  }

  /** How many entries of `a` occur somewhere in `b`. */
  function SharedCount(a: seq<int>, b: seq<int>): (n: nat)
    ensures n <= |a|
  {
    if a == [] then 0
    else SharedCount(a[..|a| - 1], b) + (if a[|a| - 1] in b then 1 else 0)
  }

  /** Two shared parents make a sibling, one a step-sibling. */
  function SiblingKind(n: nat): Option<Relation> {
    if n == 2 then Some(Sibling) else if n == 1 then Some(StepSibling) else None
  }

  /** The link the sibling pass appends to `node` for `node2`, if any. */
  function SiblingLinkFor(ps: People, node: int, node2: int): Option<Link>
    requires node in ps && node2 in ps
  {
    match SiblingKind(SharedCount(ps[node].Parents(), ps[node2].Parents()))
    case None => None
    case Some(k) => Some(Link(k, node2))
  }

  function SiblingStep(ps: People, node: int, node2: int): (r: People)
    ensures r.Keys == ps.Keys
  {
    if node2 == node || node !in ps || node2 !in ps then ps
    else match SiblingLinkFor(ps, node, node2)
      case None => ps
      case Some(l) => Append(ps, node, l)
  }

  /** The sibling pass of `node` over the nodes `others`, in order. */
  function SiblingPass(ps: People, node: int, others: seq<int>): (r: People)
    ensures r.Keys == ps.Keys
    decreases |others|
  {
    if others == [] then ps
    else SiblingStep(SiblingPass(ps, node, others[..|others| - 1]), node, others[|others| - 1])
  }

  /** One iteration of the outer loop of `connect`. */
  function ConnectNode(ps: People, node: int, order: seq<int>): (r: People)
    ensures r.Keys == ps.Keys
  {
    if node !in ps then ps
    else SiblingPass(BackLinks(ps, node, ps[node].family), node, order)
  }

  /** The outer loop of `connect` run over `nodes`. */
  function ConnectNodes(ps: People, nodes: seq<int>, order: seq<int>): (r: People)
    ensures r.Keys == ps.Keys
    decreases |nodes|
  {
    if nodes == [] then ps
    else ConnectNode(ConnectNodes(ps, nodes[..|nodes| - 1], order), nodes[|nodes| - 1], order)
  }

  // ---------------------------------------------------------------------
  // Families only grow
  // ---------------------------------------------------------------------

  /** `q` is `p` with possibly more links appended. */
  predicate Extends(p: Person, q: Person) {
    q == p.(family := q.family) && p.family <= q.family
  }

  /** Same members; each one's record differs at most by appended links. */
  predicate Grows(a: People, b: People) {
    a.Keys == b.Keys && forall x :: x in a ==> Extends(a[x], b[x])
  }

  lemma GrowsTrans(a: People, b: People, c: People)
    requires Grows(a, b) && Grows(b, c)
    ensures Grows(a, c)
  {
    forall x | x in a
      ensures Extends(a[x], c[x])
    {
      assert a[x].family <= b[x].family <= c[x].family;
    }
  }

  lemma HasLinkToGrows(a: seq<Link>, b: seq<Link>, id: int)
    requires a <= b && HasLinkTo(a, id)
    ensures HasLinkTo(b, id)
  {
    var i :| 0 <= i < |a| && a[i].personId == id;
    assert b[i] == a[i];
  }

  /** After appending `l`, the list links to `l`'s target and to every
      target it linked to before. */
  lemma HasLinkToAppend(fam: seq<Link>, l: Link)
    ensures HasLinkTo(fam + [l], l.personId)
    ensures forall id :: HasLinkTo(fam, id) ==> HasLinkTo(fam + [l], id)
  {
    assert (fam + [l])[|fam|] == l;
    forall id | HasLinkTo(fam, id)
      ensures HasLinkTo(fam + [l], id)
    {
      HasLinkToGrows(fam, fam + [l], id);
    }
  }

  lemma AppendGrows(ps: People, t: int, l: Link)
    ensures Grows(ps, Append(ps, t, l))
  {
  }

  lemma BackLinkStepGrows(ps: People, node: int, l: Link)
    ensures Grows(ps, BackLinkStep(ps, node, l))
  {
    if BackLink(l.relation).Some? {
      AppendGrows(ps, l.personId, Link(BackLink(l.relation).value, node));
    }
  }

  lemma {:induction false} BackLinksGrows(ps: People, node: int, links: seq<Link>)
    ensures Grows(ps, BackLinks(ps, node, links))
    decreases |links|
  {
    if links != [] {
      var prev := BackLinks(ps, node, links[..|links| - 1]);
      BackLinksGrows(ps, node, links[..|links| - 1]);
      BackLinkStepGrows(prev, node, links[|links| - 1]);
      GrowsTrans(ps, prev, BackLinks(ps, node, links));
    }
  }

  lemma SiblingStepGrows(ps: People, node: int, node2: int)
    ensures Grows(ps, SiblingStep(ps, node, node2))
  {
    if node2 != node && node in ps && node2 in ps && SiblingLinkFor(ps, node, node2).Some? {
      AppendGrows(ps, node, SiblingLinkFor(ps, node, node2).value);
    }
  }

  lemma {:induction false} SiblingPassGrows(ps: People, node: int, others: seq<int>)
    ensures Grows(ps, SiblingPass(ps, node, others))
    decreases |others|
  {
    if others != [] {
      var prev := SiblingPass(ps, node, others[..|others| - 1]);
      SiblingPassGrows(ps, node, others[..|others| - 1]);
      SiblingStepGrows(prev, node, others[|others| - 1]);
      GrowsTrans(ps, prev, SiblingPass(ps, node, others));
    }
  }

  lemma ConnectNodeGrows(ps: People, node: int, order: seq<int>)
    ensures Grows(ps, ConnectNode(ps, node, order))
  {
    if node in ps {
      var mid := BackLinks(ps, node, ps[node].family);
      BackLinksGrows(ps, node, ps[node].family);
      SiblingPassGrows(mid, node, order);
      GrowsTrans(ps, mid, ConnectNode(ps, node, order));
    }
  }

  /** `connect` never removes or rewrites a link, never adds or drops a
      member, and leaves every other field of every record as it was. */
  lemma {:induction false} ConnectGrows(ps: People, nodes: seq<int>, order: seq<int>)
    ensures Grows(ps, ConnectNodes(ps, nodes, order))
    decreases |nodes|
  {
    if nodes != [] {
      var prev := ConnectNodes(ps, nodes[..|nodes| - 1], order);
      ConnectGrows(ps, nodes[..|nodes| - 1], order);
      ConnectNodeGrows(prev, nodes[|nodes| - 1], order);
      GrowsTrans(ps, prev, ConnectNodes(ps, nodes, order));
    }
  }

  // ---------------------------------------------------------------------
  // Every appended link keeps the arena closed and ranked
  // ---------------------------------------------------------------------

  /** Both arena invariants at once. */
  ghost predicate Sound(ps: People, rank: map<int, nat>) {
    Closed(ps) && Ranked(ps, rank)
  }

  lemma AppendSound(ps: People, rank: map<int, nat>, t: int, l: Link)
    requires Sound(ps, rank) && t in ps && l.personId in ps && LinkRanked(rank, t, l)
    ensures Sound(Append(ps, t, l), rank)
  {
    var r := Append(ps, t, l);
    forall x, i | x in r && 0 <= i < |r[x].family|
      ensures r[x].family[i].personId in r && LinkRanked(rank, x, r[x].family[i])
    {
      if x == t && i == |ps[t].family| {
        assert r[x].family[i] == l;
      } else {
        assert r[x].family[i] == ps[x].family[i];
      }
    }
  }

  lemma BackLinkStepSound(ps: People, rank: map<int, nat>, node: int, l: Link)
    requires Sound(ps, rank) && node in ps && l.personId in ps && LinkRanked(rank, node, l)
    ensures Sound(BackLinkStep(ps, node, l), rank)
  {
    var t := l.personId;
    if BackLink(l.relation).Some? && !HasLinkTo(ps[t].family, node) {
      BackLinkInverts(l.relation);
      var b := BackLink(l.relation).value;
      ClassesDisjoint(l.relation);
      ClassesDisjoint(b);
      AppendSound(ps, rank, t, Link(b, node));
    }
  }

  /** The links of `node` listed in `links` are closed and ranked. */
  ghost predicate LinksSound(ps: People, rank: map<int, nat>, node: int, links: seq<Link>) {
    forall i :: 0 <= i < |links| ==> links[i].personId in ps && LinkRanked(rank, node, links[i])
  }

  lemma {:induction false} BackLinksSound(ps: People, rank: map<int, nat>, node: int, links: seq<Link>)
    requires Sound(ps, rank) && node in ps && LinksSound(ps, rank, node, links)
    ensures Sound(BackLinks(ps, node, links), rank)
    decreases |links|
  {
    if links != [] {
      var init := links[..|links| - 1];
      assert LinksSound(ps, rank, node, init) by {
        forall i | 0 <= i < |init|
          ensures init[i] == links[i]
        {
        }
      }
      BackLinksSound(ps, rank, node, init);
      BackLinksGrows(ps, node, init);
      BackLinkStepSound(BackLinks(ps, node, init), rank, node, links[|links| - 1]);
    }
  }

  lemma SiblingStepSound(ps: People, rank: map<int, nat>, node: int, node2: int)
    requires Sound(ps, rank)
    ensures Sound(SiblingStep(ps, node, node2), rank)
  {
    if node2 != node && node in ps && node2 in ps && SiblingLinkFor(ps, node, node2).Some? {
      AppendSound(ps, rank, node, SiblingLinkFor(ps, node, node2).value);
    }
  }

  lemma {:induction false} SiblingPassSound(ps: People, rank: map<int, nat>, node: int, others: seq<int>)
    requires Sound(ps, rank)
    ensures Sound(SiblingPass(ps, node, others), rank)
    decreases |others|
  {
    if others != [] {
      SiblingPassSound(ps, rank, node, others[..|others| - 1]);
      SiblingStepSound(SiblingPass(ps, node, others[..|others| - 1]), rank, node, others[|others| - 1]);
    }
  }

  lemma ConnectNodeSound(ps: People, rank: map<int, nat>, node: int, order: seq<int>)
    requires Sound(ps, rank)
    ensures Sound(ConnectNode(ps, node, order), rank)
  {
    if node in ps {
      BackLinksSound(ps, rank, node, ps[node].family);
      SiblingPassSound(BackLinks(ps, node, ps[node].family), rank, node, order);
    }
  }

  /** `connect` keeps every link target a member, and the rank that
      witnessed acyclicity before still witnesses it: back-links point the
      other way along the same edge, sibling links are neither kind. */
  lemma {:induction false} ConnectSound(ps: People, rank: map<int, nat>, nodes: seq<int>, order: seq<int>)
    requires Sound(ps, rank)
    ensures Sound(ConnectNodes(ps, nodes, order), rank)
    decreases |nodes|
  {
    if nodes != [] {
      ConnectSound(ps, rank, nodes[..|nodes| - 1], order);
      ConnectNodeSound(ConnectNodes(ps, nodes[..|nodes| - 1], order), rank, nodes[|nodes| - 1], order);
    }
  }

  // ---------------------------------------------------------------------
  // Reciprocity and idempotence of the back-link pass
  // ---------------------------------------------------------------------

  /** Link `l` of `x` has been answered: it needs no answer, its target is
      not a member, or its target links back to `x` somehow. */
  predicate Answered(ps: People, x: int, l: Link) {
    BackLink(l.relation).Some? && l.personId in ps ==> HasLinkTo(ps[l.personId].family, x)
  }

  lemma AnsweredGrows(a: People, b: People, x: int, l: Link)
    requires Grows(a, b) && Answered(a, x, l)
    ensures Answered(b, x, l)
  {
    if BackLink(l.relation).Some? && l.personId in b {
      HasLinkToGrows(a[l.personId].family, b[l.personId].family, x);
    }
  }

  /** After a back-link step its link is answered. */
  lemma BackLinkStepAnswers(ps: People, node: int, l: Link)
    ensures Answered(BackLinkStep(ps, node, l), node, l)
  {
    var r := BackLinkStep(ps, node, l);
    var t := l.personId;
    if BackLink(l.relation).Some? && t in ps && !HasLinkTo(ps[t].family, node) {
      assert r[t].family[|ps[t].family|].personId == node;
    }
  }

  /** After the back-link pass every link it went over is answered. */
  lemma {:induction false} BackLinksAnswer(ps: People, node: int, links: seq<Link>)
    ensures forall i :: 0 <= i < |links| ==> Answered(BackLinks(ps, node, links), node, links[i])
    decreases |links|
  {
    if links != [] {
      var init := links[..|links| - 1];
      var last := links[|links| - 1];
      var prev := BackLinks(ps, node, init);
      BackLinksAnswer(ps, node, init);
      BackLinkStepGrows(prev, node, last);
      BackLinkStepAnswers(prev, node, last);
      forall i | 0 <= i < |links|
        ensures Answered(BackLinks(ps, node, links), node, links[i])
      {
        if i < |init| {
          assert links[i] == init[i];
          AnsweredGrows(prev, BackLinks(ps, node, links), node, links[i]);
        }
      }
    }
  }

  /** A back-link pass over links that are all answered changes nothing. */
  lemma {:induction false} BackLinksAnsweredNoop(ps: People, node: int, links: seq<Link>)
    requires forall i :: 0 <= i < |links| ==> Answered(ps, node, links[i])
    ensures BackLinks(ps, node, links) == ps
    decreases |links|
  {
    if links != [] {
      var init := links[..|links| - 1];
      assert forall i :: 0 <= i < |init| ==> init[i] == links[i];
      BackLinksAnsweredNoop(ps, node, init);
    }
  }

  /** The back-link pass is idempotent: a second pass over the same links
      adds nothing. */
  lemma BackLinksIdempotent(ps: People, node: int, links: seq<Link>)
    ensures BackLinks(BackLinks(ps, node, links), node, links) == BackLinks(ps, node, links)
  {
    BackLinksAnswer(ps, node, links);
    BackLinksAnsweredNoop(BackLinks(ps, node, links), node, links);
  }

  /** Every link of every member has been answered. */
  predicate Reciprocal(ps: People) {
    forall x, i :: x in ps && 0 <= i < |ps[x].family| ==> Answered(ps, x, ps[x].family[i])
  }

  /** The links the back-link pass appended to `x` point at `node`, and
      `node` already linked to `x` before the pass. */
  predicate NewLinksBack(before: People, after: People, node: int) {
    forall x, i :: x in after && x in before && |before[x].family| <= i < |after[x].family| ==>
      after[x].family[i].personId == node && node in before && HasLinkTo(before[node].family, x)
  }

  lemma {:induction false} BackLinksNewLinks(ps: People, node: int, links: seq<Link>)
    requires node in ps
    requires forall i :: 0 <= i < |links| ==> HasLinkTo(ps[node].family, links[i].personId)
    ensures NewLinksBack(ps, BackLinks(ps, node, links), node)
    decreases |links|
  {
    if links != [] {
      var init := links[..|links| - 1];
      var l := links[|links| - 1];
      var prev := BackLinks(ps, node, init);
      var r := BackLinks(ps, node, links);
      assert forall i :: 0 <= i < |init| ==> init[i] == links[i];
      BackLinksNewLinks(ps, node, init);
      BackLinksGrows(ps, node, init);
      forall x, i | x in r && x in ps && |ps[x].family| <= i < |r[x].family|
        ensures r[x].family[i].personId == node && HasLinkTo(ps[node].family, x)
      {
        if i >= |prev[x].family| {
          assert x == l.personId && r[x].family[i] == Link(BackLink(l.relation).value, node);
        } else {
          assert r[x].family[i] == prev[x].family[i];
        }
      }
    }
  }

  /** What has been answered so far: every link of the members in `done`,
      and every link appended since `base`. */
  predicate AnsweredSoFar(ps: People, base: People, done: set<int>) {
    forall x, i :: x in ps && x in base && 0 <= i < |ps[x].family| && (x in done || i >= |base[x].family|) ==>
      Answered(ps, x, ps[x].family[i])
  }

  lemma ConnectNodeAnswers(base: People, p: People, node: int, order: seq<int>, done: set<int>)
    requires Grows(base, p) && AnsweredSoFar(p, base, done)
    ensures AnsweredSoFar(ConnectNode(p, node, order), base, done + {node})
  {
    if node in p {
      var fam := p[node].family;
      var m := BackLinks(p, node, fam);
      var q := ConnectNode(p, node, order);
      BackLinksGrows(p, node, fam);
      SiblingPassGrows(m, node, order);
      GrowsTrans(p, m, q);
      BackLinksAnswer(p, node, fam);
      assert forall i :: 0 <= i < |fam| ==> HasLinkTo(fam, fam[i].personId);
      BackLinksNewLinks(p, node, fam);
      forall x, i | x in q && x in base && 0 <= i < |q[x].family| && (x in done + {node} || i >= |base[x].family|)
        ensures Answered(q, x, q[x].family[i])
      {
        if i < |p[x].family| {
          OldLinkAnswered(base, p, m, q, node, done, x, i);
        } else {
          NewLinkAnswered(p, m, node, order, x, i);
        }
      }
    }
  }

  lemma OldLinkAnswered(base: People, p: People, m: People, q: People, node: int, done: set<int>, x: int, i: int)
    requires Grows(p, m) && Grows(m, q) && Grows(p, q) && x in p && node in p
    requires AnsweredSoFar(p, base, done) && x in base
    requires forall j :: 0 <= j < |p[node].family| ==> Answered(m, node, p[node].family[j])
    requires 0 <= i < |p[x].family| && (x in done + {node} || i >= |base[x].family|)
    ensures Answered(q, x, q[x].family[i])
  {
    var l := p[x].family[i];
    assert q[x].family[i] == l;
    if x in done || i >= |base[x].family| {
      AnsweredGrows(p, q, x, l);
    } else {
      AnsweredGrows(m, q, x, l);
    }
  }

  lemma NewLinkAnswered(p: People, m: People, node: int, order: seq<int>, x: int, i: int)
    requires Grows(p, m) && x in p && node in p
    requires NewLinksBack(p, m, node)
    requires |p[x].family| <= i < |SiblingPass(m, node, order)[x].family|
    ensures Answered(SiblingPass(m, node, order), x, SiblingPass(m, node, order)[x].family[i])
  {
    if i < |m[x].family| {
      NewBackLinkAnswered(p, m, node, order, x, i);
    } else {
      NewSiblingLinkAnswered(m, node, order, x, i);
    }
  }

  lemma NewBackLinkAnswered(p: People, m: People, node: int, order: seq<int>, x: int, i: int)
    requires Grows(p, m) && x in p && node in p
    requires NewLinksBack(p, m, node)
    requires |p[x].family| <= i < |m[x].family| && i < |SiblingPass(m, node, order)[x].family|
    ensures Answered(SiblingPass(m, node, order), x, SiblingPass(m, node, order)[x].family[i])
  {
    var q := SiblingPass(m, node, order);
    SiblingPassGrows(m, node, order);
    assert q[x].family[i] == m[x].family[i];
    GrowsTrans(p, m, q);
    HasLinkToGrows(p[node].family, q[node].family, x);
  }

  lemma NewSiblingLinkAnswered(m: People, node: int, order: seq<int>, x: int, i: int)
    requires x in m && node in m
    requires |m[x].family| <= i < |SiblingPass(m, node, order)[x].family|
    ensures Answered(SiblingPass(m, node, order), x, SiblingPass(m, node, order)[x].family[i])
  {
    var q := SiblingPass(m, node, order);
    SiblingPassAppends(m, node, order);
    var sl := SiblingList(m, node, order);
    SiblingListOnlySiblings(m, node, order);
    assert x == node;
    var j := i - |m[node].family|;
    assert q[node].family == m[node].family + sl;
    assert q[x].family[i] == sl[j];
    SiblingLinkAnswered(q, x, sl[j]);
  }

  /** A sibling or step-sibling link needs no answer. */
  lemma SiblingLinkAnswered(ps: People, x: int, l: Link)
    requires l.relation in {Sibling, StepSibling}
    ensures Answered(ps, x, l)
  {
  }

  lemma {:induction false} ConnectNodesAnswer(ps: People, nodes: seq<int>, order: seq<int>)
    ensures AnsweredSoFar(ConnectNodes(ps, nodes, order), ps, set x | x in nodes)
    decreases |nodes|
  {
    if nodes != [] {
      var init := nodes[..|nodes| - 1];
      ConnectNodesAnswer(ps, init, order);
      ConnectGrows(ps, init, order);
      ConnectNodeAnswers(ps, ConnectNodes(ps, init, order), nodes[|nodes| - 1], order, set x | x in init);
      assert (set x | x in init) + {nodes[|nodes| - 1]} == set x | x in nodes;
    }
  }

  /** Once `connect` has visited every member, every parent-kind, child,
      adopted-child, spouse and partner link has a link back from its
      target. */
  lemma ConnectReciprocal(ps: People, order: seq<int>)
    requires forall x :: x in ps ==> x in order
    ensures Reciprocal(ConnectNodes(ps, order, order))
  {
    ConnectNodesAnswer(ps, order, order);
    ConnectGrows(ps, order, order);
  }

  /** A back-link pass over a member's own links in a reciprocal arena adds
      nothing; so running `connect` again only repeats the sibling pass. */
  lemma ReconnectOnlySiblings(ps: People, node: int, order: seq<int>)
    requires Reciprocal(ps) && node in ps
    ensures ConnectNode(ps, node, order)[node].family == ps[node].family + SiblingList(ps, node, order)
  {
    BackLinksAnsweredNoop(ps, node, ps[node].family);
    SiblingPassAppends(ps, node, order);
  }

  // ---------------------------------------------------------------------
  // The sibling pass
  // ---------------------------------------------------------------------

  /** The links the sibling pass appends to `node`, in the order of `others`:
      for each other member sharing two parent ids a `Sibling` link, for
      each sharing one a `StepSibling` link. */
  function SiblingList(ps: People, node: int, others: seq<int>): seq<Link>
    requires node in ps
    decreases |others|
  {
    if others == [] then []
    else
      var n2 := others[|others| - 1];
      SiblingList(ps, node, others[..|others| - 1]) + SiblingPiece(ps, node, n2)
  }

  /** What the sibling pass appends to `node` for one other node. */
  function SiblingPiece(ps: People, node: int, n2: int): seq<Link>
    requires node in ps
  {
    if n2 == node || n2 !in ps then []
    else match SiblingLinkFor(ps, node, n2)
      case None => []
      case Some(l) => [l]
  }

  lemma SiblingStepAppends(ps: People, node: int, n2: int)
    requires node in ps
    ensures var r := SiblingStep(ps, node, n2);
      && r[node] == ps[node].(family := ps[node].family + SiblingPiece(ps, node, n2))
      && r[node].Parents() == ps[node].Parents()
      && forall x :: x in ps && x != node ==> r[x] == ps[x]
  {
    if n2 != node && n2 in ps {
      match SiblingLinkFor(ps, node, n2)
      case None =>
      case Some(l) =>
        ParentsKeepOnSibling(ps[node], l);
    } else {
      assert ps[node].family + [] == ps[node].family;
    }
  }

  /** Every appended link is a sibling kind, to another member, with
      `Sibling` exactly for two shared parents. */
  lemma {:induction false} SiblingListKinds(ps: People, node: int, others: seq<int>)
    requires node in ps
    ensures forall i :: 0 <= i < |SiblingList(ps, node, others)| ==>
      var l := SiblingList(ps, node, others)[i];
      && l.personId in ps && l.personId != node && l.personId in others
      && (l.relation == Sibling <==> SharedCount(ps[node].Parents(), ps[l.personId].Parents()) == 2)
      && (l.relation == StepSibling <==> SharedCount(ps[node].Parents(), ps[l.personId].Parents()) == 1)
    decreases |others|
  {
    if others != [] {
      var init := others[..|others| - 1];
      SiblingListKinds(ps, node, init);
      assert forall y :: y in init ==> y in others;
    }
  }

  /** The sibling list is complete as well as correct: it holds a `Sibling`
      link to `n2` exactly when `n2` is another member of `others` sharing
      two parent ids with `node`, and a `StepSibling` link exactly when
      they share one. */
  lemma {:induction false} SiblingListComplete(ps: People, node: int, others: seq<int>, n2: int)
    requires node in ps
    ensures Link(Sibling, n2) in SiblingList(ps, node, others) <==>
      n2 in others && n2 in ps && n2 != node && SharedCount(ps[node].Parents(), ps[n2].Parents()) == 2
    ensures Link(StepSibling, n2) in SiblingList(ps, node, others) <==>
      n2 in others && n2 in ps && n2 != node && SharedCount(ps[node].Parents(), ps[n2].Parents()) == 1
    decreases |others|
  {
    if others != [] {
      var init := others[..|others| - 1];
      var last := others[|others| - 1];
      assert others == init + [last];
      assert SiblingList(ps, node, others) == SiblingList(ps, node, init) + SiblingPiece(ps, node, last);
      SiblingListComplete(ps, node, init, n2);
    }
  }

  lemma {:induction false} SiblingListOnlySiblings(ps: People, node: int, others: seq<int>)
    requires node in ps
    ensures forall j :: 0 <= j < |SiblingList(ps, node, others)| ==>
      SiblingList(ps, node, others)[j].relation in {Sibling, StepSibling}
    decreases |others|
  {
    if others != [] {
      SiblingListOnlySiblings(ps, node, others[..|others| - 1]);
    }
  }

  /** Appending sibling-kind links leaves the parent list as it was. */
  lemma ParentsKeepOnSibling(p: Person, l: Link)
    requires l.relation == Sibling || l.relation == StepSibling
    ensures p.(family := p.family + [l]).Parents() == p.Parents()
  {
    TargetsAppend(p.family, [l], ParentView);
    TargetsSingle(l, ParentView);
  }

  /** After the sibling pass, `node` has a `Sibling` link to every other
      member of `others` sharing two of its parent ids and a `StepSibling`
      link to every one sharing one. */
  lemma SiblingPassComplete(ps: People, node: int, others: seq<int>, n2: int)
    requires node in ps && n2 in ps && n2 != node && n2 in others
    ensures node in SiblingPass(ps, node, others)
    ensures var fam := SiblingPass(ps, node, others)[node].family;
      && (SharedCount(ps[node].Parents(), ps[n2].Parents()) == 2 ==> Link(Sibling, n2) in fam)
      && (SharedCount(ps[node].Parents(), ps[n2].Parents()) == 1 ==> Link(StepSibling, n2) in fam)
  {
    SiblingPassAppends(ps, node, others);
    SiblingListComplete(ps, node, others, n2);
    var sl := SiblingList(ps, node, others);
    forall l | l in sl
      ensures l in ps[node].family + sl
    {
      var k :| 0 <= k < |sl| && sl[k] == l;
      assert (ps[node].family + sl)[|ps[node].family| + k] == l;
    }
  }

  /** The sibling pass appends exactly `SiblingList` to `node` and leaves
      every other member alone. The appends do not depend on what is
      already there. */
  lemma {:induction false} SiblingPassAppends(ps: People, node: int, others: seq<int>)
    requires node in ps
    ensures var r := SiblingPass(ps, node, others);
      && r[node] == ps[node].(family := ps[node].family + SiblingList(ps, node, others))
      && forall x :: x in ps && x != node ==> r[x] == ps[x]
    decreases |others|
  {
    if others == [] {
      assert ps[node].family + [] == ps[node].family;
    } else {
      var init := others[..|others| - 1];
      var n2 := others[|others| - 1];
      var prev := SiblingPass(ps, node, init);
      var r := SiblingPass(ps, node, others);
      SiblingPassAppends(ps, node, init);
      SiblingPassKeepsParents(ps, node, init);
      SiblingStepAppends(prev, node, n2);
      SiblingPieceSame(ps, prev, node, n2);
      var piece := SiblingPiece(ps, node, n2);
      assert r == SiblingStep(prev, node, n2);
      assert r[node] == prev[node].(family := prev[node].family + piece);
      var sl := SiblingList(ps, node, init);
      assert SiblingList(ps, node, others) == sl + piece;
      assert prev[node].family == ps[node].family + sl;
      LinksAssoc(ps[node].family, sl, piece);
      forall x | x in ps && x != node
        ensures r[x] == ps[x]
      {
        assert r[x] == prev[x];
      }
    }
  }

  lemma LinksAssoc(a: seq<Link>, b: seq<Link>, c: seq<Link>)
    ensures (a + b) + c == a + (b + c)
  {
  }

  /** The sibling pass leaves every parent list as it was. */
  lemma {:induction false} SiblingPassKeepsParents(ps: People, node: int, others: seq<int>)
    requires node in ps
    ensures var r := SiblingPass(ps, node, others);
      forall x :: x in ps ==> r[x].Parents() == ps[x].Parents()
    decreases |others|
  {
    if others != [] {
      var prev := SiblingPass(ps, node, others[..|others| - 1]);
      SiblingPassKeepsParents(ps, node, others[..|others| - 1]);
      SiblingStepAppends(prev, node, others[|others| - 1]);
    }
  }

  lemma SiblingPieceSame(a: People, b: People, node: int, n2: int)
    requires node in a && node in b && a.Keys == b.Keys
    requires b[node].Parents() == a[node].Parents()
    requires n2 != node && n2 in a ==> b[n2].Parents() == a[n2].Parents()
    ensures SiblingPiece(b, node, n2) == SiblingPiece(a, node, n2)
  {
    if n2 != node && n2 in a {
      var pa, pb := a[node].Parents(), a[n2].Parents();
      assert SharedCount(b[node].Parents(), b[n2].Parents()) == SharedCount(pa, pb);
      assert SiblingLinkFor(b, node, n2) == SiblingLinkFor(a, node, n2);
    }
  }

  /** Running the sibling pass twice appends every sibling link twice. */
  lemma SiblingPassTwice(ps: People, node: int, others: seq<int>)
    requires node in ps
    ensures var l := SiblingList(ps, node, others);
      SiblingPass(SiblingPass(ps, node, others), node, others)[node].family == ps[node].family + l + l
  {
    var once := SiblingPass(ps, node, others);
    SiblingPassAppends(ps, node, others);
    SiblingPassKeepsParents(ps, node, others);
    SiblingPassAppends(once, node, others);
    SiblingListSame(ps, once, node, others);
  }

  /** The list depends only on the parent lists of `node` and the others. */
  lemma {:induction false} SiblingListSame(a: People, b: People, node: int, others: seq<int>)
    requires node in a && node in b && a.Keys == b.Keys
    requires forall x :: x in a ==> b[x].Parents() == a[x].Parents()
    ensures SiblingList(b, node, others) == SiblingList(a, node, others)
    decreases |others|
  {
    if others != [] {
      SiblingListSame(a, b, node, others[..|others| - 1]);
      SiblingPieceSame(a, b, node, others[|others| - 1]);
    }
  }
}
