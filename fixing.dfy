/**
 * What `Tree.fix` does to the arena: exact `Parent` links are promoted to
 * `Father` or `Mother` by the gender of their target, then every member of
 * the unbounded blood traversal gets its blood flag set.
 */
module Fixing {
  import opened Relationship
  import opened Family
  import opened Graph
  import opened Connect

  /** One link after promotion: an exact `Parent` link to a male member
      becomes `Father`, to a female member `Mother`; any other link, and a
      parent of other or unknown gender, stays as it is. */
  function PromoteLink(ps: People, l: Link): (r: Link)
    ensures r.personId == l.personId
    ensures r.relation != l.relation ==> l.relation == Parent && l.personId in ps
  {
    if l.relation == Parent && l.personId in ps then
      match ps[l.personId].gender
      case Male => l.(relation := Father)
      case Female => l.(relation := Mother)
      case _ => l
    else l
  }

  function PromoteLinks(ps: People, fam: seq<Link>): (r: seq<Link>)
    ensures |r| == |fam|
  {
    seq(|fam|, i requires 0 <= i < |fam| => PromoteLink(ps, fam[i]))
  }

  /** The first loop of `fix`, over every member. */
  function PromoteAll(ps: People): (r: People)
    ensures r.Keys == ps.Keys
  {
    map x | x in ps :: ps[x].(family := PromoteLinks(ps, ps[x].family))
  }

  /** After promotion no exact `Parent` link leads to a male or female
      member, every `Father` link it produced leads to a male member and
      every `Mother` link to a female one; targets never change. */
  lemma PromoteResult(ps: People, x: int, i: int)
    requires x in ps && 0 <= i < |ps[x].family|
    ensures var l := ps[x].family[i];
      var r := PromoteAll(ps)[x].family[i];
      && r.personId == l.personId
      && (r.relation == Parent && l.personId in ps ==> ps[l.personId].gender in {Other, Unknown})
      && (l.relation == Parent && r.relation == Father ==> ps[l.personId].gender == Male)
      && (l.relation == Parent && r.relation == Mother ==> ps[l.personId].gender == Female)
      && (l.relation != Parent ==> r == l)
  {
  }

  /** Promotion keeps every link in its class, so no view changes. */
  lemma {:induction false} PromoteKeepsTargets(ps: People, fam: seq<Link>, v: View)
    ensures Targets(PromoteLinks(ps, fam), v) == Targets(fam, v)
    decreases |fam|
  {
    if fam != [] {
      var init := fam[..|fam| - 1];
      var last := fam[|fam| - 1];
      var p := PromoteLinks(ps, fam);
      assert p[..|fam| - 1] == PromoteLinks(ps, init);
      assert p[|fam| - 1] == PromoteLink(ps, last);
      PromoteKeepsTargets(ps, init, v);
      PromoteKeepsClass(ps, last, v);
    }
  }

  /** A promoted link targets the same person and stays in every view it was in. */
  lemma PromoteKeepsClass(ps: People, l: Link, v: View)
    ensures PromoteLink(ps, l).personId == l.personId
    ensures InView(PromoteLink(ps, l).relation, v) <==> InView(l.relation, v)
  {
  }

  lemma PromoteKeepsViews(ps: People, x: int)
    requires x in ps
    ensures var q := PromoteAll(ps)[x];
      && q.Parents() == ps[x].Parents()
      && q.Children() == ps[x].Children()
      && q.Spouses() == ps[x].Spouses()
      && q.Siblings() == ps[x].Siblings()
      && q.ParentComplete() == ps[x].ParentComplete()
  {
    PromoteKeepsTargets(ps, ps[x].family, ParentView);
    PromoteKeepsTargets(ps, ps[x].family, ChildView);
    PromoteKeepsTargets(ps, ps[x].family, SpouseView);
    PromoteKeepsTargets(ps, ps[x].family, SiblingView);
  }

  /** Promoting again changes nothing: genders are untouched, and a
      promoted link is no longer an exact `Parent`. */
  lemma PromoteIdempotent(ps: People)
    ensures PromoteAll(PromoteAll(ps)) == PromoteAll(ps)
  {
    var once := PromoteAll(ps);
    forall x | x in ps
      ensures PromoteAll(once)[x] == once[x]
    {
      assert PromoteLinks(once, once[x].family) == once[x].family;
    }
  }

  /** Promotion keeps both arena invariants and every answered link
      answered: targets are untouched and parent kinds stay parent kinds. */
  lemma PromoteSound(ps: People, rank: map<int, nat>)
    requires Sound(ps, rank)
    ensures Sound(PromoteAll(ps), rank)
  {
    var r := PromoteAll(ps);
    forall x, i | x in r && 0 <= i < |r[x].family|
      ensures r[x].family[i].personId in r && LinkRanked(rank, x, r[x].family[i])
    {
      assert LinkRanked(rank, x, ps[x].family[i]);
    }
  }

  lemma PromoteReciprocal(ps: People)
    requires Reciprocal(ps)
    ensures Reciprocal(PromoteAll(ps))
  {
    var r := PromoteAll(ps);
    forall x, i | x in r && 0 <= i < |r[x].family|
      ensures Answered(r, x, r[x].family[i])
    {
      var l := ps[x].family[i];
      assert Answered(ps, x, l);
      if BackLink(l.relation).Some? && l.personId in ps {
        var k :| 0 <= k < |ps[l.personId].family| && ps[l.personId].family[k].personId == x;
        assert r[l.personId].family[k].personId == x;
      }
    }
  }

  /** The second loop of `fix`: the members of `s` get their blood flag
      set; everyone else is left alone. */
  function SetBlood(ps: People, s: set<int>): (r: People)
    ensures r.Keys == ps.Keys
  {
    map x | x in ps :: if x in s then ps[x].(blood := true) else ps[x]
  }

  /** Setting flags never clears one, sets exactly the members of `s` that
      were not set, and leaves every link list alone. */
  lemma SetBloodEffect(ps: People, s: set<int>, x: int)
    requires x in ps
    ensures SetBlood(ps, s)[x].blood <==> ps[x].blood || x in s
    ensures SetBlood(ps, s)[x].family == ps[x].family
    ensures SetBlood(ps, s)[x].(blood := ps[x].blood) == ps[x]
  {
  }

  lemma SetBloodSound(ps: People, rank: map<int, nat>, s: set<int>)
    requires Sound(ps, rank)
    ensures Sound(SetBlood(ps, s), rank)
  {
    var r := SetBlood(ps, s);
    forall x, i | x in r && 0 <= i < |r[x].family|
      ensures r[x].family[i].personId in r && LinkRanked(rank, x, r[x].family[i])
    {
      assert r[x].family == ps[x].family;
      assert LinkRanked(rank, x, ps[x].family[i]);
    }
  }

  /** The arena after `fix`, with `h` the cached head: promotion first, then
      the blood flags of the unbounded blood traversal from the head. */
  ghost function FixSpec(ps: People, rank: map<int, nat>, h: int): People
    requires Sound(ps, rank) && h in ps
  {
    PromoteSound(ps, rank);
    var p := PromoteAll(ps);
    SetBlood(p, BloodSpec(p, rank, h, None))
  }

  /** After `fix` the head carries the blood flag, every member of the blood
      traversal does, no flag was cleared, and every view is as before. */
  lemma FixEffect(ps: People, rank: map<int, nat>, h: int, x: int)
    requires Sound(ps, rank) && h in ps && x in ps
    ensures x in FixSpec(ps, rank, h) && Sound(PromoteAll(ps), rank)
    ensures var f := FixSpec(ps, rank, h);
      && f[h].blood
      && (x in BloodSpec(PromoteAll(ps), rank, h, None) ==> f[x].blood)
      && (ps[x].blood ==> f[x].blood)
      && f[x].Parents() == ps[x].Parents()
      && f[x].Children() == ps[x].Children()
      && f[x].Spouses() == ps[x].Spouses()
      && f[x].Siblings() == ps[x].Siblings()
  {
    PromoteSound(ps, rank);
    var p := PromoteAll(ps);
    BloodGrows(p, rank, None, {h}, {h});
    SetBloodEffect(p, BloodSpec(p, rank, h, None), x);
    SetBloodEffect(p, BloodSpec(p, rank, h, None), h);
    PromoteKeepsViews(ps, x);
  }

  lemma FixSound(ps: People, rank: map<int, nat>, h: int)
    requires Sound(ps, rank) && h in ps
    ensures FixSpec(ps, rank, h).Keys == ps.Keys
    ensures Sound(FixSpec(ps, rank, h), rank)
  {
    PromoteSound(ps, rank);
    var p := PromoteAll(ps);
    SetBloodSound(p, rank, BloodSpec(p, rank, h, None));
  }
}
