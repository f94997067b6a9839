/**
 * The value-level meaning of `Tree.rename` and `Tree.search_names`.
 */
module Lookup {
  import opened Relationship
  import opened Family
  import opened Graph

  function RenameId(x: int, a: int, b: int): int {
    if x == a then b else x
  }

  /** Each id of `ids` renamed. */
  function RenameIds(ids: seq<int>, a: int, b: int): (r: seq<int>)
    ensures |r| == |ids|
  {
    seq(|ids|, i requires 0 <= i < |ids| => RenameId(ids[i], a, b))
  }

  function RenameLinks(fam: seq<Link>, a: int, b: int): (r: seq<Link>)
    ensures |r| == |fam|
  {
    seq(|fam|, i requires 0 <= i < |fam| => fam[i].(personId := RenameId(fam[i].personId, a, b)))
  }

  /** The arena after `rename(a, b)`: member `a` is stored under `b`, and
      every link to `a` now names `b`. `b` must not already be another
      member's id, as two members cannot share a key. */
  function RenamePeople(ps: People, a: int, b: int): (r: People)
    requires b !in ps || a == b
    ensures r.Keys == if a in ps then ps.Keys - {a} + {b} else ps.Keys
  {
    var relinked := Relink(ps, a, b);
    if a in ps then (relinked - {a})[b := relinked[a]] else relinked
  }

  /** Every link to `a` rewritten to name `b`. */
  function Relink(ps: People, a: int, b: int): (r: People)
    ensures r.Keys == ps.Keys
  {
    map x | x in ps :: ps[x].(family := RenameLinks(ps[x].family, a, b))
  }

  /** Renaming changes ids and nothing else: each record keeps its name,
      gender, flags and relations, link by link. */
  lemma RenameKeepsRecords(ps: People, a: int, b: int, x: int)
    requires b !in ps || a == b
    requires x in ps
    ensures var q := RenamePeople(ps, a, b)[RenameId(x, a, b)];
      && q.(family := ps[x].family) == ps[x]
      && |q.family| == |ps[x].family|
      && forall i :: 0 <= i < |q.family| ==>
           q.family[i].relation == ps[x].family[i].relation
           && q.family[i].personId == RenameId(ps[x].family[i].personId, a, b)
  {
  }

  /** A member's renamed id is a member of the renamed arena. */
  lemma RenameKeyIn(ps: People, a: int, b: int, x: int)
    requires (b !in ps || a == b) && x in ps
    ensures RenameId(x, a, b) in RenamePeople(ps, a, b)
  {
    var keys := RenamePeople(ps, a, b).Keys;
    assert keys == if a in ps then ps.Keys - {a} + {b} else ps.Keys;
  }

  /** Renaming back restores the arena, provided the new id was free: not
      a member and not the target of any link. */
  lemma RenameRoundTrip(ps: People, a: int, b: int)
    requires b !in ps
    requires forall x, i :: x in ps && 0 <= i < |ps[x].family| ==> ps[x].family[i].personId != b
    ensures a !in RenamePeople(ps, a, b) || a == b
    ensures RenamePeople(RenamePeople(ps, a, b), b, a) == ps
  {
    var r := RenamePeople(ps, a, b);
    RenameBackKeys(ps, a, b);
    forall x | x in ps
      ensures RenamePeople(r, b, a)[x] == ps[x]
    {
      RenameBackRecord(ps, a, b, x);
    }
  }

  lemma RenameBackKeys(ps: People, a: int, b: int)
    requires b !in ps
    ensures a !in RenamePeople(ps, a, b) || a == b
    ensures RenamePeople(RenamePeople(ps, a, b), b, a).Keys == ps.Keys
  {
    var r := RenamePeople(ps, a, b);
    var back := RenamePeople(r, b, a);
    forall x | x in ps
      ensures x in back
    {
      assert RenameId(x, a, b) in r;
      assert RenameId(RenameId(x, a, b), b, a) == x;
    }
    forall y | y in back
      ensures y in ps
    {
      var z :| z in r && RenameId(z, b, a) == y;
      var x :| x in ps && RenameId(x, a, b) == z;
    }
  }

  lemma RenameBackRecord(ps: People, a: int, b: int, x: int)
    requires b !in ps && x in ps
    requires forall i :: 0 <= i < |ps[x].family| ==> ps[x].family[i].personId != b
    ensures a !in RenamePeople(ps, a, b) || a == b
    ensures x in RenamePeople(RenamePeople(ps, a, b), b, a)
    ensures RenamePeople(RenamePeople(ps, a, b), b, a)[x] == ps[x]
  {
    var r := RenamePeople(ps, a, b);
    RenameBackKeys(ps, a, b);
    RenameKeepsRecords(ps, a, b, x);
    RenameKeepsRecords(r, b, a, RenameId(x, a, b));
    assert RenameId(RenameId(x, a, b), b, a) == x;
    assert RenameLinks(RenameLinks(ps[x].family, a, b), b, a) == ps[x].family;
  }

  /** A closed arena stays closed under renaming. */
  lemma RenameClosed(ps: People, a: int, b: int)
    requires Closed(ps) && (b !in ps || a == b)
    ensures Closed(RenamePeople(ps, a, b))
  {
    var r := RenamePeople(ps, a, b);
    forall y, i | y in r && 0 <= i < |r[y].family|
      ensures r[y].family[i].personId in r
    {
      var x :| x in ps && RenameId(x, a, b) == y;
      RenameKeepsRecords(ps, a, b, x);
    }
  }

  /** The rank carried over to the new ids: `b` takes the rank of `a`. */
  function RenameRank(rank: map<int, nat>, a: int, b: int): map<int, nat> {
    if a in rank then (rank - {a})[b := rank[a]] else rank
  }

  lemma RenameRanked(ps: People, rank: map<int, nat>, a: int, b: int)
    requires Closed(ps) && Ranked(ps, rank) && (b !in ps || a == b)
    ensures Ranked(RenamePeople(ps, a, b), RenameRank(rank, a, b))
  {
    var r := RenamePeople(ps, a, b);
    var rr := RenameRank(rank, a, b);
    forall y | y in r
      ensures y in rr
    {
      var x :| x in ps && RenameId(x, a, b) == y;
    }
    forall y, i | y in r && 0 <= i < |r[y].family|
      ensures LinkRanked(rr, y, r[y].family[i])
    {
      var x :| x in ps && RenameId(x, a, b) == y;
      RenameKeepsRecords(ps, a, b, x);
      var l := ps[x].family[i];
      assert LinkRanked(rank, x, l);
      RankAt(rank, a, b, x);
      RankAt(rank, a, b, l.personId);
    }
  }

  /** A ranked id keeps its rank under its new id. */
  lemma RankAt(rank: map<int, nat>, a: int, b: int, x: int)
    requires x in rank
    ensures RenameId(x, a, b) in RenameRank(rank, a, b)
    ensures RenameRank(rank, a, b)[RenameId(x, a, b)] == rank[x] || (x == b && a != b)
  {
  }

  /** `t` occurs in `s` starting at index `i`. */
  ghost predicate OccursAt(t: string, s: string, i: int) {
    0 <= i && i + |t| <= |s| && s[i..i + |t|] == t
  }

  /** `t` occurs in `s` as a contiguous piece. */
  ghost predicate Occurs(t: string, s: string) {
    exists i :: OccursAt(t, s, i)
  }

  /** Python's `t in s` on strings. */
  function Contains(s: string, t: string): (r: bool)
    ensures r <==> Occurs(t, s)
    decreases |s|
  {
    if |t| > |s| then false
    else if s[..|t|] == t then assert OccursAt(t, s, 0); true
    else
      var r := Contains(s[1..], t);
      ContainsShift(s, t);
      r
  }

  lemma ContainsShift(s: string, t: string)
    requires |t| <= |s| && s[..|t|] != t
    ensures Occurs(t, s) <==> Occurs(t, s[1..])
  {
    if Occurs(t, s) {
      var i :| OccursAt(t, s, i);
      assert i != 0;
      assert s[1..][i - 1..i - 1 + |t|] == t;
      assert OccursAt(t, s[1..], i - 1);
    }
    if Occurs(t, s[1..]) {
      var i :| OccursAt(t, s[1..], i);
      assert s[i + 1..i + 1 + |t|] == t;
      assert OccursAt(t, s, i + 1);
    }
  }

  /** The empty string occurs in every name; a string longer than the name
      never does. */
  lemma ContainsEdges(s: string, t: string)
    ensures Contains(s, [])
    ensures |t| > |s| ==> !Contains(s, t)
  {
    assert OccursAt([], s, 0);
  }
}
