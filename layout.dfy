/**
 * The row layout computed by `drawTree`: people of the blood set are
 * placed generation by generation, each new person inserted just left or
 * right of someone already placed, so that every row stays a gap-free
 * sequence whose entries know their own index.
 */
module DrawTree {
  import opened Relationship
  import opened Family
  import opened Measure
  import opened Graph
  import opened Connect
  import FamilyTree

  /** `'left'` or `'right'` in `get_child_row`. */
  datatype Dir = Left | Right

  /** How a placement ends: placed, or one of the two assertion failures
      (`person.g == q.g` in `add_left`/`add_right`, and the `pos` check
      after an `add_parent`/`add_child` that found no anchor). */
  datatype Outcome = Placed | GenerationMismatch | NoAnchor

  /** Where a newcomer goes: first in an empty row, just left or just right
      of a placed person, or nowhere. */
  datatype Anchor = EmptyRow | LeftOf(id: int) | RightOf(id: int) | Nowhere

  /** Which of the four loops of the placement worklist places a person. */
  datatype Role = AsSibling | AsSpouse | AsParent | AsChild

  /** The generation a relative of a person in generation `g` goes to. */
  function RoleGen(role: Role, g: int): int {
    match role
    case AsParent => g + 1
    case AsChild => g - 1
    case _ => g
  }

  function Min(a: int, b: int): int { if a < b then a else b }

  /** `generation_rows[g]` of the `defaultdict`: missing rows are empty. */
  function RowOf(rows: map<int, seq<int>>, g: int): seq<int> {
    if g in rows then rows[g] else []
  }

  /** `row.insert(i, x)`. */
  function Insert(row: seq<int>, i: int, x: int): (r: seq<int>)
    requires 0 <= i <= |row|
    ensures |r| == |row| + 1 && r[i] == x
    ensures forall k :: 0 <= k < i ==> r[k] == row[k]
    ensures forall k :: i < k < |r| ==> r[k] == row[k - 1]
  {
    row[..i] + [x] + row[i..]
  }

  /** Every placed person of generation `g` at index `i` or later moves one
      place to the right. */
  function Shift(pos: map<int, int>, gen: map<int, int>, g: int, i: int): (r: map<int, int>)
    ensures r.Keys == pos.Keys
  {
    map x | x in pos :: if x in gen && gen[x] == g && pos[x] >= i then pos[x] + 1 else pos[x]
  }

  /** The `p.pos += 1` loop over the entries `later`. */
  function Bump(pos: map<int, int>, later: seq<int>): (r: map<int, int>)
    ensures r.Keys == pos.Keys
  {
    map x | x in pos :: if x in later then pos[x] + 1 else pos[x]
  }

  /** The central layout invariant: the entry at index `i` of row `g` is
      placed with `pos == i` and generation `g`, and every placed person
      sits in its own row at its own index. */
  ghost predicate Indexed(rows: map<int, seq<int>>, gen: map<int, int>, pos: map<int, int>) {
    && pos.Keys <= gen.Keys
    && (forall g, i :: g in rows && 0 <= i < |rows[g]| ==>
          rows[g][i] in pos && pos[rows[g][i]] == i && gen[rows[g][i]] == g)
    && (forall x {:trigger SitsAt(rows, gen, pos, x)} :: x in pos ==> SitsAt(rows, gen, pos, x))
  }

  /** The placed person `x` is the entry of its row at its own index. */
  ghost predicate SitsAt(rows: map<int, seq<int>>, gen: map<int, int>, pos: map<int, int>, x: int) {
    x in pos && x in gen && 0 <= pos[x] < |RowOf(rows, gen[x])| && RowOf(rows, gen[x])[pos[x]] == x
  }

  lemma Sits(rows: map<int, seq<int>>, gen: map<int, int>, pos: map<int, int>, x: int)
    requires Indexed(rows, gen, pos) && x in pos
    ensures SitsAt(rows, gen, pos, x)
  {
  }

  /** Inserting a newcomer at index `i` of its row and shifting the later
      entries keeps every row gap-free and indexed. */
  lemma InsertIndexed(rows: map<int, seq<int>>, gen: map<int, int>, pos: map<int, int>, g: int, i: int, x: int)
    requires Indexed(rows, gen, pos) && x !in pos && x in gen && gen[x] == g
    requires 0 <= i <= |RowOf(rows, g)|
    ensures Indexed(rows[g := Insert(RowOf(rows, g), i, x)], gen, Shift(pos, gen, g, i)[x := i])
  {
    InsertRows(rows, gen, pos, g, i, x);
    InsertPositions(rows, gen, pos, g, i, x);
  }

  /** After the insertion each row entry is placed at its own index. */
  lemma InsertRows(rows: map<int, seq<int>>, gen: map<int, int>, pos: map<int, int>, g: int, i: int, x: int)
    requires Indexed(rows, gen, pos) && x !in pos && x in gen && gen[x] == g
    requires 0 <= i <= |RowOf(rows, g)|
    ensures var r2 := rows[g := Insert(RowOf(rows, g), i, x)];
      var p2 := Shift(pos, gen, g, i)[x := i];
      forall h, j :: h in r2 && 0 <= j < |r2[h]| ==> r2[h][j] in p2 && p2[r2[h][j]] == j && gen[r2[h][j]] == h
  {
    var r2 := rows[g := Insert(RowOf(rows, g), i, x)];
    var p2 := Shift(pos, gen, g, i)[x := i];
    forall h, j | h in r2 && 0 <= j < |r2[h]|
      ensures r2[h][j] in p2 && p2[r2[h][j]] == j && gen[r2[h][j]] == h
    {
      if h == g {
        InsertedEntry(rows, gen, pos, g, i, x, j);
      } else {
        assert r2[h][j] == rows[h][j];
      }
    }
  }

  /** Entry `j` of the row that received the newcomer. */
  lemma InsertedEntry(rows: map<int, seq<int>>, gen: map<int, int>, pos: map<int, int>, g: int, i: int, x: int, j: int)
    requires Indexed(rows, gen, pos) && x !in pos && x in gen && gen[x] == g
    requires 0 <= i <= |RowOf(rows, g)| && 0 <= j <= |RowOf(rows, g)|
    ensures var y := Insert(RowOf(rows, g), i, x)[j];
      var p2 := Shift(pos, gen, g, i)[x := i];
      y in p2 && p2[y] == j && gen[y] == g
  {
    var row := RowOf(rows, g);
    if j < i {
      assert Insert(row, i, x)[j] == row[j] == rows[g][j];
    } else if j > i {
      assert Insert(row, i, x)[j] == row[j - 1] == rows[g][j - 1];
    }
  }

  /** After the insertion each placed person sits at its index in its row. */
  lemma InsertPositions(rows: map<int, seq<int>>, gen: map<int, int>, pos: map<int, int>, g: int, i: int, x: int)
    requires Indexed(rows, gen, pos) && x !in pos && x in gen && gen[x] == g
    requires 0 <= i <= |RowOf(rows, g)|
    ensures var r2 := rows[g := Insert(RowOf(rows, g), i, x)];
      var p2 := Shift(pos, gen, g, i)[x := i];
      forall y :: y in p2 ==> SitsAt(r2, gen, p2, y)
  {
    var r2 := rows[g := Insert(RowOf(rows, g), i, x)];
    var p2 := Shift(pos, gen, g, i)[x := i];
    forall y | y in p2
      ensures SitsAt(r2, gen, p2, y)
    {
      if y != x {
        Sits(rows, gen, pos, y);
        ShiftedSits(rows, gen, pos, g, i, x, y);
      }
    }
  }

  /** One person who was already placed, after the insertion. */
  lemma ShiftedSits(rows: map<int, seq<int>>, gen: map<int, int>, pos: map<int, int>, g: int, i: int, x: int, y: int)
    requires SitsAt(rows, gen, pos, y) && x !in pos && x in gen && gen[x] == g
    requires 0 <= i <= |RowOf(rows, g)|
    ensures SitsAt(rows[g := Insert(RowOf(rows, g), i, x)], gen, Shift(pos, gen, g, i)[x := i], y)
  {
    var row := RowOf(rows, g);
    var r2 := rows[g := Insert(row, i, x)];
    var p2 := Shift(pos, gen, g, i)[x := i];
    assert y != x;
    if gen[y] == g {
      assert RowOf(r2, g) == Insert(row, i, x);
      assert row[pos[y]] == y;
      if pos[y] >= i {
        assert p2[y] == pos[y] + 1;
        assert Insert(row, i, x)[pos[y] + 1] == y;
      } else {
        assert p2[y] == pos[y];
        assert Insert(row, i, x)[pos[y]] == y;
      }
    } else {
      assert RowOf(r2, gen[y]) == RowOf(rows, gen[y]);
      assert p2[y] == pos[y];
    }
  }

  /** Giving an unplaced person a generation keeps the rows indexed. */
  lemma GenIndexed(rows: map<int, seq<int>>, gen: map<int, int>, pos: map<int, int>, t: int, v: int)
    requires Indexed(rows, gen, pos) && t !in pos
    ensures Indexed(rows, gen[t := v], pos)
  {
    forall x | x in pos
      ensures SitsAt(rows, gen[t := v], pos, x)
    {
      Sits(rows, gen, pos, x);
    }
  }

  /** A row with nobody in it: shifting it changes nobody. */
  lemma ShiftEmptyRow(rows: map<int, seq<int>>, gen: map<int, int>, pos: map<int, int>, g: int, i: int)
    requires Indexed(rows, gen, pos) && RowOf(rows, g) == []
    ensures Shift(pos, gen, g, i) == pos
  {
    forall y | y in pos
      ensures gen[y] != g
    {
      Sits(rows, gen, pos, y);
    }
  }

  /** Bumping the entries after the inserted one is the shift of the old
      row from `i` on. */
  lemma BumpIsShift(rows: map<int, seq<int>>, gen: map<int, int>, pos: map<int, int>, g: int, i: int, x: int)
    requires Indexed(rows, gen, pos) && x !in pos && x in gen && gen[x] == g
    requires 0 <= i <= |RowOf(rows, g)|
    ensures Bump(pos[x := i], Insert(RowOf(rows, g), i, x)[i + 1..]) == Shift(pos, gen, g, i)[x := i]
  {
    var row := RowOf(rows, g);
    var later := Insert(row, i, x)[i + 1..];
    assert later == row[i..];
    var b := Bump(pos[x := i], later);
    var s := Shift(pos, gen, g, i)[x := i];
    forall y | y in b
      ensures b[y] == s[y]
    {
      if y != x {
        Sits(rows, gen, pos, y);
        if y in later {
          var k :| 0 <= k < |later| && later[k] == y;
          assert row[i + k] == y;
        }
        if gen[y] == g && pos[y] >= i {
          assert row[pos[y]] == y;
          assert later[pos[y] - i] == y;
        }
      } else {
        assert x !in row;
      }
    }
  }

  /** The set that a shift moves keeps its order: two people of the same
      generation stay in the same left-to-right order. */
  lemma ShiftKeepsOrder(pos: map<int, int>, gen: map<int, int>, g: int, i: int, a: int, b: int)
    requires a in pos && b in pos && a in gen && b in gen && gen[a] == gen[b]
    ensures pos[a] < pos[b] <==> Shift(pos, gen, g, i)[a] < Shift(pos, gen, g, i)[b]
  {
  }

  /** `min(hits, key=pos)` for `Left`, `max` for `Right`: the first entry
      whose position is extreme. */
  function Best(pos: map<int, int>, hits: seq<int>, dir: Dir): (r: Option<int>)
    requires forall k :: 0 <= k < |hits| ==> hits[k] in pos
    ensures r.None? <==> hits == []
    ensures r.Some? ==> r.value in hits && r.value in pos
    ensures r.Some? ==> forall k :: 0 <= k < |hits| ==> !Better(pos[hits[k]], pos[r.value], dir)
    decreases |hits|
  {
    if hits == [] then None
    else
      var b := Best(pos, hits[..|hits| - 1], dir);
      var c := hits[|hits| - 1];
      assert forall k :: 0 <= k < |hits| - 1 ==> hits[..|hits| - 1][k] == hits[k];
      if b.None? || Better(pos[c], pos[b.value], dir) then Some(c) else b
  }

  /** `a` lies strictly further in direction `dir` than `b`. */
  predicate Better(a: int, b: int, dir: Dir) {
    if dir == Left then a < b else a > b
  }

  /** One more entry: it wins when strictly more extreme than the best so far. */
  lemma BestSnoc(pos: map<int, int>, hits: seq<int>, c: int, dir: Dir)
    requires forall k :: 0 <= k < |hits| ==> hits[k] in pos
    requires c in pos
    ensures var b := Best(pos, hits, dir);
      Best(pos, hits + [c], dir) == if b.None? || Better(pos[c], pos[b.value], dir) then Some(c) else b
  {
    assert (hits + [c])[..|hits|] == hits;
  }

  /** Of several entries at the extreme position, `Best` keeps the first:
      every entry before it is strictly less extreme. */
  lemma {:induction false} BestFirst(pos: map<int, int>, hits: seq<int>, dir: Dir) returns (j: int)
    requires forall k :: 0 <= k < |hits| ==> hits[k] in pos
    requires hits != []
    ensures 0 <= j < |hits| && Best(pos, hits, dir) == Some(hits[j])
    ensures forall k :: 0 <= k < j ==> Better(pos[hits[j]], pos[hits[k]], dir)
    decreases |hits|
  {
    var init := hits[..|hits| - 1];
    var c := hits[|hits| - 1];
    if init == [] {
      j := 0;
    } else {
      var b := Best(pos, init, dir);
      var i := BestFirst(pos, init, dir);
      if Better(pos[c], pos[b.value], dir) {
        j := |hits| - 1;
        forall k | 0 <= k < j
          ensures Better(pos[hits[j]], pos[hits[k]], dir)
        {
          assert init[k] == hits[k];
          assert !Better(pos[init[k]], pos[b.value], dir);
        }
      } else {
        j := i;
      }
    }
  }

  /** Every relative of `p` kept by the four views that belongs to the
      drawn set has been placed. */
  ghost predicate Covered(p: Person, people: set<int>, placed: set<int>) {
    && Reached(p.Siblings(), people, placed)
    && Reached(p.Spouses(), people, placed)
    && Reached(p.Parents(), people, placed)
    && Reached(p.Children(), people, placed)
  }

  predicate Reached(list: seq<int>, people: set<int>, placed: set<int>) {
    forall k :: 0 <= k < |list| && list[k] in people ==> list[k] in placed
  }

  /** Two generation maps agree on the people of `s`. */
  ghost predicate Agree(g1: map<int, int>, g2: map<int, int>, s: set<int>) {
    forall x :: x in s ==> x in g1 && x in g2 && g1[x] == g2[x]
  }

  lemma AgreeTrans(g1: map<int, int>, g2: map<int, int>, g3: map<int, int>, s1: set<int>, s2: set<int>)
    requires Agree(g1, g2, s1) && Agree(g2, g3, s2) && s1 <= s2
    ensures Agree(g1, g3, s1)
  {
  }

  lemma ReachedGrows(list: seq<int>, people: set<int>, a: set<int>, b: set<int>)
    requires Reached(list, people, a) && a <= b
    ensures Reached(list, people, b)
  {
  }

  lemma CoveredGrows(p: Person, people: set<int>, a: set<int>, b: set<int>)
    requires Covered(p, people, a) && a <= b
    ensures Covered(p, people, b)
  {
  }

  /** The children of a member are members ranked below it. */
  lemma KidsBelow(ps: People, rank: map<int, nat>, x: int)
    requires Sound(ps, rank) && x in ps
    ensures forall k :: 0 <= k < |ps[x].Children()| ==>
      ps[x].Children()[k] in ps && ps[x].Children()[k] in rank && rank[ps[x].Children()[k]] < rank[x]
  {
    TargetSetsAreViews(ps[x]);
    forall k | 0 <= k < |ps[x].Children()|
      ensures ps[x].Children()[k] in ps && ps[x].Children()[k] in rank && rank[ps[x].Children()[k]] < rank[x]
    {
      ChildRanked(ps, rank, x, ps[x].Children()[k]);
    }
  }

  class Layout {
    /** The fixed tree being drawn. */
    const graph: People
    ghost const rank: map<int, nat>
    /** The blood set returned by `explore_blood(generations)`. */
    const people: set<int>
    const head: int
    /** `generation_rows`. */
    var rows: map<int, seq<int>>
    /** The `g` attribute of each person that has one. */
    var gen: map<int, int>
    /** The `pos` attribute: present only once a person is placed. */
    var pos: map<int, int>
    var seenPath: map<int, seq<int>>
    var ignoreTree: set<int>
    /** The ids already seen and the `next_add` worklist. */
    var seen: set<int>
    var nextAdd: set<int>

    ghost predicate Valid()
      reads this`rows, this`gen, this`pos, this`seenPath
    {
      && Sound(graph, rank) && people <= graph.Keys && head in people
      && Indexed(rows, gen, pos)
      && pos.Keys <= people && pos.Keys <= seenPath.Keys
      && (forall x, j :: x in seenPath && 0 <= j < |seenPath[x]| ==> seenPath[x][j] in pos)
    }

    /** Nothing about the layout changed. */
    twostate predicate Unmoved()
      reads this
    {
      && rows == old(rows) && pos == old(pos) && gen == old(gen)
      && seenPath == old(seenPath) && ignoreTree == old(ignoreTree)
      && seen == old(seen) && nextAdd == old(nextAdd)
    }

    /** `q` was inserted at index `i` of row `g`: it sits there with
        `pos == i`, and every placed person of that row from `i` on moved
        one to the right. Nothing else changed but the seen paths. */
    twostate predicate Inserted(g: int, i: int, q: int)
      reads this
    {
      && 0 <= i <= |RowOf(old(rows), g)|
      && rows == old(rows)[g := Insert(RowOf(old(rows), g), i, q)]
      && pos == Shift(old(pos), old(gen), g, i)[q := i]
      && gen == old(gen) && ignoreTree == old(ignoreTree)
      && seen == old(seen) && nextAdd == old(nextAdd)
    }

    /** What the worklist needs to know of a placement attempt: only `q`
        can have become placed, and only when the outcome says so. */
    twostate predicate Grew(q: int, outcome: Outcome)
      reads this
    {
      && gen == old(gen) && seen == old(seen) && nextAdd == old(nextAdd)
      && (outcome == Placed ==> q in pos && pos.Keys == old(pos).Keys + {q})
      && (outcome != Placed ==> pos == old(pos))
    }

    /** What placing `q` (of generation `g`) at anchor `a` does. */
    twostate predicate Applied(a: Anchor, q: int, g: int, outcome: Outcome)
      reads this
    {
      match a
        case EmptyRow => outcome == Placed && Inserted(g, 0, q)
        case LeftOf(p) =>
          p in old(pos) && p in old(gen)
          && if old(gen)[p] == g then outcome == Placed && Inserted(g, old(pos)[p], q)
             else outcome == GenerationMismatch && Unmoved()
        case RightOf(p) =>
          p in old(pos) && p in old(gen)
          && if old(gen)[p] == g then outcome == Placed && Inserted(g, old(pos)[p] + 1, q)
             else outcome == GenerationMismatch && Unmoved()
        case Nowhere => outcome == NoAnchor && Unmoved()
    }

    /** The set-up before the closures: the head alone in row 0. */
    constructor (graph: People, ghost rank: map<int, nat>, people: set<int>, head: int)
      requires Sound(graph, rank) && people <= graph.Keys && head in people
      ensures Valid()
      ensures this.graph == graph && this.rank == rank && this.people == people && this.head == head
      ensures rows == map[0 := [head]] && gen == map[head := 0] && pos == map[head := 0]
      ensures seenPath == map[head := []] && ignoreTree == {}
      ensures seen == {head} && nextAdd == {head}
    {
      this.graph := graph;
      this.rank := rank;
      this.people := people;
      this.head := head;
      rows := map[0 := [head]];
      gen := map[head := 0];
      pos := map[head := 0];
      seenPath := map[head := []];
      ignoreTree := {};
      seen := {head};
      nextAdd := {head};
    }

    // -------------------------------------------------------------------
    // add_left, add_right
    // -------------------------------------------------------------------

    /** `add_left(person, q, update_path)`: `q` takes `person`'s index,
        and `person` and everyone after it move one to the right. */
    method AddLeft(person: int, q: int, updatePath: bool) returns (outcome: Outcome)
      requires Valid() && person in pos && q !in pos && q in people && q in gen && q in seenPath
      modifies this
      ensures Valid()
      ensures Applied(LeftOf(person), q, old(gen[q]), outcome)
      ensures outcome == Placed ==>
        seenPath == if updatePath then old(seenPath)[q := old(seenPath[person]) + [person]] else old(seenPath)
      ensures Grew(q, outcome)
    {
      if gen[person] != gen[q] {
        return GenerationMismatch;
      }
      if updatePath {
        seenPath := seenPath[q := seenPath[person] + [person]];
      }
      Sits(rows, gen, pos, person);
      InsertAt(gen[q], pos[person], q);
      outcome := Placed;
    }

    /** `add_right(person, q, update_path)`: `q` goes just after
        `person`, and everyone after it moves one to the right. */
    method AddRight(person: int, q: int, updatePath: bool) returns (outcome: Outcome)
      requires Valid() && person in pos && q !in pos && q in people && q in gen && q in seenPath
      modifies this
      ensures Valid()
      ensures Applied(RightOf(person), q, old(gen[q]), outcome)
      ensures outcome == Placed ==>
        seenPath == if updatePath then old(seenPath)[q := old(seenPath[person]) + [person]] else old(seenPath)
      ensures Grew(q, outcome)
    {
      if gen[person] != gen[q] {
        return GenerationMismatch;
      }
      if updatePath {
        seenPath := seenPath[q := seenPath[person] + [person]];
      }
      Sits(rows, gen, pos, person);
      InsertAt(gen[q], pos[person] + 1, q);
      outcome := Placed;
    }

    /** The common body of `add_left` and `add_right`: set `q.pos`,
        insert into the row, then bump the `pos` of every later entry. */
    method InsertAt(g: int, i: int, q: int)
      requires Valid() && q !in pos && q in people && q in gen && gen[q] == g && q in seenPath
      requires 0 <= i <= |RowOf(rows, g)|
      modifies this`rows, this`pos
      ensures Valid() && Inserted(g, i, q)
    {
      ghost var p0 := pos;
      ghost var r0 := rows;
      InsertIndexed(rows, gen, pos, g, i, q);
      BumpIsShift(rows, gen, pos, g, i, q);
      pos := pos[q := i];
      rows := rows[g := Insert(RowOf(rows, g), i, q)];
      Bumping(rows[g][i + 1..]);
      assert pos == Shift(p0, gen, g, i)[q := i];
    }

    /** `for p in later: p.pos += 1`, for distinct entries `later`. */
    method Bumping(later: seq<int>)
      requires forall k :: 0 <= k < |later| ==> later[k] in pos
      requires forall j, k :: 0 <= j < k < |later| ==> later[j] != later[k]
      modifies this`pos
      ensures pos == Bump(old(pos), later)
    {
      for k := 0 to |later|
        invariant pos == Bump(old(pos), later[..k])
      {
        assert later[k] !in later[..k];
        assert forall y :: y in later[..k + 1] <==> y in later[..k] || y == later[k];
        pos := pos[later[k] := pos[later[k]] + 1];
      }
      assert later[..|later|] == later;
    }

    /** An empty row: `q.pos = 0` and `row.append(q)`. */
    method AppendFirst(q: int)
      requires Valid() && q !in pos && q in people && q in gen && q in seenPath && RowOf(rows, gen[q]) == []
      modifies this`rows, this`pos
      ensures Valid() && Inserted(gen[q], 0, q)
    {
      ShiftEmptyRow(rows, gen, pos, gen[q], 0);
      assert Insert(RowOf(rows, gen[q]), 0, q) == [q];
      InsertIndexed(rows, gen, pos, gen[q], 0, q);
      pos := pos[q := 0];
      rows := rows[gen[q] := [q]];
    }

    /** Places `q` at the anchor `a`. */
    method Apply(a: Anchor, q: int) returns (outcome: Outcome)
      requires Valid() && q !in pos && q in people && q in gen && q in seenPath
      requires a == EmptyRow ==> RowOf(rows, gen[q]) == []
      requires a.LeftOf? || a.RightOf? ==> a.id in pos
      modifies this
      ensures Valid() && Applied(a, q, old(gen[q]), outcome) && Grew(q, outcome)
      ensures seenPath == old(seenPath)
    {
      match a
      case EmptyRow =>
        AppendFirst(q);
        outcome := Placed;
      case LeftOf(p) =>
        outcome := AddLeft(p, q, false);
      case RightOf(p) =>
        outcome := AddRight(p, q, false);
      case Nowhere =>
        outcome := NoAnchor;
    }

    // -------------------------------------------------------------------
    // add_parent
    // -------------------------------------------------------------------

    /** The entries of `ids` that are placed, in order. */
    function PlacedOf(ids: seq<int>): (r: seq<int>)
      reads this
      ensures forall k :: 0 <= k < |r| ==> r[k] in pos
    {
      if ids == [] then []
      else
        var last := ids[|ids| - 1];
        PlacedOf(ids[..|ids| - 1]) + (if last in pos then [last] else [])
    }

    lemma PlacedSnoc(ids: seq<int>, y: int)
      ensures PlacedOf(ids + [y]) == PlacedOf(ids) + (if y in pos then [y] else [])
    {
      assert (ids + [y])[..|ids|] == ids;
    }

    /** One more candidate for `ExtremeParent`'s scan. */
    lemma ExtremeSnoc(ids: seq<int>, y: int, dir: Dir)
      ensures var b := Best(pos, PlacedOf(ids), dir);
        Best(pos, PlacedOf(ids + [y]), dir)
        == if y in pos && (b.None? || Better(pos[y], pos[b.value], dir)) then Some(y) else b
    {
      PlacedSnoc(ids, y);
      if y in pos {
        BestSnoc(pos, PlacedOf(ids), y, dir);
      } else {
        assert PlacedOf(ids) + [] == PlacedOf(ids);
      }
    }

    /** The first placed entry of `ids`. */
    function FirstPlaced(ids: seq<int>): (r: Option<int>)
      reads this
      ensures r.Some? <==> exists k :: 0 <= k < |ids| && ids[k] in pos
      ensures r.Some? ==> r.value in ids && r.value in pos
    {
      if ids == [] then None
      else if ids[0] in pos then Some(ids[0])
      else FirstPlaced(ids[1..])
    }

    /** The placed parent of `p` with the largest (`Right`) or smallest
        (`Left`) position, the first such one on ties. */
    function ExtremeParent(p: int, dir: Dir): (r: Option<int>)
      reads this
      requires p in graph
      ensures r.Some? ==> r.value in pos
    {
      Best(pos, PlacedOf(graph[p].Parents()), dir)
    }

    /** The entries of the row of `person` are people of the tree, and so
        is `person`: what the anchor searches need. */
    ghost predicate Anchorable(person: int)
      reads this
    {
      && person in pos && person in gen && person in graph
      && 0 <= pos[person] < |RowOf(rows, gen[person])|
      && forall j :: 0 <= j < |RowOf(rows, gen[person])| ==> RowOf(rows, gen[person])[j] in graph
    }

    lemma ValidAnchorable(person: int)
      requires Valid() && person in pos
      ensures Anchorable(person)
    {
      Sits(rows, gen, pos, person);
    }

    /** The scan of `row[k::-1]`: the first entry with a placed parent gives
        its right-most placed parent. */
    function LeftScan(row: seq<int>, k: int): (r: Option<int>)
      reads this
      requires -1 <= k < |row| && forall j :: 0 <= j < |row| ==> row[j] in graph
      ensures r.Some? ==> r.value in pos
      decreases k + 1
    {
      if k < 0 then None
      else match ExtremeParent(row[k], Right)
        case Some(v) => Some(v)
        case None => LeftScan(row, k - 1)
    }

    /** The scan of `row[k:]`: the first entry with a placed parent gives
        its left-most placed parent. */
    function RightScan(row: seq<int>, k: int): (r: Option<int>)
      reads this
      requires 0 <= k <= |row| && forall j :: 0 <= j < |row| ==> row[j] in graph
      ensures r.Some? ==> r.value in pos
      decreases |row| - k
    {
      if k == |row| then None
      else match ExtremeParent(row[k], Left)
        case Some(v) => Some(v)
        case None => RightScan(row, k + 1)
    }

    /** The fallback chain of `add_parent` for a parent `q` of `person`:
        an empty row; else beside `person`'s first placed parent (left when
        `q` is male); else right of the right-most placed parent of the
        nearest entry at or left of `person` that has one; else left of the
        left-most placed parent of the nearest entry right of `person`. */
    function ParentAnchor(person: int, q: int): (a: Anchor)
      reads this
      requires Anchorable(person) && q in graph
      ensures a == EmptyRow ==> RowOf(rows, gen[person] + 1) == []
      ensures a.LeftOf? || a.RightOf? ==> a.id in pos
    {
      if RowOf(rows, gen[person] + 1) == [] then EmptyRow
      else match FirstPlaced(graph[person].Parents())
        case Some(p) => if graph[q].gender == Male then LeftOf(p) else RightOf(p)
        case None => RowAnchor(person)
    }

    /** The last two steps of `add_parent`, over `person`'s own row. */
    function RowAnchor(person: int): (a: Anchor)
      reads this
      requires Anchorable(person)
      ensures a.LeftOf? || a.RightOf? ==> a.id in pos
      ensures a != EmptyRow
    {
      var row := RowOf(rows, gen[person]);
      match LeftScan(row, pos[person])
      case Some(v) => RightOf(v)
      case None =>
        match RightScan(row, pos[person] + 1)
        case Some(v) => LeftOf(v)
        case None => Nowhere
    }

    /** `add_parent(person, q)`. */
    method AddParent(person: int, q: int) returns (outcome: Outcome)
      requires Valid() && person in pos && q !in pos && q in people
      requires q in gen && gen[q] == gen[person] + 1 && q in seenPath
      modifies this
      ensures Valid()
      ensures old(Anchorable(person)) && Applied(old(ParentAnchor(person, q)), q, old(gen[q]), outcome)
      ensures Grew(q, outcome) && seenPath == old(seenPath)
    {
      ValidAnchorable(person);
      var a := FindParentAnchor(person, q);
      outcome := Apply(a, q);
    }

    /** The read-only half of `add_parent`: its loops, which pick the anchor. */
    method FindParentAnchor(person: int, q: int) returns (a: Anchor)
      requires Anchorable(person) && q in graph
      ensures a == ParentAnchor(person, q)
    {
      if |RowOf(rows, gen[person] + 1)| == 0 {
        return EmptyRow;
      }
      var first := FindFirstPlaced(graph[person].Parents());
      if first.Some? {
        if graph[q].gender == Male {
          return LeftOf(first.value);
        } else {
          return RightOf(first.value);
        }
      }
      a := FindRowAnchor(person);
    }

    method FindRowAnchor(person: int) returns (a: Anchor)
      requires Anchorable(person)
      ensures a == RowAnchor(person)
    {
      var row := RowOf(rows, gen[person]);
      var value := ScanLeft(row, pos[person]);
      if value.Some? {
        return RightOf(value.value);
      }
      value := ScanRight(row, pos[person] + 1);
      if value.Some? {
        return LeftOf(value.value);
      }
      return Nowhere;
    }

    /** `for parent in person.parents: if hasattr(parent, 'pos'): ...`. */
    method FindFirstPlaced(ids: seq<int>) returns (r: Option<int>)
      ensures r == FirstPlaced(ids)
    {
      for k := 0 to |ids|
        invariant FirstPlaced(ids[k..]) == FirstPlaced(ids)
      {
        if ids[k] in pos {
          return Some(ids[k]);
        }
        assert ids[k..][1..] == ids[k + 1..];
      }
      return None;
    }

    /** `for p in row[k::-1]`, stopping at the first entry with a placed
        parent. */
    method ScanLeft(row: seq<int>, k0: int) returns (r: Option<int>)
      requires -1 <= k0 < |row| && forall j :: 0 <= j < |row| ==> row[j] in graph
      ensures r == LeftScan(row, k0)
    {
      var k := k0;
      while k >= 0
        invariant -1 <= k <= k0
        invariant LeftScan(row, k) == LeftScan(row, k0)
        decreases k + 1
      {
        var value := FindExtremeParent(row[k], Right);
        if value.Some? {
          return value;
        }
        k := k - 1;
      }
      return None;
    }

    /** `for p in row[k:]`, stopping at the first entry with a placed
        parent. */
    method ScanRight(row: seq<int>, k0: int) returns (r: Option<int>)
      requires 0 <= k0 <= |row| && forall j :: 0 <= j < |row| ==> row[j] in graph
      ensures r == RightScan(row, k0)
    {
      var k := k0;
      while k < |row|
        invariant k0 <= k <= |row|
        invariant RightScan(row, k) == RightScan(row, k0)
        decreases |row| - k
      {
        var value := FindExtremeParent(row[k], Left);
        if value.Some? {
          return value;
        }
        k := k + 1;
      }
      return None;
    }

    /** `for p2 in p.parents: if hasattr(p2, 'pos'): if value is None or
        p2.pos > value.pos: value = p2` (with `<` for `Left`). */
    method FindExtremeParent(p: int, dir: Dir) returns (value: Option<int>)
      requires p in graph
      ensures value == ExtremeParent(p, dir)
    {
      var parents := graph[p].Parents();
      value := None;
      for k := 0 to |parents|
        invariant value == Best(pos, PlacedOf(parents[..k]), dir)
      {
        var p2 := parents[k];
        assert parents[..k + 1] == parents[..k] + [p2];
        ExtremeSnoc(parents[..k], p2, dir);
        if p2 in pos {
          if value.None? || Better(pos[p2], pos[value.value], dir) {
            value := Some(p2);
          }
        }
      }
      assert parents[..|parents|] == parents;
    }

    // -------------------------------------------------------------------
    // get_child_row
    // -------------------------------------------------------------------

    /** `get_child_row(x, row, dir, ignore)`: nothing for a person without a
        generation or position or equal to `ignore`; the person itself when
        it is in generation `row`; else the extreme one of the results for
        its children (searched without `ignore`). */
    ghost function ChildRow(x: int, row: int, dir: Dir, ignore: Option<int>): (r: Option<int>)
      reads this
      requires Sound(graph, rank) && x in graph
      ensures r.Some? ==> r.value in pos && r.value in gen && gen[r.value] == row && r.value in graph
      decreases rank[x], 1
    {
      if x !in gen || ignore == Some(x) || x !in pos then None
      else if gen[x] == row then Some(x)
      else
        KidsBelow(graph, rank, x);
        Best(pos, Hits(graph[x].Children(), row, dir, rank[x]), dir)
    }

    /** The non-empty results of `get_child_row` over `kids`, in order. */
    ghost function Hits(kids: seq<int>, row: int, dir: Dir, bound: nat): (r: seq<int>)
      reads this
      requires Sound(graph, rank)
      requires forall k :: 0 <= k < |kids| ==> kids[k] in graph && kids[k] in rank && rank[kids[k]] < bound
      ensures forall k :: 0 <= k < |r| ==> r[k] in pos && r[k] in gen && gen[r[k]] == row && r[k] in graph
      decreases bound, 0, |kids|
    {
      if kids == [] then []
      else
        var last := kids[|kids| - 1];
        var init := Hits(kids[..|kids| - 1], row, dir, bound);
        match ChildRow(last, row, dir, None)
        case Some(c) => init + [c]
        case None => init
    }

    /** `get_child_row` only ever finds a descendant of the person it starts
        from (the person itself included). */
    lemma {:induction false} ChildRowDescends(x: int, row: int, dir: Dir, ignore: Option<int>)
      requires Sound(graph, rank) && x in graph
      ensures ChildRow(x, row, dir, ignore).Some? ==> ChildRow(x, row, dir, ignore).value in Desc(graph, rank, x)
      decreases rank[x], 1
    {
      if x in gen && ignore != Some(x) && x in pos && gen[x] != row {
        KidsBelow(graph, rank, x);
        var kids := graph[x].Children();
        HitsDescend(kids, row, dir, rank[x]);
        DescUnfold(graph, rank, x);
        TargetSetsAreViews(graph[x]);
        assert (set c | c in kids) == ChildTargets(graph[x].family);
      }
    }

    lemma {:induction false} HitsDescend(kids: seq<int>, row: int, dir: Dir, bound: nat)
      requires Sound(graph, rank)
      requires forall k :: 0 <= k < |kids| ==> kids[k] in graph && kids[k] in rank && rank[kids[k]] < bound
      ensures forall k :: 0 <= k < |Hits(kids, row, dir, bound)| ==>
        Hits(kids, row, dir, bound)[k] in DescOf(graph, rank, set c | c in kids)
      decreases bound, 0, |kids|
    {
      if kids != [] {
        var init := kids[..|kids| - 1];
        var last := kids[|kids| - 1];
        var whole := set c | c in kids;
        var front := set c | c in init;
        var h := Hits(kids, row, dir, bound);
        var hi := Hits(init, row, dir, bound);
        var cr := ChildRow(last, row, dir, None);
        HitsDescend(init, row, dir, bound);
        DescOfMonotone(graph, rank, front, whole);
        if cr.Some? {
          assert h == hi + [cr.value];
          ChildRowDescends(last, row, dir, None);
          DescOfSingle(graph, rank, last);
          DescOfMonotone(graph, rank, {last}, whole);
          forall k | 0 <= k < |h|
            ensures h[k] in DescOf(graph, rank, whole)
          {
            if k < |hi| {
              assert h[k] == hi[k];
            }
          }
        } else {
          assert h == hi;
        }
      }
    }

    /** `get_child_row` itself: a recursive search whose loop collects the
        children's results. */
    method GetChildRow(x: int, row: int, dir: Dir, ignore: Option<int>) returns (r: Option<int>)
      requires Sound(graph, rank) && x in graph
      ensures r == ChildRow(x, row, dir, ignore)
      decreases rank[x]
    {
      if x !in gen {
        return None;
      }
      if ignore == Some(x) {
        return None;
      }
      if x !in pos {
        return None;
      }
      if gen[x] == row {
        return Some(x);
      }
      KidsBelow(graph, rank, x);
      var kids := graph[x].Children();
      var children: seq<int> := [];
      for i := 0 to |kids|
        invariant children == Hits(kids[..i], row, dir, rank[x])
      {
        assert kids[..i + 1][..i] == kids[..i];
        var rv := GetChildRow(kids[i], row, dir, None);
        if rv.Some? {
          children := children + [rv.value];
        }
      }
      assert kids[..|kids|] == kids;
      r := Best(pos, children, dir);
    }

    // -------------------------------------------------------------------
    // add_child
    // -------------------------------------------------------------------

    /** `child.blood and any(p.blood for p in child.spouses)`. */
    predicate Coupled(c: int)
      requires c in graph
    {
      graph[c].blood
      && exists k :: 0 <= k < |graph[c].Spouses()| && graph[c].Spouses()[k] in graph && graph[graph[c].Spouses()[k]].blood
    }

    /** The scan of `reversed(row[:k + 1])` in generation `g`: the first
        entry whose right-most descendant there is not a blood member with
        a blood spouse. */
    ghost function ChildLeft(row: seq<int>, k: int, g: int): (r: Option<int>)
      reads this
      requires Sound(graph, rank) && -1 <= k < |row| && forall j :: 0 <= j < |row| ==> row[j] in graph
      ensures r.Some? ==> r.value in pos && r.value in gen && gen[r.value] == g
      decreases k + 1
    {
      if k < 0 then None
      else match ChildRow(row[k], g, Right, None)
        case Some(c) => if Coupled(c) then ChildLeft(row, k - 1, g) else Some(c)
        case None => ChildLeft(row, k - 1, g)
    }

    /** The scan of `row[k:]`, with the left-most descendant. */
    ghost function ChildRight(row: seq<int>, k: int, g: int): (r: Option<int>)
      reads this
      requires Sound(graph, rank) && 0 <= k <= |row| && forall j :: 0 <= j < |row| ==> row[j] in graph
      ensures r.Some? ==> r.value in pos && r.value in gen && gen[r.value] == g
      decreases |row| - k
    {
      if k == |row| then None
      else match ChildRow(row[k], g, Left, None)
        case Some(c) => if Coupled(c) then ChildRight(row, k + 1, g) else Some(c)
        case None => ChildRight(row, k + 1, g)
    }

    /** Every entry of `path` is a placed person of the tree. */
    ghost predicate PathPlaced(path: seq<int>)
      reads this
    {
      forall j :: 0 <= j < |path| ==> path[j] in pos && path[j] in gen && path[j] in graph
    }

    /** The walk back along `path` from index `k`: the first entry in
        generation `g`; the child goes left of it if that entry is male. */
    function PathAnchor(path: seq<int>, k: int, g: int): (a: Anchor)
      reads this
      requires PathPlaced(path) && -1 <= k < |path|
      ensures a.LeftOf? || a.RightOf? ==> a.id in pos && a.id in gen && gen[a.id] == g
      ensures a != EmptyRow
      decreases k + 1
    {
      if k < 0 then Nowhere
      else if gen[path[k]] == g then
        if graph[path[k]].gender == Male then LeftOf(path[k]) else RightOf(path[k])
      else PathAnchor(path, k - 1, g)
    }

    /** The fallback chain of `add_child` for a child of `person` whose seen
        path is `path`: an empty row; else right of the nearest usable hit
        left of `person`; else left of the nearest usable hit right of it;
        else beside the last path entry of the child's generation. Every
        anchor found is in the child's generation. */
    ghost function ChildAnchor(person: int, path: seq<int>): (a: Anchor)
      reads this
      requires Sound(graph, rank) && Anchorable(person) && PathPlaced(path)
      ensures a == EmptyRow ==> RowOf(rows, gen[person] - 1) == []
      ensures a.LeftOf? || a.RightOf? ==> a.id in pos && a.id in gen && gen[a.id] == gen[person] - 1
    {
      var g := gen[person] - 1;
      if RowOf(rows, g) == [] then EmptyRow
      else
        var row := RowOf(rows, gen[person]);
        match ChildLeft(row, pos[person] - 1, g)
        case Some(c) => RightOf(c)
        case None =>
          match ChildRight(row, pos[person] + 1, g)
          case Some(c) => LeftOf(c)
          case None => PathAnchor(path, |path| - 1, g)
    }

    lemma ValidPathPlaced(x: int)
      requires Valid() && x in seenPath
      ensures PathPlaced(seenPath[x])
    {
    }

    /** `add_child(person, q)`: never a generation mismatch, since every
        anchor it finds is in `q`'s generation. */
    method AddChild(person: int, q: int) returns (outcome: Outcome)
      requires Valid() && person in pos && q !in pos && q in people
      requires q in gen && gen[q] == gen[person] - 1 && q in seenPath
      modifies this
      ensures Valid()
      ensures old(Anchorable(person) && PathPlaced(seenPath[q]))
      ensures Applied(old(ChildAnchor(person, seenPath[q])), q, old(gen[q]), outcome)
      ensures outcome != GenerationMismatch
      ensures Grew(q, outcome) && seenPath == old(seenPath)
    {
      ValidAnchorable(person);
      ValidPathPlaced(q);
      var a := FindChildAnchor(person, seenPath[q]);
      outcome := Apply(a, q);
    }

    /** The read-only half of `add_child`: its loops, which pick the anchor. */
    method FindChildAnchor(person: int, path: seq<int>) returns (a: Anchor)
      requires Sound(graph, rank) && Anchorable(person) && PathPlaced(path)
      ensures a == ChildAnchor(person, path)
    {
      var g := gen[person] - 1;
      if |RowOf(rows, g)| == 0 {
        return EmptyRow;
      }
      var row := RowOf(rows, gen[person]);
      var child := ScanChildLeft(row, pos[person] - 1, g);
      if child.Some? {
        return RightOf(child.value);
      }
      child := ScanChildRight(row, pos[person] + 1, g);
      if child.Some? {
        return LeftOf(child.value);
      }
      a := ScanPath(path, g);
    }

    /** `for p in reversed(row[:k + 1])`, skipping hits that are coupled. */
    method ScanChildLeft(row: seq<int>, k0: int, g: int) returns (r: Option<int>)
      requires Sound(graph, rank) && -1 <= k0 < |row| && forall j :: 0 <= j < |row| ==> row[j] in graph
      ensures r == ChildLeft(row, k0, g)
    {
      var k := k0;
      while k >= 0
        invariant -1 <= k <= k0
        invariant ChildLeft(row, k, g) == ChildLeft(row, k0, g)
        decreases k + 1
      {
        var child := GetChildRow(row[k], g, Right, None);
        if child.Some? {
          if !Coupled(child.value) {
            return child;
          }
        }
        k := k - 1;
      }
      return None;
    }

    /** `for p in row[k:]`, skipping hits that are coupled. */
    method ScanChildRight(row: seq<int>, k0: int, g: int) returns (r: Option<int>)
      requires Sound(graph, rank) && 0 <= k0 <= |row| && forall j :: 0 <= j < |row| ==> row[j] in graph
      ensures r == ChildRight(row, k0, g)
    {
      var k := k0;
      while k < |row|
        invariant k0 <= k <= |row|
        invariant ChildRight(row, k, g) == ChildRight(row, k0, g)
        decreases |row| - k
      {
        var child := GetChildRow(row[k], g, Left, None);
        if child.Some? {
          if !Coupled(child.value) {
            return child;
          }
        }
        k := k + 1;
      }
      return None;
    }

    /** `for p in reversed(new.seen_path)`: the first entry of generation `g`. */
    method ScanPath(path: seq<int>, g: int) returns (a: Anchor)
      requires PathPlaced(path)
      ensures a == PathAnchor(path, |path| - 1, g)
    {
      var k := |path| - 1;
      while k >= 0
        invariant -1 <= k < |path|
        invariant PathAnchor(path, k, g) == PathAnchor(path, |path| - 1, g)
        decreases k + 1
      {
        var p := path[k];
        if gen[p] == g {
          if graph[p].gender == Male {
            return LeftOf(p);
          } else {
            return RightOf(p);
          }
        }
        k := k - 1;
      }
      return Nowhere;
    }

    // -------------------------------------------------------------------
    // the placement worklist
    // -------------------------------------------------------------------

    /** One body of the four inner loops, for a relative `t` of `person`
        that is in the drawn set and not yet seen: its generation and seen
        path are set, it is placed by the role's rule and then marked seen
        and, unless it is a spouse, pushed onto the worklist. */
    method PlaceOne(person: int, t: int, role: Role) returns (outcome: Outcome)
      requires Valid() && person in pos && seen == pos.Keys && nextAdd <= seen
      requires t in people && t !in seen
      modifies this
      ensures Valid() && seen == pos.Keys && nextAdd <= seen && person in pos
      ensures gen == old(gen)[t := RoleGen(role, old(gen[person]))]
      ensures old(pos).Keys <= pos.Keys
      ensures outcome == Placed ==>
        && seen == pos.Keys == old(pos).Keys + {t}
        && nextAdd == old(nextAdd) + (if role == AsSpouse then {} else {t})
      ensures outcome != Placed ==> pos == old(pos)
      ensures role == AsSibling || role == AsSpouse ==> outcome == Placed
      ensures role == AsChild ==> outcome != GenerationMismatch
    {
      Prepare(person, t, role);
      ghost var g1 := gen;
      assert g1 == old(gen)[t := RoleGen(role, old(gen[person]))];
      outcome := Dispatch(person, t, role);
      assert gen == g1 && seen == old(seen) && nextAdd == old(nextAdd);
      if outcome == Placed {
        Record(t, role != AsSpouse);
      }
    }

    /** `seen.add(t)`, and `next_add.add(t)` unless `t` is a spouse. */
    method Record(t: int, next: bool)
      requires Valid()
      modifies this`seen, this`nextAdd
      ensures Valid()
      ensures seen == old(seen) + {t}
      ensures nextAdd == if next then old(nextAdd) + {t} else old(nextAdd)
    {
      if next {
        nextAdd := nextAdd + {t};
      }
      seen := seen + {t};
    }

    /** Before the placement: a parent joins `ignore_tree`, and `t` gets its
        generation and the seen path through `person`. */
    method Prepare(person: int, t: int, role: Role)
      requires Valid() && person in pos && t in people && t !in pos
      modifies this`ignoreTree, this`gen, this`seenPath
      ensures Valid() && person in pos
      ensures gen == old(gen)[t := RoleGen(role, old(gen[person]))]
      ensures seenPath == old(seenPath)[t := old(seenPath[person]) + [person]]
      ensures ignoreTree == if role == AsParent then old(ignoreTree) + {t} else old(ignoreTree)
    {
      if role == AsParent {
        ignoreTree := ignoreTree + {t};
      }
      GenIndexed(rows, gen, pos, t, RoleGen(role, gen[person]));
      gen := gen[t := RoleGen(role, gen[person])];
      seenPath := seenPath[t := seenPath[person] + [person]];
    }

    /** The placement rule of each role: a sibling goes left of a male
        person and right of anyone else, a spouse the other way round;
        parents and children go by `add_parent` and `add_child`. */
    method Dispatch(person: int, t: int, role: Role) returns (outcome: Outcome)
      requires Valid() && person in pos && t in people && t !in pos && t in seenPath
      requires t in gen && gen[t] == RoleGen(role, gen[person])
      modifies this
      ensures Valid() && person in pos && Grew(t, outcome)
      ensures role == AsSibling || role == AsSpouse ==> outcome == Placed
      ensures role == AsChild ==> outcome != GenerationMismatch
      ensures role == AsSibling ==>
        Inserted(gen[t], if graph[person].gender == Male then old(pos[person]) else old(pos[person]) + 1, t)
      ensures role == AsSpouse ==>
        Inserted(gen[t], if graph[person].gender == Male then old(pos[person]) + 1 else old(pos[person]), t)
    {
      match role {
        case AsSibling =>
          outcome := Beside(person, t, graph[person].gender == Male);
        case AsSpouse =>
          outcome := Beside(person, t, graph[person].gender != Male);
        case AsParent =>
          outcome := AddParent(person, t);
        case AsChild =>
          outcome := AddChild(person, t);
      }
    }

    /** A sibling or spouse goes just left (`add_left`) or just right
        (`add_right`) of the person, in the same generation, so it is
        always placed. */
    method Beside(person: int, t: int, left: bool) returns (outcome: Outcome)
      requires Valid() && person in pos && t in people && t !in pos && t in seenPath
      requires t in gen && gen[t] == gen[person]
      modifies this
      ensures Valid() && person in pos && Grew(t, outcome) && outcome == Placed
      ensures Inserted(gen[t], if left then old(pos[person]) else old(pos[person]) + 1, t)
    {
      if left {
        outcome := AddLeft(person, t, true);
      } else {
        outcome := AddRight(person, t, true);
      }
    }

    /** One of the four inner loops: every relative in `list` that is in the
        drawn set and not yet seen is placed by `PlaceOne`, stopping at the
        first failure. `added` is the set placed. */
    method PlaceRelatives(person: int, list: seq<int>, role: Role) returns (outcome: Outcome, ghost added: set<int>)
      requires Valid() && person in pos && seen == pos.Keys && nextAdd <= seen
      modifies this
      ensures Valid() && seen == pos.Keys && nextAdd <= seen && person in pos
      ensures old(pos).Keys <= pos.Keys
      ensures Agree(old(gen), gen, old(pos).Keys)
      ensures outcome == Placed ==>
        && seen == pos.Keys == old(pos).Keys + added
        && added <= people && added !! old(pos).Keys
        && Reached(list, people, pos.Keys)
        && (forall x :: x in added ==> gen[x] == RoleGen(role, old(gen[person])))
        && nextAdd == old(nextAdd) + (if role == AsSpouse then {} else added)
      ensures role == AsSibling || role == AsSpouse ==> outcome == Placed
      ensures role == AsChild ==> outcome != GenerationMismatch
    {
      outcome := Placed;
      added := {};
      ghost var g := RoleGen(role, gen[person]);
      for k := 0 to |list|
        invariant Valid() && person in pos && seen == pos.Keys && nextAdd <= seen
        invariant outcome == Placed
        invariant gen[person] == old(gen[person])
        invariant old(pos).Keys <= pos.Keys
        invariant Agree(old(gen), gen, old(pos).Keys)
        invariant pos.Keys == old(pos).Keys + added && added <= people && added !! old(pos).Keys
        invariant Reached(list[..k], people, pos.Keys)
        invariant forall x :: x in added ==> gen[x] == g
        invariant nextAdd == old(nextAdd) + (if role == AsSpouse then {} else added)
      {
        var t := list[k];
        if t in seen || t !in people {
          continue;
        }
        outcome := PlaceOne(person, t, role);
        if outcome != Placed {
          return;
        }
        added := added + {t};
      }
      assert list[..|list|] == list;
    }

    /** One turn of the `while next_add` loop for `person`, already taken
        off the worklist: its siblings, spouses, parents and children, in
        that order. When every placement succeeds, all of `person`'s
        relatives of the drawn set are placed, the new people other than
        spouses are on the worklist, and the spouses share `person`'s
        generation. */
    method Expand(person: int) returns (outcome: Outcome, ghost spouses: set<int>)
      requires Valid() && person in pos && seen == pos.Keys && nextAdd <= seen
      modifies this
      ensures Valid() && seen == pos.Keys && nextAdd <= seen
      ensures old(pos).Keys <= pos.Keys
      ensures Agree(old(gen), gen, old(pos).Keys)
      ensures outcome == Placed ==>
        && spouses <= pos.Keys - old(pos).Keys
        && nextAdd == old(nextAdd) + (pos.Keys - old(pos).Keys - spouses)
        && (forall x :: x in spouses ==> x in gen && gen[x] == old(gen[person]))
        && Covered(graph[person], people, pos.Keys)
    {
      var p := graph[person];
      ghost var g0, p0 := gen, pos.Keys;
      spouses := PlaceLevel(person);
      ghost var g1, p1, n1 := gen, pos.Keys, nextAdd;
      outcome := PlaceLines(person);
      AgreeTrans(g0, g1, gen, p0, p1);
      if outcome == Placed {
        ReachedGrows(p.Siblings(), people, p1, pos.Keys);
        ReachedGrows(p.Spouses(), people, p1, pos.Keys);
        assert nextAdd == n1 + (pos.Keys - p1);
      }
    }

    /** The sibling and spouse loops, which cannot fail: the new spouses
        are in `person`'s generation and stay off the worklist. */
    method PlaceLevel(person: int) returns (ghost spouses: set<int>)
      requires Valid() && person in pos && seen == pos.Keys && nextAdd <= seen
      modifies this
      ensures Valid() && seen == pos.Keys && nextAdd <= seen && person in pos
      ensures old(pos).Keys <= pos.Keys
      ensures Agree(old(gen), gen, old(pos).Keys) && gen[person] == old(gen[person])
      ensures spouses <= pos.Keys - old(pos).Keys
      ensures nextAdd == old(nextAdd) + (pos.Keys - old(pos).Keys - spouses)
      ensures forall x :: x in spouses ==> x in gen && gen[x] == old(gen[person])
      ensures Reached(graph[person].Siblings(), people, pos.Keys)
      ensures Reached(graph[person].Spouses(), people, pos.Keys)
    {
      var p := graph[person];
      ghost var g0, p0 := gen, pos.Keys;
      var outcome;
      ghost var siblings;
      outcome, siblings := PlaceRelatives(person, p.Siblings(), AsSibling);
      ghost var g1, p1 := gen, pos.Keys;
      outcome, spouses := PlaceRelatives(person, p.Spouses(), AsSpouse);
      AgreeTrans(g0, g1, gen, p0, p1);
      ReachedGrows(p.Siblings(), people, p1, pos.Keys);
    }

    /** The parent and child loops: every new person is on the worklist. */
    method PlaceLines(person: int) returns (outcome: Outcome)
      requires Valid() && person in pos && seen == pos.Keys && nextAdd <= seen
      modifies this
      ensures Valid() && seen == pos.Keys && nextAdd <= seen
      ensures old(pos).Keys <= pos.Keys
      ensures Agree(old(gen), gen, old(pos).Keys)
      ensures outcome == Placed ==>
        && nextAdd == old(nextAdd) + (pos.Keys - old(pos).Keys)
        && Reached(graph[person].Parents(), people, pos.Keys)
        && Reached(graph[person].Children(), people, pos.Keys)
    {
      var p := graph[person];
      ghost var g0, p0 := gen, pos.Keys;
      ghost var parents, children;
      outcome, parents := PlaceRelatives(person, p.Parents(), AsParent);
      if outcome != Placed {
        return;
      }
      ghost var g1, p1 := gen, pos.Keys;
      outcome, children := PlaceRelatives(person, p.Children(), AsChild);
      AgreeTrans(g0, g1, gen, p0, p1);
      if outcome == Placed {
        ReachedGrows(p.Parents(), people, p1, pos.Keys);
      }
    }

    /** The invariant of the `while next_add` loop, over the placed set,
        the generations, the worklist, the people placed as spouses and
        the generation range seen so far: everyone placed and off the
        worklist lies in the range, and has all relatives of the drawn set
        placed unless it came in as a spouse. */
    ghost predicate WorkInv(placed: set<int>, g: map<int, int>, next: set<int>, via: set<int>, lo: int, hi: int) {
      && lo <= hi
      && (forall x :: x in placed && x !in next ==> x in g && lo <= g[x] <= hi)
      && via <= placed && via !! next
      && (forall x :: x in placed && x !in next && x !in via ==> x in graph && Covered(graph[x], people, placed))
    }

    /** One turn of the loop keeps its invariant. */
    lemma WorkStep(placed0: set<int>, g0: map<int, int>, next0: set<int>, via0: set<int>, lo0: int, hi0: int,
                   person: int, placed1: set<int>, g1: map<int, int>, next1: set<int>, spouses: set<int>)
      requires WorkInv(placed0, g0, next0, via0, lo0, hi0) && person in next0 && next0 <= placed0
      requires person in g0 && person in graph
      requires placed0 <= placed1 && Agree(g0, g1, placed0)
      requires spouses <= placed1 - placed0
      requires next1 == next0 - {person} + (placed1 - placed0 - spouses)
      requires forall x :: x in spouses ==> x in g1 && g1[x] == g0[person]
      requires Covered(graph[person], people, placed1)
      ensures WorkInv(placed1, g1, next1, via0 + spouses, Min(g0[person], lo0), Max(g0[person], hi0))
    {
      forall x | x in placed1 && x !in next1 && x !in via0 + spouses
        ensures x in graph && Covered(graph[x], people, placed1)
      {
        if x != person {
          CoveredGrows(graph[x], people, placed0, placed1);
        }
      }
    }

    /** The `while next_add` loop. From the head alone, relatives are
        placed until the worklist is empty or a placement fails. When it
        ends normally every placed person is in the drawn set, lies within
        the recorded generation range, and (unless it was placed as a
        spouse, whose relatives are not visited) has every relative of the
        drawn set placed. */
    method Run() returns (outcome: Outcome, smallest: int, largest: int, ghost viaSpouse: set<int>)
      requires Valid() && pos.Keys == {head} && seen == {head} && nextAdd == {head}
      modifies this
      ensures Valid() && head in pos && pos.Keys <= people && seen == pos.Keys
      ensures outcome == Placed ==>
        && nextAdd == {}
        && smallest <= largest
        && (forall x :: x in pos ==> smallest <= gen[x] <= largest)
        && viaSpouse <= pos.Keys
        && (forall x :: x in pos && x !in viaSpouse ==> Covered(graph[x], people, pos.Keys))
    {
      smallest, largest := gen[head], gen[head];
      viaSpouse := {};
      outcome := Placed;
      while nextAdd != {}
        invariant Valid() && head in pos && seen == pos.Keys && nextAdd <= seen
        invariant outcome == Placed
        invariant WorkInv(pos.Keys, gen, nextAdd, viaSpouse, smallest, largest)
        decreases |people - pos.Keys|, |nextAdd|
      {
        ghost var placed0, next0 := pos.Keys, nextAdd;
        outcome, smallest, largest, viaSpouse := Turn(smallest, largest, viaSpouse);
        if outcome != Placed {
          return;
        }
        if pos.Keys != placed0 {
          ProperSubsetCard(people - pos.Keys, people - placed0);
        }
      }
    }

    /** The body of the `while next_add` loop: take a person off the
        worklist, widen the generation range by its generation, and place
        its relatives. */
    method Turn(lo: int, hi: int, ghost via: set<int>) returns (outcome: Outcome, smallest: int, largest: int, ghost via1: set<int>)
      requires Valid() && head in pos && seen == pos.Keys && nextAdd <= seen && nextAdd != {}
      requires WorkInv(pos.Keys, gen, nextAdd, via, lo, hi)
      modifies this
      ensures Valid() && head in pos && seen == pos.Keys && nextAdd <= seen
      ensures pos.Keys <= people && old(pos).Keys <= pos.Keys
      ensures outcome == Placed ==> WorkInv(pos.Keys, gen, nextAdd, via1, smallest, largest)
      ensures outcome == Placed && pos.Keys == old(pos).Keys ==> |nextAdd| < |old(nextAdd)|
    {
      NonEmpty(nextAdd);
      var person :| person in nextAdd;
      ghost var placed0, g0, next0 := pos.Keys, gen, nextAdd;
      nextAdd := nextAdd - {person};
      smallest := Min(gen[person], lo);
      largest := Max(gen[person], hi);
      ghost var spouses;
      outcome, spouses := Expand(person);
      via1 := via + spouses;
      if outcome == Placed {
        WorkStep(placed0, g0, next0, via, lo, hi, person, pos.Keys, gen, nextAdd, spouses);
        if pos.Keys == placed0 {
          assert nextAdd == next0 - {person};
        }
      }
    }
  }

  /** `drawTree` up to the drawing: the blood set of the tree's head within
      `generations` levels, laid out from the head in row 0. */
  method Draw(t: FamilyTree.Tree, generations: nat) returns (layout: Layout, outcome: Outcome, smallest: int, largest: int, ghost viaSpouse: set<int>)
    requires t.Valid()
    ensures layout.Valid() && layout.graph == t.people && layout.head == t.head.value
    ensures layout.people == BloodSpec(t.people, t.rank, t.head.value, Some(generations))
    ensures layout.head in layout.pos && layout.pos.Keys <= layout.people && layout.seen == layout.pos.Keys
    ensures outcome == Placed ==>
      && layout.nextAdd == {}
      && smallest <= largest
      && (forall x :: x in layout.pos ==> smallest <= layout.gen[x] <= largest)
      && viaSpouse <= layout.pos.Keys
      && (forall x :: x in layout.pos && x !in viaSpouse ==> Covered(layout.graph[x], layout.people, layout.pos.Keys))
  {
    var people := t.ExploreBlood(Some(generations));
    var h := t.head.value;
    BloodGrows(t.people, t.rank, Some(generations), {h}, {h});
    layout := new Layout(t.people, t.rank, people, h);
    outcome, smallest, largest, viaSpouse := layout.Run();
  }
}
