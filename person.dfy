/**
 * A person record and its typed links (`Family` in the source), the derived
 * views over the ordered link list, and the process-wide id allocator run on
 * construction of every person.
 */
module Family {
  import opened Relationship

  /** One entry of a person's `family` list: a relation to the person with
      id `personId`. */
  datatype Link = Link(relation: Relation, personId: int)

  /** A person as seen inside a family tree. The id is the key under which
      the person is stored; dates, sources and notes carry no logic and are
      not part of the record. */
  datatype Person = Person(
    name: string,
    gender: Gender,
    blood: bool,
    family: seq<Link>,
    childComplete: bool)
  {
    /** The `parents` property: targets of the parent-kind links, in link order. */
    function Parents(): seq<int> { Targets(family, ParentView) }

    /** The `children` property. */
    function Children(): seq<int> { Targets(family, ChildView) }

    /** The `spouses` property. */
    function Spouses(): seq<int> { Targets(family, SpouseView) }

    /** The `siblings` property: exact sibling links only. */
    function Siblings(): seq<int> { Targets(family, SiblingView) }

    /** The `parent_complete` property. */
    predicate ParentComplete() { |Parents()| == 2 }

    /** The `complete` property. */
    predicate Complete() { ParentComplete() && childComplete }
  }

  /** The targets of the links a view keeps, in the order of the links. */
  function Targets(fam: seq<Link>, v: View): (r: seq<int>)
    ensures |r| == CountIn(fam, v) <= |fam|
    ensures forall x :: x in r <==> exists i :: 0 <= i < |fam| && InView(fam[i].relation, v) && fam[i].personId == x
  {
    if fam == [] then []
    else
      var init := fam[..|fam| - 1];
      var last := fam[|fam| - 1];
      var r := Targets(init, v) + (if InView(last.relation, v) then [last.personId] else []);
      assert forall i :: 0 <= i < |init| ==> init[i] == fam[i];
      r
  }

  /** How many links of `fam` a view keeps. */
  function CountIn(fam: seq<Link>, v: View): nat {
    if fam == [] then 0
    else CountIn(fam[..|fam| - 1], v) + (if InView(fam[|fam| - 1].relation, v) then 1 else 0)
  }

  /** A view distributes over concatenation of link lists: it keeps the
      order of the links it selects. */
  lemma {:induction false} TargetsAppend(a: seq<Link>, b: seq<Link>, v: View)
    ensures Targets(a + b, v) == Targets(a, v) + Targets(b, v)
    decreases |b|
  {
    if b == [] {
      assert a + b == a;
    } else {
      var b' := b[..|b| - 1];
      assert (a + b)[..|a + b| - 1] == a + b';
      assert (a + b)[|a + b| - 1] == b[|b| - 1];
      TargetsAppend(a, b', v);
    }
  }

  /** A single link contributes its target exactly when the view keeps its relation. */
  lemma TargetsSingle(l: Link, v: View)
    ensures Targets([l], v) == if InView(l.relation, v) then [l.personId] else []
  {
    assert [l][..0] == [];
  }

  /** `parent_complete` holds exactly when there are two parent-kind links. */
  lemma ParentCompleteIffTwoParentLinks(p: Person)
    ensures p.ParentComplete() <==> CountIn(p.family, ParentView) == 2
  {
  }

  /** The siblings view never yields the target of a step-sibling link
      unless the same person is also linked as an exact sibling. */
  lemma {:induction false} SiblingsExcludeStep(fam: seq<Link>, x: int)
    requires forall i :: 0 <= i < |fam| && fam[i].personId == x ==> fam[i].relation == StepSibling
    ensures x !in Targets(fam, SiblingView)
  {
  }

  datatype PersonError = DuplicateId | TooManyParents

  datatype Result<T> = Ok(value: T) | Err(error: PersonError)

  /**
   * The class-level allocator behind `Person.__post_init__`: the next free
   * id and the set of ids already handed out in this process.
   */
  class IdAllocator {
    var currId: int
    var seenIds: set<int>

    /** Every id handed out so far lies below the next free id. */
    ghost predicate Valid()
      reads this
    {
      forall i :: i in seenIds ==> i < currId
    }

    constructor ()
      ensures Valid() && currId == 0 && seenIds == {}
    {
      currId := 0;
      seenIds := {};
    }

    /**
     * Assigns the id of a newly built person whose link list is `family`.
     * An explicit id already handed out fails before anything changes.
     * More than two parent links fail after the id has been recorded, as
     * the parent-count assertion comes last.
     */
    method Register(explicit: Option<int>, family: seq<Link>) returns (r: Result<int>)
      requires Valid()
      modifies this
      ensures Valid()
      ensures explicit.Some? && explicit.value in old(seenIds) ==>
        r == Err(DuplicateId) && currId == old(currId) && seenIds == old(seenIds)
      ensures !(explicit.Some? && explicit.value in old(seenIds)) ==>
        var id := if explicit.Some? then explicit.value else old(currId);
        && id !in old(seenIds)
        && seenIds == old(seenIds) + {id}
        && currId == (if explicit.Some? then Max(explicit.value + 1, old(currId)) else old(currId) + 1)
        && r == (if |Targets(family, ParentView)| <= 2 then Ok(id) else Err(TooManyParents))
    {
      if explicit.Some? && explicit.value in seenIds {
        return Err(DuplicateId);
      }
      var id: int;
      if explicit.Some? {
        id := explicit.value;
        currId := Max(id + 1, currId);
      } else {
        id := currId;
        currId := currId + 1;
      }
      seenIds := seenIds + {id};
      if |Targets(family, ParentView)| <= 2 {
        r := Ok(id);
      } else {
        r := Err(TooManyParents);
      }
    }
  }

  function Max(a: int, b: int): int { if a < b then b else a }
}
