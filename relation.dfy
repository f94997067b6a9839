/**
 * The closed set of relation kinds a family link can carry, the person's
 * gender, and the three classification predicates every filter in the
 * graph engine is built from.
 */
module Relationship {

  datatype Option<T> = None | Some(value: T)

  datatype Gender = Male | Female | Other | Unknown

  datatype Relation =
    | Parent | Child | Spouse | Partner | Sibling | StepSibling
    | AdoptedChild | AdoptedParent | Father | Mother | Son | Daughter

  /** `Relation.is_parent`: the four parent-kind relations. */
  predicate IsParent(r: Relation) {
    r == Parent || r == AdoptedParent || r == Father || r == Mother
  }

  /** `Relation.is_child`: the four child-kind relations. */
  predicate IsChild(r: Relation) {
    r == Child || r == AdoptedChild || r == Son || r == Daughter
  }

  /** `Relation.is_spouse`: spouse and partner. */
  predicate IsSpouse(r: Relation) {
    r == Spouse || r == Partner
  }

  /** The derived views of a person's links: one per filter the source uses. */
  datatype View = ParentView | ChildView | SpouseView | SiblingView

  /** Which links a view keeps: the first three by classification, the
      siblings view only exact `Sibling` links (never `StepSibling`). */
  predicate InView(r: Relation, v: View) {
    match v
    case ParentView => IsParent(r)
    case ChildView => IsChild(r)
    case SpouseView => IsSpouse(r)
    case SiblingView => r == Sibling
  }

  /** The classification, written as one tag per relation kind. */
  datatype Class = ParentKind | ChildKind | SpouseKind | OtherKind

  function Classify(r: Relation): (c: Class)
    ensures c == ParentKind <==> IsParent(r)
    ensures c == ChildKind <==> IsChild(r)
    ensures c == SpouseKind <==> IsSpouse(r)
  {
    match r
    case Parent | AdoptedParent | Father | Mother => ParentKind
    case Child | AdoptedChild | Son | Daughter => ChildKind
    case Spouse | Partner => SpouseKind
    case Sibling | StepSibling => OtherKind
  }

  /** The three classes are pairwise disjoint, and the relations outside
      all three are exactly the two sibling kinds. */
  lemma ClassesDisjoint(r: Relation)
    ensures !(IsParent(r) && IsChild(r))
    ensures !(IsParent(r) && IsSpouse(r))
    ensures !(IsChild(r) && IsSpouse(r))
    ensures !IsParent(r) && !IsChild(r) && !IsSpouse(r) <==> r == Sibling || r == StepSibling
  {
    var c := Classify(r);
  }
}
