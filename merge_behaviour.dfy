/**
 * The merge policy of a game folder (MergeBehaviour.java): an ordered table of
 * ten policies, each with a description and a default severity.
 */
module MergeBehaviours {
  import opened Severities

  /**
   * The policies in declaration order. `Invalid` is the constant the source
   * calls NONE ("not a valid operation").
   */
  datatype MergeBehaviour =
    | NotApplicable
    | MergeGroups
    | PartialComplex
    | Replace
    | Ignored
    | Unknown
    | Unsafe
    | PartialComplexMaybe
    | FailOnDuplicate
    | Invalid

  const Values: seq<MergeBehaviour> :=
    [NotApplicable, MergeGroups, PartialComplex, Replace, Ignored,
     Unknown, Unsafe, PartialComplexMaybe, FailOnDuplicate, Invalid]

  /** Position in declaration order (`Enum.ordinal()`). */
  function Ordinal(p: MergeBehaviour): (r: nat)
    ensures r < |Values| && Values[r] == p
  {
    match p
    case NotApplicable => 0
    case MergeGroups => 1
    case PartialComplex => 2
    case Replace => 3
    case Ignored => 4
    case Unknown => 5
    case Unsafe => 6
    case PartialComplexMaybe => 7
    case FailOnDuplicate => 8
    case Invalid => 9
  }

  /** `Enum.compareTo`: the difference of the two ordinals. */
  function CompareTo(a: MergeBehaviour, b: MergeBehaviour): int
  {
    Ordinal(a) - Ordinal(b)
  }

  /** The `severity` column of the table. */
  function SeverityOf(p: MergeBehaviour): Severity
  {
    match p
    case NotApplicable => Trivial
    case MergeGroups => Info
    case PartialComplex => Info
    case Replace => Info
    case Ignored => Info
    case Unknown => Warning
    case Unsafe => Warning
    case PartialComplexMaybe => Warning
    case FailOnDuplicate => Error
    case Invalid => Error
  }

  /** The `description` column of the table. */
  function Description(p: MergeBehaviour): string
  {
    match p
    case NotApplicable => "These are file-local; conflict resolution doesn't apply."
    case MergeGroups => "These groups will be merged."
    case PartialComplex => "This will cause complex merging behaviour."
    case Replace => "The last one replaces all other."
    case Ignored => "All but the first will be ignored."
    case Unknown => "This is not known to be safe\n and may have unexpected effects."
    case Unsafe => "This is considered unsafe\n and may unexpectedly fail."
    case PartialComplexMaybe => "This will cause complex merging behaviour\n that may or may not be intended."
    case FailOnDuplicate => "This is an error and will cause unpredictable results."
    case Invalid => "This is not a valid operation."
  }

  /**
   * The test the name-conflict check applies, `p.compareTo(NOT_APPLICABLE) > 0`:
   * the policy ranks above the no-op policy.
   */
  predicate RanksAboveNoOp(p: MergeBehaviour)
  {
    CompareTo(p, NotApplicable) > 0
  }

  /** NOT_APPLICABLE is first, so the rank test fails for it alone. */
  lemma RanksAboveNoOpIffApplicable(p: MergeBehaviour)
    ensures RanksAboveNoOp(p) <==> p != NotApplicable
    ensures p != NotApplicable ==> CompareTo(NotApplicable, p) < 0
  {
  }

  /** The ten policies are pairwise distinct and strictly ascending in declaration order. */
  lemma StrictlyOrdered(i: nat, j: nat)
    requires i < j < |Values|
    ensures CompareTo(Values[i], Values[j]) < 0
    ensures Values[i] != Values[j]
  {
  }

  /** The severity of a policy never decreases along the declaration order. */
  lemma SeverityIsMonotone(a: MergeBehaviour, b: MergeBehaviour)
    requires CompareTo(a, b) <= 0
    ensures Severities.CompareTo(SeverityOf(a), SeverityOf(b)) <= 0
  {
  }

  /** The table in words: which policies carry which severity. */
  lemma SeverityTable(p: MergeBehaviour)
    ensures SeverityOf(p) == Trivial <==> p == NotApplicable
    ensures SeverityOf(p) == Info <==> p in {MergeGroups, PartialComplex, Replace, Ignored}
    ensures SeverityOf(p) == Warning <==> p in {Unknown, Unsafe, PartialComplexMaybe}
    ensures SeverityOf(p) == Error <==> p in {FailOnDuplicate, Invalid}
    ensures SeverityOf(p) != BadStyle && SeverityOf(p) != Critical
  {
  }
}
