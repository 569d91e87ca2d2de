/**
 * The ordered severity levels of an alert (Severity.java), and the display
 * threshold of the user interface (GlobalState.minimalAlertSeverity and the
 * filter that applies it).
 */
module Severities {

  datatype Severity = Trivial | Info | BadStyle | Warning | Error | Critical

  /** The levels in declaration order, as `Severity.values()` lists them. */
  const Values: seq<Severity> := [Trivial, Info, BadStyle, Warning, Error, Critical]

  /** Position of a level in declaration order (`Enum.ordinal()`). */
  function Ordinal(s: Severity): (r: nat)
    ensures r < |Values| && Values[r] == s
  {
    match s
    case Trivial => 0
    case Info => 1
    case BadStyle => 2
    case Warning => 3
    case Error => 4
    case Critical => 5
  }

  /** `Enum.compareTo`: the difference of the two ordinals. */
  function CompareTo(a: Severity, b: Severity): int
  {
    Ordinal(a) - Ordinal(b)
  }

  /** `Enum.toString()`: the constant's declared name. */
  function Name(s: Severity): (r: string)
    ensures |r| > 0
  {
    match s
    case Trivial => "TRIVIAL"
    case Info => "INFO"
    case BadStyle => "BAD_STYLE"
    case Warning => "WARNING"
    case Error => "ERROR"
    case Critical => "CRITICAL"
  }

  /** The threshold the user interface starts with. */
  const DefaultThreshold: Severity := Warning

  /** An alert is listed iff its severity compares at least equal to the threshold. */
  predicate IsShown(alertSeverity: Severity, threshold: Severity)
  {
    CompareTo(alertSeverity, threshold) >= 0
  }

  /** The six levels are pairwise distinct and strictly ascending in declaration order. */
  lemma StrictlyOrdered(i: nat, j: nat)
    requires i < j < |Values|
    ensures CompareTo(Values[i], Values[j]) < 0
    ensures Values[i] != Values[j]
  {
  }

  /** `compareTo` is a total order on the levels: antisymmetric, transitive and total. */
  lemma CompareToIsTotalOrder(a: Severity, b: Severity, c: Severity)
    ensures CompareTo(a, b) == 0 <==> a == b
    ensures CompareTo(a, b) == -CompareTo(b, a)
    ensures CompareTo(a, b) <= 0 && CompareTo(b, c) <= 0 ==> CompareTo(a, c) <= 0
  {
    assert Values[Ordinal(a)] == a && Values[Ordinal(b)] == b;
  }

  /** Under the default threshold exactly WARNING, ERROR and CRITICAL alerts are shown. */
  lemma DefaultThresholdShows(s: Severity)
    ensures IsShown(s, DefaultThreshold) <==> s in {Warning, Error, Critical}
  {
  }

  /** Raising the threshold never shows more alerts. */
  lemma ShownIsMonotone(s: Severity, t1: Severity, t2: Severity)
    requires CompareTo(t1, t2) <= 0
    ensures IsShown(s, t2) ==> IsShown(s, t1)
  {
  }
}
