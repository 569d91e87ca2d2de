/**
 * The dependency relation between loaded mods (ModList.resolveTrueDependencies).
 * A mod declares dependencies by name; a name resolves through the map from
 * names to loaded mods, and names that match no loaded mod are dropped. The
 * true dependencies of a mod are the mods reachable from it by one or more
 * resolved steps.
 */
module DependencyGraph {
  import opened Entities

  /** The loaded mods m names directly, unknown names dropped. */
  ghost function Step(byName: map<string, Mod>, m: Mod): set<Mod>
    reads m
  {
    set n | n in m.dependencies && n in byName :: byName[n]
  }

  /** A chain of at least one resolved dependency step through the loaded mods, given by their positions. */
  ghost predicate IsPath(byName: map<string, Mod>, universe: seq<Mod>, p: seq<int>)
    reads universe
  {
    |p| >= 2 && (forall i :: 0 <= i < |p| ==> 0 <= p[i] < |universe|) &&
    forall i :: 0 <= i < |p| - 1 ==> universe[p[i + 1]] in Step(byName, universe[p[i]])
  }

  ghost predicate Reaches(byName: map<string, Mod>, universe: seq<Mod>, a: Mod, b: Mod)
    reads universe
  {
    exists p :: IsPath(byName, universe, p) && universe[p[0]] == a && universe[p[|p| - 1]] == b
  }

  /** The true dependencies of a: the mods reachable from it in one or more steps (a itself only on a cycle). */
  ghost function Closure(byName: map<string, Mod>, universe: seq<Mod>, a: Mod): set<Mod>
    reads universe
  {
    set b | b in universe && Reaches(byName, universe, a, b)
  }

  /** The resolved names of loaded mods, all inside the universe. */
  ghost predicate WellFormed(byName: map<string, Mod>, universe: seq<Mod>)
  {
    forall n :: n in byName ==> byName[n] in universe
  }

  /** Every direct dependency is a true dependency. */
  lemma StepInClosure(byName: map<string, Mod>, universe: seq<Mod>, a: Mod)
    requires WellFormed(byName, universe) && a in universe
    ensures Step(byName, a) <= Closure(byName, universe, a)
  {
    forall b | b in Step(byName, a) ensures b in Closure(byName, universe, a) {
      var n :| n in a.dependencies && n in byName && byName[n] == b;
      var ia :| 0 <= ia < |universe| && universe[ia] == a;
      var ib :| 0 <= ib < |universe| && universe[ib] == b;
      assert IsPath(byName, universe, [ia, ib]);
    }
  }

  /** A path can be continued by one more resolved step. */
  lemma PathExtend(byName: map<string, Mod>, universe: seq<Mod>, p: seq<int>, ib: int)
    requires IsPath(byName, universe, p) && 0 <= ib < |universe|
    requires universe[ib] in Step(byName, universe[p[|p| - 1]])
    ensures IsPath(byName, universe, p + [ib])
  {
    var q := p + [ib];
    forall i | 0 <= i < |q| - 1 ensures universe[q[i + 1]] in Step(byName, universe[q[i]]) {
      if i < |p| - 1 {
        assert q[i] == p[i] && q[i + 1] == p[i + 1];
      }
    }
  }

  /** Two paths meeting at a mod join into one. */
  lemma PathJoin(byName: map<string, Mod>, universe: seq<Mod>, p: seq<int>, q: seq<int>)
    requires IsPath(byName, universe, p) && IsPath(byName, universe, q)
    requires universe[p[|p| - 1]] == universe[q[0]]
    ensures IsPath(byName, universe, p + q[1..])
  {
    var r := p + q[1..];
    forall i | 0 <= i < |r| - 1 ensures universe[r[i + 1]] in Step(byName, universe[r[i]]) {
      if i < |p| - 1 {
        assert r[i] == p[i] && r[i + 1] == p[i + 1];
      } else if i == |p| - 1 {
        assert r[i + 1] == q[1];
        assert universe[r[i]] == universe[q[0]];
      } else {
        assert r[i] == q[i - |p| + 1] && r[i + 1] == q[i - |p| + 2];
      }
    }
  }

  /** A true dependency of a true dependency is a true dependency: the closure contains each member's closure. */
  lemma ClosureTransitive(byName: map<string, Mod>, universe: seq<Mod>, a: Mod, b: Mod)
    requires b in Closure(byName, universe, a)
    ensures Closure(byName, universe, b) <= Closure(byName, universe, a)
  {
    var p :| IsPath(byName, universe, p) && universe[p[0]] == a && universe[p[|p| - 1]] == b;
    forall c | c in Closure(byName, universe, b) ensures c in Closure(byName, universe, a) {
      var q :| IsPath(byName, universe, q) && universe[q[0]] == b && universe[q[|q| - 1]] == c;
      PathJoin(byName, universe, p, q);
      var r := p + q[1..];
      assert r[0] == p[0] && r[|r| - 1] == q[|q| - 1];
    }
  }

  /** A set that holds a's direct dependencies and is closed under steps holds all of a's true dependencies. */
  lemma ClosedSetHoldsClosure(byName: map<string, Mod>, universe: seq<Mod>, a: Mod, e: set<Mod>)
    requires Step(byName, a) <= e
    requires forall x :: x in e && x in universe ==> Step(byName, x) <= e
    ensures Closure(byName, universe, a) <= e
  {
    forall b | b in Closure(byName, universe, a) ensures b in e {
      var p :| IsPath(byName, universe, p) && universe[p[0]] == a && universe[p[|p| - 1]] == b;
      PathInClosedSet(byName, universe, a, e, p, |p| - 1);
    }
  }

  lemma {:induction false} PathInClosedSet(byName: map<string, Mod>, universe: seq<Mod>, a: Mod, e: set<Mod>, p: seq<int>, k: nat)
    requires Step(byName, a) <= e
    requires forall x :: x in e && x in universe ==> Step(byName, x) <= e
    requires IsPath(byName, universe, p) && universe[p[0]] == a && 1 <= k < |p|
    ensures universe[p[k]] in e
  {
    if k > 1 {
      PathInClosedSet(byName, universe, a, e, p, k - 1);
      assert universe[p[k]] in Step(byName, universe[p[k - 1]]);
    } else {
      assert universe[p[1]] in Step(byName, universe[p[0]]);
    }
  }

  /**
   * The breadth-first search of `resolveTrueDependencies` for one mod: a queue
   * of mods to expand and a set of encountered mods that keeps the search
   * finite on cycles. The start mod is expanded but only recorded when it
   * is reached again.
   */
  method SearchFrom(byName: map<string, Mod>, universe: seq<Mod>, start: Mod) returns (encountered: set<Mod>)
    requires WellFormed(byName, universe) && start in universe
    ensures encountered == Closure(byName, universe, start)
  {
    ghost var closure := Closure(byName, universe, start);
    StepsInClosure(byName, universe, start, start);
    forall x | x in closure ensures Step(byName, x) <= closure {
      StepsInClosure(byName, universe, start, x);
    }
    assert Closed(byName, closure);
    encountered := Search(byName, start, closure);
    ClosedSetHoldsClosure(byName, universe, start, encountered);
  }

  /** Every step from a member of e stays in e. */
  ghost predicate Closed(byName: map<string, Mod>, e: set<Mod>)
    reads e
  {
    forall x :: x in e ==> Step(byName, x) <= e
  }

  /**
   * The search loop itself, against any finite set that holds the start's
   * steps and is closed under steps: what it encounters lies in that set,
   * holds the start's steps and is closed under steps.
   */
  method Search(byName: map<string, Mod>, start: Mod, ghost bound: set<Mod>) returns (encountered: set<Mod>)
    requires Step(byName, start) <= bound && Closed(byName, bound)
    ensures encountered <= bound
    ensures Step(byName, start) <= encountered && Closed(byName, encountered)
  {
    var queue := [start];
    encountered := {};
    ghost var expanded: set<Mod> := {};
    while queue != []
      invariant SearchInvariant(byName, start, bound, queue, encountered, expanded)
      decreases |bound - encountered|, |queue|
    {
      ghost var before := encountered;
      queue, encountered, expanded := SearchRound(byName, start, bound, queue, encountered, expanded);
      if encountered != before {
        assert bound - encountered < bound - before;
        StrictSubsetSmaller(bound - encountered, bound - before);
      }
    }
    SearchDone(byName, start, bound, encountered, expanded);
  }

  /**
   * One round of the search: poll the head of the queue, expand it and queue
   * what it newly reaches. Either something new is encountered or the queue
   * gets shorter.
   */
  method SearchRound(byName: map<string, Mod>, start: Mod, ghost bound: set<Mod>, queue: seq<Mod>,
                     encountered: set<Mod>, ghost expanded: set<Mod>)
    returns (queue': seq<Mod>, encountered': set<Mod>, ghost expanded': set<Mod>)
    requires SearchInvariant(byName, start, bound, queue, encountered, expanded) && queue != []
    requires Step(byName, start) <= bound && Closed(byName, bound)
    ensures SearchInvariant(byName, start, bound, queue', encountered', expanded')
    ensures encountered' <= bound
    ensures encountered < encountered' || (encountered' == encountered && |queue'| < |queue|)
  {
    var next := queue[0];
    var added;
    encountered', added := Expand(byName, next, encountered);
    SearchStep(byName, start, bound, queue, encountered, expanded, encountered', added);
    queue' := queue[1..] + added;
    expanded' := expanded + {next};
  }

  lemma StrictSubsetSmaller(a: set<Mod>, b: set<Mod>)
    requires a < b
    ensures |a| < |b|
  {
    var x :| x in b && x !in a;
    SubsetNoLarger(a, b - {x});
  }

  lemma {:induction false} SubsetNoLarger(a: set<Mod>, b: set<Mod>)
    requires a <= b
    ensures |a| <= |b|
    decreases a
  {
    if a != {} {
      var x :| x in a;
      SubsetNoLarger(a - {x}, b - {x});
    }
  }

  /** When the queue is empty the start is expanded, so the encountered set is closed. */
  lemma SearchDone(byName: map<string, Mod>, start: Mod, bound: set<Mod>, encountered: set<Mod>, expanded: set<Mod>)
    requires SearchInvariant(byName, start, bound, [], encountered, expanded)
    ensures encountered <= bound
    ensures Step(byName, start) <= encountered && Closed(byName, encountered)
  {
  }

  /**
   * The state of the search loop: everything queued is the start or already
   * encountered, everything encountered is expanded or queued, and the steps
   * of every expanded mod are encountered.
   */
  ghost predicate SearchInvariant(byName: map<string, Mod>, start: Mod, bound: set<Mod>,
                                  queue: seq<Mod>, encountered: set<Mod>, expanded: set<Mod>)
    reads expanded
  {
    encountered <= bound &&
    (forall x :: x in queue ==> x == start || x in encountered) &&
    (start in expanded || start in queue) &&
    (forall x :: x in encountered ==> x in expanded || x in queue) &&
    (forall x :: x in expanded ==> Step(byName, x) <= encountered)
  }

  /** Polling the head of the queue, expanding it and queueing what it newly reaches keeps the loop state. */
  lemma SearchStep(byName: map<string, Mod>, start: Mod, bound: set<Mod>, queue: seq<Mod>,
                   encountered: set<Mod>, expanded: set<Mod>, encountered': set<Mod>, added: seq<Mod>)
    requires SearchInvariant(byName, start, bound, queue, encountered, expanded) && queue != []
    requires Step(byName, start) <= bound && Closed(byName, bound)
    requires encountered' == encountered + Step(byName, queue[0])
    requires forall x :: x in added <==> x in encountered' - encountered
    ensures SearchInvariant(byName, start, bound, queue[1..] + added, encountered', expanded + {queue[0]})
  {
    var next, queue' := queue[0], queue[1..] + added;
    assert forall x :: x in queue <==> x == next || x in queue[1..];
    assert forall x :: x in queue' <==> x in queue[1..] || x in added;
    assert next == start || next in bound;
  }

  /** Every direct dependency of the start or of one of its true dependencies is a true dependency. */
  lemma StepsInClosure(byName: map<string, Mod>, universe: seq<Mod>, start: Mod, next: Mod)
    requires WellFormed(byName, universe) && start in universe
    requires next == start || next in Closure(byName, universe, start)
    ensures Step(byName, next) <= Closure(byName, universe, start)
  {
    forall b | b in Step(byName, next) ensures b in Closure(byName, universe, start) {
      ReachedByStep(byName, universe, start, next, b);
    }
  }

  /**
   * The inner loop of the search: each declared name of `next` that resolves to
   * a mod not yet encountered marks that mod encountered and queues it; `added`
   * is what joins the queue, in order.
   */
  method Expand(byName: map<string, Mod>, next: Mod, encountered: set<Mod>)
    returns (encountered': set<Mod>, added: seq<Mod>)
    ensures encountered' == encountered + Step(byName, next)
    ensures forall x :: x in added <==> x in encountered' - encountered
    ensures encountered' == encountered ==> added == []
  {
    encountered', added := encountered, [];
    for i := 0 to |next.dependencies|
      invariant encountered <= encountered' <= encountered + Step(byName, next)
      invariant forall j :: 0 <= j < i && next.dependencies[j] in byName ==> byName[next.dependencies[j]] in encountered'
      invariant forall x :: x in added <==> x in encountered' - encountered
      invariant encountered' == encountered ==> added == []
    {
      var dependency := next.dependencies[i];
      if dependency in byName {
        var dependee := byName[dependency];
        if dependee !in encountered' {
          encountered' := encountered' + {dependee};
          added := added + [dependee];
        }
      }
    }
  }

  /** One step from the start or from a reached mod reaches a true dependency. */
  lemma ReachedByStep(byName: map<string, Mod>, universe: seq<Mod>, start: Mod, next: Mod, b: Mod)
    requires WellFormed(byName, universe) && start in universe
    requires next == start || next in Closure(byName, universe, start)
    requires b in Step(byName, next)
    ensures b in Closure(byName, universe, start)
  {
    var n :| n in next.dependencies && n in byName && byName[n] == b;
    var ib :| 0 <= ib < |universe| && universe[ib] == b;
    if next == start {
      var ia :| 0 <= ia < |universe| && universe[ia] == start;
      assert IsPath(byName, universe, [ia, ib]);
    } else {
      var p :| IsPath(byName, universe, p) && universe[p[0]] == start && universe[p[|p| - 1]] == next;
      PathExtend(byName, universe, p, ib);
      assert (p + [ib])[0] == p[0];
    }
  }
}
