// Cycle detection over the dependsOn graph (DetectCyclicDependencies and its dfs closure).

module DependencyCycles {
  import opened Wrappers
  import opened Sequences
  import Text
  import opened ServiceDependencies

  /** There is an edge from a to b when b occurs in a's dependsOn list. */
  predicate Edge(services: Services, a: string, b: string) {
    b in DependsOn(services, a)
  }

  /** Every consecutive pair of w is an edge. */
  predicate IsWalk(services: Services, w: seq<string>) {
    forall i :: 0 <= i < |w| - 1 ==> Edge(services, w[i], w[i + 1])
  }

  /** A closed walk that starts again where it began, visiting no name twice on the way. */
  predicate IsSimpleCycle(services: Services, c: seq<string>) {
    && |c| >= 2
    && c[0] == c[|c| - 1]
    && IsWalk(services, c)
    && NoDuplicates(c[..|c| - 1])
  }

  /** A graph without any closed walk. */
  ghost predicate Acyclic(services: Services) {
    forall c :: !(|c| >= 2 && c[0] == c[|c| - 1] && IsWalk(services, c))
  }

  /** The text reported for a cycle. */
  function CycleReport(c: seq<string>): string {
    "Cyclic dependency detected: " + Text.Join(c, " -> ")
  }

  /** m is the report of a real simple cycle of the graph. */
  ghost predicate IsCycleReport(services: Services, m: string) {
    exists c :: IsSimpleCycle(services, c) && m == CycleReport(c)
  }

  /** Every name the traversal can reach: the services and the entries of their lists. */
  function Universe(services: Services): (u: set<string>)
    ensures services.Keys <= u
  {
    services.Keys + set s, d | s in services.Keys && d in DependsOn(services, s) :: d
  }

  lemma DependencyInUniverse(services: Services, s: string, d: string)
    requires d in DependsOn(services, s)
    ensures d in Universe(services)
  {
    assert s in services.Keys;
  }

  /** The state the dfs closure shares: the visited and path maps (as the sets of names mapped to
      true) and the reports found so far. */
  datatype DfsState = DfsState(visited: set<string>, path: set<string>, cycles: seq<string>)

  /** What one call of dfs returns, with the state it leaves behind. */
  datatype DfsOutcome = DfsOutcome(found: bool, state: DfsState)

  /** dfs(current, stack): does nothing for a visited name; otherwise marks it visited and on the
      path, pushes it and walks its list. */
  function Visit(services: Services, current: string, stack: seq<string>, st: DfsState): (r: DfsOutcome)
    requires current in Universe(services)
    ensures st.visited <= r.state.visited && current in r.state.visited
    ensures |r.state.cycles| == |st.cycles| + (if r.found then 1 else 0)
    ensures r.state.cycles[..|st.cycles|] == st.cycles
    decreases |Universe(services) - (st.visited + {current})|, 1
  {
    if current in st.visited then DfsOutcome(false, st)
    else
      VisitDeps(services, current, stack + [current], 0,
                DfsState(st.visited + {current}, st.path + {current}, st.cycles))
  }

  /** The loop of dfs over current's list from index i on, with stack already holding current. A
      dependency found on the path reports the stack from its first occurrence, and returns at once
      without taking current off the path; a name on the path but not on the stack (left there by an
      earlier aborted walk) reports nothing. */
  function VisitDeps(services: Services, current: string, stack: seq<string>, i: nat, st: DfsState): (r: DfsOutcome)
    requires i <= |DependsOn(services, current)|
    ensures st.visited <= r.state.visited
    ensures |r.state.cycles| == |st.cycles| + (if r.found then 1 else 0)
    ensures r.state.cycles[..|st.cycles|] == st.cycles
    decreases |Universe(services) - st.visited|, 0, |DependsOn(services, current)| - i
  {
    var deps := DependsOn(services, current);
    if i == |deps| then DfsOutcome(false, st.(path := st.path - {current}))
    else
      var dep := deps[i];
      if dep !in st.visited then
        DependencyInUniverse(services, current, dep);
        RemainderDrops(Universe(services), st.visited, dep);
        var o := Visit(services, dep, stack, st);
        if o.found then o
        else
          RemainderShrinks(Universe(services), st.visited, o.state.visited);
          VisitDeps(services, current, stack, i + 1, o.state)
      else if dep in st.path then
        var k := IndexOf(stack, dep);
        if k != -1 then DfsOutcome(true, st.(cycles := st.cycles + [CycleReport(stack[k..] + [dep])]))
        else VisitDeps(services, current, stack, i + 1, st)
      else VisitDeps(services, current, stack, i + 1, st)
  }

  /** The outer loop of DetectCyclicDependencies over the services in the given order: a dfs from
      each root not yet visited, with an empty stack. */
  function DetectFrom(services: Services, roots: seq<string>): (r: DfsState)
    requires forall n :: n in roots ==> n in services
    ensures forall n :: n in roots ==> n in r.visited
    ensures |r.cycles| <= |roots|
  {
    if roots == [] then DfsState({}, {}, [])
    else
      var init, root := roots[..|roots| - 1], roots[|roots| - 1];
      assert roots == init + [root];
      var prev := DetectFrom(services, init);
      if root in prev.visited then prev
      else Visit(services, root, [], prev).state
  }

  /** The stack is a walk of distinct visited names. */
  predicate StackInvariant(services: Services, stack: seq<string>, st: DfsState) {
    && IsWalk(services, stack)
    && NoDuplicates(stack)
    && (forall x :: x in stack ==> x in st.visited)
  }

  /** The stack from the first occurrence of dep, followed by dep, is a simple cycle when the stack
      ends in a name with an edge to dep. */
  lemma CycleFromStack(services: Services, stack: seq<string>, k: int, dep: string)
    requires IsWalk(services, stack) && NoDuplicates(stack)
    requires 0 <= k < |stack| && stack[k] == dep
    requires Edge(services, stack[|stack| - 1], dep)
    ensures IsSimpleCycle(services, stack[k..] + [dep])
    ensures IsCycleReport(services, CycleReport(stack[k..] + [dep]))
  {
    var c := stack[k..] + [dep];
    forall i | 0 <= i < |c| - 1 ensures Edge(services, c[i], c[i + 1]) {
      if i + 1 < |stack| - k {
        assert c[i] == stack[k + i] && c[i + 1] == stack[k + i + 1];
      } else {
        assert c[i] == stack[|stack| - 1] && c[i + 1] == dep;
      }
    }
    assert c[..|c| - 1] == stack[k..];
    assert IsSimpleCycle(services, c);
  }

  /** Pushing an unvisited name reached by an edge keeps the stack invariant. */
  lemma PushKeepsInvariant(services: Services, stack: seq<string>, current: string, st: DfsState)
    requires StackInvariant(services, stack, st)
    requires current !in st.visited
    requires stack != [] ==> Edge(services, stack[|stack| - 1], current)
    ensures StackInvariant(services, stack + [current], st.(visited := st.visited + {current}, path := st.path + {current}))
  {
    var s := stack + [current];
    forall i | 0 <= i < |s| - 1 ensures Edge(services, s[i], s[i + 1]) {
      if i + 1 < |stack| {
        assert s[i] == stack[i] && s[i + 1] == stack[i + 1];
      }
    }
    forall i, j | 0 <= i < j < |s| ensures s[i] != s[j] {
      if j == |stack| {
        assert s[i] in stack;
      }
    }
  }

  /** Every report a dfs adds is the report of a real simple cycle. */
  lemma {:induction false} VisitSound(services: Services, current: string, stack: seq<string>, st: DfsState)
    requires current in Universe(services)
    requires StackInvariant(services, stack, st)
    requires stack != [] ==> Edge(services, stack[|stack| - 1], current)
    ensures forall m :: m in Visit(services, current, stack, st).state.cycles ==> m in st.cycles || IsCycleReport(services, m)
    decreases |Universe(services) - (st.visited + {current})|, 1
  {
    if current !in st.visited {
      var st' := DfsState(st.visited + {current}, st.path + {current}, st.cycles);
      PushKeepsInvariant(services, stack, current, st);
      VisitDepsSound(services, current, stack + [current], 0, st');
    }
  }

  lemma {:induction false} VisitDepsSound(services: Services, current: string, stack: seq<string>, i: nat, st: DfsState)
    requires i <= |DependsOn(services, current)|
    requires StackInvariant(services, stack, st)
    requires stack != [] && stack[|stack| - 1] == current
    ensures forall m :: m in VisitDeps(services, current, stack, i, st).state.cycles ==> m in st.cycles || IsCycleReport(services, m)
    decreases |Universe(services) - st.visited|, 0, |DependsOn(services, current)| - i
  {
    var deps := DependsOn(services, current);
    if i < |deps| {
      var dep := deps[i];
      if dep !in st.visited {
        DependencyInUniverse(services, current, dep);
        RemainderDrops(Universe(services), st.visited, dep);
        VisitSound(services, dep, stack, st);
        var o := Visit(services, dep, stack, st);
        if !o.found {
          RemainderShrinks(Universe(services), st.visited, o.state.visited);
          VisitDepsSound(services, current, stack, i + 1, o.state);
        }
      } else if dep in st.path {
        var k := IndexOf(stack, dep);
        if k != -1 {
          CycleFromStack(services, stack, k, dep);
        } else {
          VisitDepsSound(services, current, stack, i + 1, st);
        }
      } else {
        VisitDepsSound(services, current, stack, i + 1, st);
      }
    }
  }

  /** Every report of the whole detection is the report of a real simple cycle. */
  lemma {:induction false} DetectSound(services: Services, roots: seq<string>)
    requires forall n :: n in roots ==> n in services
    ensures forall m :: m in DetectFrom(services, roots).cycles ==> IsCycleReport(services, m)
  {
    if roots != [] {
      var init, root := roots[..|roots| - 1], roots[|roots| - 1];
      assert roots == init + [root];
      DetectSound(services, init);
      var prev := DetectFrom(services, init);
      if root !in prev.visited {
        VisitSound(services, root, [], prev);
      }
    }
  }

  /** An acyclic graph yields no reports. */
  lemma DetectAcyclic(services: Services, roots: seq<string>)
    requires forall n :: n in roots ==> n in services
    ensures Acyclic(services) ==> DetectFrom(services, roots).cycles == []
  {
    var cycles := DetectFrom(services, roots).cycles;
    if cycles != [] {
      DetectSound(services, roots);
      assert IsCycleReport(services, cycles[0]);
      var c :| IsSimpleCycle(services, c) && cycles[0] == CycleReport(c);
      assert !Acyclic(services);
    }
  }

  /** The state captured by the dfs closure: the services it reads, the visited and path maps and
      the cycles slice it updates. */
  class CycleDetector {
    const services: Services
    var visited: set<string>
    var path: set<string>
    var cycles: seq<string>

    function State(): DfsState
      reads this
    {
      DfsState(visited, path, cycles)
    }

    constructor (services: Services)
      ensures this.services == services
      ensures State() == DfsState({}, {}, [])
    {
      this.services := services;
      visited := {};
      path := {};
      cycles := [];
    }

    /** The dfs closure; it does what Visit describes. */
    method Dfs(current: string, stack: seq<string>) returns (found: bool)
      requires current in Universe(services)
      modifies this
      ensures DfsOutcome(found, State()) == Visit(services, current, stack, old(State()))
      decreases |Universe(services) - (visited + {current})|, 1
    {
      ghost var start := State();
      found := false;
      if current !in visited {
        visited := visited + {current};
        path := path + {current};
        var pushed := stack + [current];
        ghost var entry := State();
        if current in services && services[current].Some? {
          var deps := services[current].value;
          var i := 0;
          while i < |deps|
            invariant 0 <= i <= |deps| && deps == DependsOn(services, current)
            invariant entry.visited <= visited
            invariant VisitDeps(services, current, pushed, i, State()) == VisitDeps(services, current, pushed, 0, entry)
          {
            var dep := deps[i];
            if dep !in visited {
              DependencyInUniverse(services, current, dep);
              RemainderShrinks(Universe(services), start.visited + {current}, visited);
              RemainderDrops(Universe(services), visited, dep);
              var inner := Dfs(dep, pushed);
              if inner {
                found := true;
                return;
              }
            } else if dep in path {
              var k := FindIndex(pushed, dep);
              if k != -1 {
                cycles := cycles + [CycleReport(pushed[k..] + [dep])];
                found := true;
                return;
              }
            }
            i := i + 1;
          }
        }
        path := path - {current};
      }
    }
  }

  /** DetectCyclicDependencies: a dfs from every service not yet visited, in map order. */
  method DetectCyclicDependencies(services: Services, order: seq<string>) returns (cycles: seq<string>)
    requires IsEnumeration(order, services)
    ensures cycles == DetectFrom(services, order).cycles
    ensures forall m :: m in cycles ==> IsCycleReport(services, m)
    ensures |cycles| <= |services|
    ensures Acyclic(services) ==> cycles == []
  {
    var detector := new CycleDetector(services);
    var i := 0;
    while i < |order|
      invariant 0 <= i <= |order|
      invariant detector.services == services
      invariant detector.State() == DetectFrom(services, order[..i])
    {
      var root := order[i];
      assert order[..i + 1][..i] == order[..i];
      if root !in detector.visited {
        var _ := detector.Dfs(root, []);
      }
      i := i + 1;
    }
    assert order[..i] == order;
    cycles := detector.cycles;
    DetectSound(services, order);
    DetectAcyclic(services, order);
    DistinctCard(order);
    assert Elements(order) == services.Keys;
  }

  /** A service that depends on itself is reported as "A -> A". */
  lemma SelfLoopReported()
    ensures DetectFrom(map["A" := Some(["A"])], ["A"]).cycles == ["Cyclic dependency detected: A -> A"]
  {
    var services := map["A" := Some(["A"])];
    var st0 := DfsState({}, {}, []);
    var st1 := DfsState({"A"}, {"A"}, []);
    assert DependsOn(services, "A") == ["A"];
    assert IndexOf(["A"], "A") == 0;
    assert ["A"][0..] + ["A"] == ["A", "A"];
    var report := CycleReport(["A", "A"]);
    assert VisitDeps(services, "A", ["A"], 0, st1) == DfsOutcome(true, st1.(cycles := [report]));
    assert [] + ["A"] == ["A"] && {} + {"A"} == {"A"};
    assert Visit(services, "A", [], st0) == DfsOutcome(true, st1.(cycles := [report]));
    assert DetectFrom(services, []) == st0;
    assert ["A"][..0] == [];
    assert DetectFrom(services, ["A"]).cycles == [report];
    assert Text.Join(["A", "A"], " -> ") == "A -> A";
    assert report == "Cyclic dependency detected: A -> A";
  }

  /** In a graph where x and y depend on each other, a dfs from y with stack [x] and only x visited
      and on the path reports x -> y -> x. */
  lemma MutualPairFromSecond(services: Services, x: string, y: string)
    requires x != y && DependsOn(services, x) == [y] && DependsOn(services, y) == [x]
    ensures y in Universe(services)
    ensures Visit(services, y, [x], DfsState({x}, {x}, []))
            == DfsOutcome(true, DfsState({x, y}, {x, y}, [CycleReport([x, y, x])]))
  {
    DependencyInUniverse(services, x, y);
    var stXY := DfsState({x, y}, {x, y}, []);
    assert IndexOf([x, y], x) == 0;
    assert [x, y][0..] + [x] == [x, y, x];
    assert VisitDeps(services, y, [x, y], 0, stXY) == DfsOutcome(true, stXY.(cycles := [CycleReport([x, y, x])]));
    assert [x] + [y] == [x, y] && {x} + {y} == {x, y};
  }

  /** ...so a dfs from x with nothing visited reports x -> y -> x and leaves both on the path. */
  lemma MutualPairFromFirst(services: Services, x: string, y: string)
    requires x != y && DependsOn(services, x) == [y] && DependsOn(services, y) == [x]
    ensures x in Universe(services)
    ensures Visit(services, x, [], DfsState({}, {}, []))
            == DfsOutcome(true, DfsState({x, y}, {x, y}, [CycleReport([x, y, x])]))
  {
    DependencyInUniverse(services, y, x);
    MutualPairFromSecond(services, x, y);
    var stX := DfsState({x}, {x}, []);
    assert VisitDeps(services, x, [x], 0, stX) == DfsOutcome(true, DfsState({x, y}, {x, y}, [CycleReport([x, y, x])]));
    assert [] + [x] == [x] && {} + {x} == {x};
  }

  /** The detection over an enumeration [x, y] of a mutual pair: one report, from the first root; the
      second root is already visited. */
  lemma MutualPairDetected(services: Services, x: string, y: string)
    requires x != y && DependsOn(services, x) == [y] && DependsOn(services, y) == [x]
    requires x in services && y in services
    ensures DetectFrom(services, [x, y]) == DfsState({x, y}, {x, y}, [CycleReport([x, y, x])])
  {
    MutualPairFromFirst(services, x, y);
    var after := DfsState({x, y}, {x, y}, [CycleReport([x, y, x])]);
    assert [x, y][..1] == [x];
    assert [x][..0] == [];
    assert DetectFrom(services, []) == DfsState({}, {}, []);
    assert DetectFrom(services, [x]) == after;
    assert y in after.visited;
  }

  /** The only enumerations of a two-service map are its two orders. */
  lemma TwoEnumerations(services: Services, order: seq<string>)
    requires services.Keys == {"A", "B"} && IsEnumeration(order, services)
    ensures order == ["A", "B"] || order == ["B", "A"]
  {
    DistinctCard(order);
    assert Elements(order) == {"A", "B"};
    assert |order| == 2;
    assert order[0] != order[1];
    assert order == [order[0], order[1]];
  }

  /** The texts of the two reports of a pair A, B depending on each other. */
  lemma PairReports()
    ensures CycleReport(["A", "B", "A"]) == "Cyclic dependency detected: A -> B -> A"
    ensures CycleReport(["B", "A", "B"]) == "Cyclic dependency detected: B -> A -> B"
  {
    assert Text.Join(["A", "B", "A"], " -> ") == "A -> B -> A";
    assert Text.Join(["B", "A", "B"], " -> ") == "B -> A -> B";
  }

  /** Two services depending on each other, in either map order: exactly one report, the cycle from
      the first root back to itself. */
  lemma TwoCycleReported(order: seq<string>)
    requires IsEnumeration(order, map["A" := Some(["B"]), "B" := Some(["A"])])
    ensures var cycles := DetectFrom(map["A" := Some(["B"]), "B" := Some(["A"])], order).cycles;
            && |cycles| == 1
            && (order[0] == "A" ==> cycles == ["Cyclic dependency detected: A -> B -> A"])
            && (order[0] == "B" ==> cycles == ["Cyclic dependency detected: B -> A -> B"])
  {
    var services := map["A" := Some(["B"]), "B" := Some(["A"])];
    assert DependsOn(services, "A") == ["B"] && DependsOn(services, "B") == ["A"];
    TwoEnumerations(services, order);
    PairReports();
    if order == ["A", "B"] {
      MutualPairDetected(services, "A", "B");
    } else {
      MutualPairDetected(services, "B", "A");
    }
  }

  /** A name left on the path by an aborted walk is not reported again: after the cycle A -> B -> A,
      C's edge to A finds A visited and on the path but not on C's stack. */
  lemma StalePathNotReported()
    ensures DetectFrom(map["A" := Some(["B"]), "B" := Some(["A"]), "C" := Some(["A"])], ["A", "B", "C"]).cycles
            == ["Cyclic dependency detected: A -> B -> A"]
  {
    var services := map["A" := Some(["B"]), "B" := Some(["A"]), "C" := Some(["A"])];
    assert DependsOn(services, "A") == ["B"] && DependsOn(services, "B") == ["A"];
    assert DependsOn(services, "C") == ["A"];
    MutualPairDetected(services, "A", "B");
    var report := "Cyclic dependency detected: A -> B -> A";
    assert CycleReport(["A", "B", "A"]) == report;
    var after := DfsState({"A", "B"}, {"A", "B"}, [report]);
    assert ["A", "B", "C"][..2] == ["A", "B"];
    assert DetectFrom(services, ["A", "B"]) == after;
    var withC := DfsState({"A", "B", "C"}, {"A", "B", "C"}, [report]);
    assert IndexOf(["C"], "A") == -1;
    assert VisitDeps(services, "C", ["C"], 1, withC) == DfsOutcome(false, withC.(path := {"A", "B"}));
    assert VisitDeps(services, "C", ["C"], 0, withC) == DfsOutcome(false, withC.(path := {"A", "B"}));
    assert [] + ["C"] == ["C"] && {"A", "B"} + {"C"} == {"A", "B", "C"};
    assert Visit(services, "C", [], after).state.cycles == [report];
  }
}
