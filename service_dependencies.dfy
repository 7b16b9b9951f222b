/** The project package's services map, the validation that every dependency names a service, and
    the dependency graph. Cycle detection, from the same source file, is in DependencyCycles. */
module ServiceDependencies {
  import opened Wrappers
  import opened Sequences

  /** A project's services: each service name maps to its dependsOn list. None is Go's nil slice (the
      manifest has no dependsOn key); Some([]) is an explicit empty list. */
  type Services = map<string, Option<seq<string>>>

  /** The names a service depends on; a nil list and an unknown service both read as empty. */
  function DependsOn(services: Services, name: string): seq<string> {
    if name in services && services[name].Some? then services[name].value else []
  }

  /** order lists every service exactly once: one possible iteration order of Go's map. */
  predicate IsEnumeration(order: seq<string>, services: Services) {
    && NoDuplicates(order)
    && (forall n :: n in order ==> n in services)
    && (forall n :: n in services ==> n in order)
  }

  /** An enumeration has one entry per service. */
  lemma EnumerationLength(order: seq<string>, services: Services)
    requires IsEnumeration(order, services)
    ensures |order| == |services|
  {
    DistinctCard(order);
    assert Elements(order) == services.Keys;
  }

  // ---------------------------------------------------------------------------------------------
  // Validation: every dependency must name a service

  function IssueMessage(service: string, dependency: string): string {
    "Service '" + service + "' depends on '" + dependency + "', but this service doesn't exist in azure.yaml"
  }

  /** The entries of deps that name no service, in their order, duplicates kept. */
  function Dangling(services: Services, deps: seq<string>): seq<string> {
    if deps == [] then []
    else
      var last := deps[|deps| - 1];
      Dangling(services, deps[..|deps| - 1]) + (if last in services then [] else [last])
  }

  /** Each name that is not a service occurs in the dangling entries as often as in the list; a
      service name does not occur at all. */
  lemma {:induction false} DanglingCount(services: Services, deps: seq<string>, d: string)
    ensures multiset(Dangling(services, deps))[d] == if d in services then 0 else multiset(deps)[d]
  {
    if deps != [] {
      var last := deps[|deps| - 1];
      assert deps == deps[..|deps| - 1] + [last];
      DanglingCount(services, deps[..|deps| - 1], d);
    }
  }

  /** One issue per dangling name, in order. */
  function MessagesFor(service: string, dangling: seq<string>): seq<string> {
    seq(|dangling|, k requires 0 <= k < |dangling| => IssueMessage(service, dangling[k]))
  }

  lemma MessagesForSnoc(service: string, dangling: seq<string>, d: string)
    ensures MessagesFor(service, dangling + [d]) == MessagesFor(service, dangling) + [IssueMessage(service, d)]
  {
  }

  /** The issues of the services in names, when the services are visited in that order. */
  function Issues(services: Services, names: seq<string>): seq<string> {
    if names == [] then []
    else
      var last := names[|names| - 1];
      Issues(services, names[..|names| - 1]) + MessagesFor(last, Dangling(services, DependsOn(services, last)))
  }

  lemma IssuesSnoc(services: Services, names: seq<string>, name: string)
    ensures Issues(services, names + [name]) ==
            Issues(services, names) + MessagesFor(name, Dangling(services, DependsOn(services, name)))
  {
    assert (names + [name])[..|names|] == names;
  }

  /** The issues of one more entry of an enumeration. */
  lemma IssuesPrefix(services: Services, order: seq<string>, i: int)
    requires 0 <= i < |order|
    ensures Issues(services, order[..i + 1]) ==
            Issues(services, order[..i]) + MessagesFor(order[i], Dangling(services, DependsOn(services, order[i])))
  {
    assert order[..i + 1] == order[..i] + [order[i]];
    IssuesSnoc(services, order[..i], order[i]);
  }

  /** Every entry of every service's list names a service. */
  predicate AllDependenciesExist(services: Services) {
    forall s, d :: s in services && d in DependsOn(services, s) ==> d in services
  }

  /** ValidateServiceDependencies, with order the iteration order of the services map. An empty
      project yields no issues, and validation yields none exactly when every dependency exists. */
  method ValidateServiceDependencies(services: Services, order: seq<string>) returns (issues: seq<string>)
    requires IsEnumeration(order, services)
    ensures issues == Issues(services, order)
    ensures |services| == 0 ==> issues == []
    ensures issues == [] <==> AllDependenciesExist(services)
  {
    IssuesEmptyIff(services, order);
    issues := [];
    if |services| == 0 {
      return;
    }
    var available := AvailableServices(services, order);
    var i := 0;
    while i < |order|
      invariant 0 <= i <= |order|
      invariant issues == Issues(services, order[..i])
    {
      var name := order[i];
      var deps := DependsOn(services, name);
      if deps != [] {
        var found := MissingDependencies(services, available, name, deps);
        issues := issues + found;
      }
      IssuesPrefix(services, order, i);
      i := i + 1;
    }
    assert order[..i] == order;
  }

  /** The set of service names, collected by walking the map once. */
  method AvailableServices(services: Services, order: seq<string>) returns (available: set<string>)
    requires IsEnumeration(order, services)
    ensures available == services.Keys
  {
    available := {};
    var i := 0;
    while i < |order|
      invariant 0 <= i <= |order|
      invariant forall n :: n in available <==> n in order[..i]
    {
      assert order[..i + 1] == order[..i] + [order[i]];
      available := available + {order[i]};
      i := i + 1;
    }
    assert order[..|order|] == order;
  }

  /** The inner loop of the validation: one message per entry of deps that is not available. */
  method MissingDependencies(services: Services, available: set<string>, name: string, deps: seq<string>)
    returns (found: seq<string>)
    requires available == services.Keys
    ensures found == MessagesFor(name, Dangling(services, deps))
  {
    found := [];
    var j := 0;
    while j < |deps|
      invariant 0 <= j <= |deps|
      invariant found == MessagesFor(name, Dangling(services, deps[..j]))
    {
      assert deps[..j + 1][..j] == deps[..j];
      if deps[j] !in available {
        MessagesForSnoc(name, Dangling(services, deps[..j]), deps[j]);
        found := found + [IssueMessage(name, deps[j])];
      }
      j := j + 1;
    }
    assert deps[..j] == deps;
  }

  /** The adjacency map: every service, mapped to its list, or to an explicit empty list when it has
      none. */
  function Graph(services: Services): (g: map<string, seq<string>>)
    ensures g.Keys == services.Keys
  {
    map n | n in services :: DependsOn(services, n)
  }

  /** The graph keeps each listed entry and turns a nil or empty list into an explicit []. */
  lemma GraphEntries(services: Services, n: string)
    requires n in services
    ensures services[n].None? ==> Graph(services)[n] == []
    ensures services[n].Some? ==> Graph(services)[n] == services[n].value
    ensures forall d :: d in Graph(services)[n] <==> d in DependsOn(services, n)
  {
  }

  /** BuildDependencyGraph, filling the map in one pass over the services. */
  method BuildDependencyGraph(services: Services, order: seq<string>) returns (graph: map<string, seq<string>>)
    requires IsEnumeration(order, services)
    ensures graph == Graph(services)
  {
    graph := map[];
    var i := 0;
    while i < |order|
      invariant 0 <= i <= |order|
      invariant forall n :: n in graph <==> n in order[..i]
      invariant forall n :: n in graph ==> n in services && graph[n] == DependsOn(services, n)
    {
      var name := order[i];
      var deps := services[name];
      if deps.Some? && |deps.value| > 0 {
        graph := graph[name := deps.value];
      } else {
        graph := graph[name := []];
      }
      assert order[..i + 1] == order[..i] + [name];
      i := i + 1;
    }
    assert order[..i] == order;
    assert graph.Keys == services.Keys;
  }

  /** Every entry of the lists of the services in names names a service. */
  predicate DependenciesExistFor(services: Services, names: seq<string>) {
    forall s, d :: s in names && d in DependsOn(services, s) ==> d in services
  }

  lemma {:induction false} DanglingEmptyIff(services: Services, deps: seq<string>)
    ensures Dangling(services, deps) == [] <==> forall d :: d in deps ==> d in services
  {
    if deps != [] {
      var init, last := deps[..|deps| - 1], deps[|deps| - 1];
      assert deps == init + [last];
      DanglingEmptyIff(services, init);
    }
  }

  lemma {:induction false} IssuesEmptyIffIn(services: Services, names: seq<string>)
    ensures Issues(services, names) == [] <==> DependenciesExistFor(services, names)
  {
    if names != [] {
      var init, last := names[..|names| - 1], names[|names| - 1];
      assert names == init + [last];
      IssuesEmptyIffIn(services, init);
      var dangling := Dangling(services, DependsOn(services, last));
      DanglingEmptyIff(services, DependsOn(services, last));
      assert |MessagesFor(last, dangling)| == |dangling|;
      if DependenciesExistFor(services, names) {
        assert DependenciesExistFor(services, init);
        assert dangling == [];
      }
      if Issues(services, names) == [] {
        assert Issues(services, init) == [] && dangling == [];
        forall s, d | s in names && d in DependsOn(services, s) ensures d in services {
          if s != last {
            assert s in init;
          }
        }
      }
    }
  }

  /** Validation finds no issue exactly when every dependency names a service. */
  lemma IssuesEmptyIff(services: Services, order: seq<string>)
    requires IsEnumeration(order, services)
    ensures Issues(services, order) == [] <==> AllDependenciesExist(services)
  {
    IssuesEmptyIffIn(services, order);
    assert DependenciesExistFor(services, order) <==> AllDependenciesExist(services);
  }

  /** Each of service s's messages names an entry of s's list that is not a service... */
  lemma ServiceMessagesNameDangling(services: Services, s: string, m: string)
    requires m in MessagesFor(s, Dangling(services, DependsOn(services, s)))
    ensures exists d :: d in DependsOn(services, s) && d !in services && m == IssueMessage(s, d)
  {
    var dangling := Dangling(services, DependsOn(services, s));
    var k :| 0 <= k < |dangling| && MessagesFor(s, dangling)[k] == m;
    DanglingCount(services, DependsOn(services, s), dangling[k]);
    assert multiset(dangling)[dangling[k]] > 0;
    assert dangling[k] in DependsOn(services, s) && dangling[k] !in services;
  }

  /** ...and each such entry has its message. */
  lemma DanglingHasMessage(services: Services, s: string, d: string)
    requires d in DependsOn(services, s) && d !in services
    ensures IssueMessage(s, d) in MessagesFor(s, Dangling(services, DependsOn(services, s)))
  {
    var dangling := Dangling(services, DependsOn(services, s));
    DanglingCount(services, DependsOn(services, s), d);
    assert multiset(dangling)[d] > 0;
    var k :| 0 <= k < |dangling| && dangling[k] == d;
    assert MessagesFor(s, dangling)[k] == IssueMessage(s, d);
  }

  /** A message is among service s's messages exactly when it names an entry of s's list that is
      not a service. */
  lemma ServiceMessages(services: Services, s: string, m: string)
    ensures m in MessagesFor(s, Dangling(services, DependsOn(services, s))) <==>
            exists d :: d in DependsOn(services, s) && d !in services && m == IssueMessage(s, d)
  {
    if m in MessagesFor(s, Dangling(services, DependsOn(services, s))) {
      ServiceMessagesNameDangling(services, s, m);
    }
    forall d | d in DependsOn(services, s) && d !in services && m == IssueMessage(s, d)
      ensures m in MessagesFor(s, Dangling(services, DependsOn(services, s)))
    {
      DanglingHasMessage(services, s, d);
    }
  }

  lemma {:induction false} IssuesMembershipIn(services: Services, names: seq<string>, m: string)
    ensures m in Issues(services, names) <==>
            exists s, d :: s in names && d in DependsOn(services, s) && d !in services && m == IssueMessage(s, d)
  {
    if names != [] {
      var init, last := names[..|names| - 1], names[|names| - 1];
      assert names == init + [last];
      IssuesMembershipIn(services, init, m);
      ServiceMessages(services, last, m);
    }
  }

  /** An issue is reported exactly for each service S and each entry D of its list that is not a
      service, and reads "Service 'S' depends on 'D', but this service doesn't exist in azure.yaml". */
  lemma IssuesMembership(services: Services, order: seq<string>, m: string)
    requires IsEnumeration(order, services)
    ensures m in Issues(services, order) <==>
            exists s, d :: s in services && d in DependsOn(services, s) && d !in services && m == IssueMessage(s, d)
  {
    IssuesMembershipIn(services, order, m);
  }

  /** Each service contributes one issue per dangling entry of its list, duplicates included. */
  lemma ServiceIssueCount(services: Services, s: string, d: string)
    requires d !in services
    ensures multiset(Dangling(services, DependsOn(services, s)))[d] == multiset(DependsOn(services, s))[d]
    ensures |MessagesFor(s, Dangling(services, DependsOn(services, s)))| == |Dangling(services, DependsOn(services, s))|
  {
    DanglingCount(services, DependsOn(services, s), d);
  }

  lemma {:induction false} IssuesAppend(services: Services, a: seq<string>, b: seq<string>)
    ensures Issues(services, a + b) == Issues(services, a) + Issues(services, b)
  {
    if b != [] {
      var init, last := b[..|b| - 1], b[|b| - 1];
      assert (a + b)[..|a + b| - 1] == a + init;
      assert (a + b)[|a + b| - 1] == last;
      IssuesAppend(services, a, init);
      var x := MessagesFor(last, Dangling(services, DependsOn(services, last)));
      assert Issues(services, b) == Issues(services, init) + x;
      assert Issues(services, a + b) == Issues(services, a + init) + x;
    } else {
      assert a + b == a;
    }
  }

  /** Dropping the entry at k from a list without duplicates leaves a list without duplicates that
      holds exactly the other entries. */
  lemma RemoveAtDistinct(s: seq<string>, k: int)
    requires NoDuplicates(s) && 0 <= k < |s|
    ensures NoDuplicates(s[..k] + s[k + 1..])
    ensures forall n :: n in s[..k] + s[k + 1..] <==> n in s && n != s[k]
  {
    var rest := s[..k] + s[k + 1..];
    forall i, j | 0 <= i < j < |rest| ensures rest[i] != rest[j] {
      var i2 := if i < k then i else i + 1;
      var j2 := if j < k then j else j + 1;
      assert rest[i] == s[i2] && rest[j] == s[j2];
    }
    forall n ensures n in rest <==> n in s && n != s[k] {
      if n in rest {
        var a :| 0 <= a < |rest| && rest[a] == n;
        var a2 := if a < k then a else a + 1;
        assert s[a2] == n && a2 != k;
      }
      if n in s && n != s[k] {
        var a :| 0 <= a < |s| && s[a] == n;
        assert a != k;
        if a < k {
          assert rest[a] == n;
        } else {
          assert rest[a - 1] == n;
        }
      }
    }
  }

  /** The issues of one service, reported wherever it sits in the order. */
  lemma IssuesSplit(services: Services, p: seq<string>, x: string, q: seq<string>)
    ensures multiset(Issues(services, p + [x] + q)) == multiset(Issues(services, p + q)) + multiset(Issues(services, [x]))
  {
    IssuesAppend(services, p, [x]);
    IssuesAppend(services, p + [x], q);
    IssuesAppend(services, p, q);
  }

  /** Go's map iteration order does not matter: two orders give the same issues, up to order. */
  lemma {:induction false} IssuesOrderIndependent(services: Services, o1: seq<string>, o2: seq<string>)
    requires NoDuplicates(o1) && NoDuplicates(o2)
    requires forall n :: n in o1 <==> n in o2
    ensures multiset(Issues(services, o1)) == multiset(Issues(services, o2))
    decreases |o1|
  {
    if o1 == [] {
      if o2 != [] {
        HeadIn(o2);
        assert false;
      }
    } else {
      var last := |o1| - 1;
      var init, x := o1[..last], o1[last];
      assert o1 == init + [x];
      assert o1[last + 1..] == [];
      RemoveAtDistinct(o1, last);
      assert x in o2;
      var k :| 0 <= k < |o2| && o2[k] == x;
      var p, q := o2[..k], o2[k + 1..];
      assert o2 == p + [x] + q;
      RemoveAtDistinct(o2, k);
      assert o1[..last] + o1[last + 1..] == init;
      forall n ensures n in init <==> n in p + q {
        assert n in init <==> n in o1 && n != x;
        assert n in p + q <==> n in o2 && n != x;
      }
      IssuesOrderIndependent(services, init, p + q);
      IssuesSplit(services, init, x, []);
      IssuesSplit(services, p, x, q);
      assert init + [x] + [] == o1;
      assert init + [] == init;
    }
  }

  // ---------------------------------------------------------------------------------------------
  // The validation test cases, for every iteration order

  /** web lists api; api lists db; db has no list: nothing is reported. */
  lemma ValidDependenciesExample(order: seq<string>)
    requires IsEnumeration(order, map["web" := Some(["api"]), "api" := Some(["db"]), "db" := None])
    ensures Issues(map["web" := Some(["api"]), "api" := Some(["db"]), "db" := None], order) == []
  {
    var services := map["web" := Some(["api"]), "api" := Some(["db"]), "db" := None];
    assert AllDependenciesExist(services) by {
      forall s, d | s in services && d in DependsOn(services, s) ensures d in services {
        assert s == "web" || s == "api" || s == "db";
      }
    }
    IssuesEmptyIff(services, order);
  }

  /** The issues of two services visited in order: the first one's messages, then the second's. */
  lemma IssuesOfTwo(services: Services, a: string, b: string)
    ensures Issues(services, [a, b]) ==
            MessagesFor(a, Dangling(services, DependsOn(services, a))) + MessagesFor(b, Dangling(services, DependsOn(services, b)))
  {
    var first := MessagesFor(a, Dangling(services, DependsOn(services, a)));
    assert Issues(services, [a]) == [] + first by { assert [a][..0] == []; }
    assert Issues(services, [a, b]) == Issues(services, [a]) + MessagesFor(b, Dangling(services, DependsOn(services, b))) by {
      assert [a, b][..1] == [a];
    }
    assert [] + first == first;
  }

  /** The dangling entries of lists of one and of two names. */
  lemma DanglingShort(services: Services, p: string, q: string)
    ensures Dangling(services, [p]) == if p in services then [] else [p]
    ensures Dangling(services, [p, q]) == Dangling(services, [p]) + (if q in services then [] else [q])
  {
    assert [p][..0] == [] && [p, q][..1] == [p];
  }

  /** web lists api and a name that is no service: exactly that one issue, when api is visited
      before web. */
  lemma OneInvalidInOrder(services: Services, api: string, web: string, x: string)
    requires services == map[web := Some([api, x]), api := None]
    requires api != web && x != api && x != web
    ensures Issues(services, [api, web]) == [IssueMessage(web, x)]
  {
    IssuesOfTwo(services, api, web);
    DanglingShort(services, api, x);
    assert Dangling(services, DependsOn(services, api)) == [];
    assert MessagesFor(web, [x]) == [IssueMessage(web, x)];
  }

  /** web lists api and a name that is no service: exactly that one issue, in every map order. */
  lemma InvalidDependencyExample(order: seq<string>)
    requires IsEnumeration(order, map["web" := Some(["api", "nonexistent"]), "api" := None])
    ensures var issues := Issues(map["web" := Some(["api", "nonexistent"]), "api" := None], order);
            && multiset(issues) == multiset{IssueMessage("web", "nonexistent")}
            && |issues| == 1
  {
    var services := map["web" := Some(["api", "nonexistent"]), "api" := None];
    OneInvalidInOrder(services, "api", "web", "nonexistent");
    IssuesOrderIndependent(services, order, ["api", "web"]);
  }

  /** web lists api and a name x1 that is no service, api lists a name x2 that is no service:
      with api visited before web, the issues are api's and then web's. */
  lemma MultipleInvalidInOrder(services: Services, api: string, web: string, x1: string, x2: string)
    requires services == map[web := Some([api, x1]), api := Some([x2])]
    requires api != web && x1 != api && x1 != web && x2 != api && x2 != web
    ensures Issues(services, [api, web]) == [IssueMessage(api, x2), IssueMessage(web, x1)]
  {
    IssuesOfTwo(services, api, web);
    assert DependsOn(services, api) == [x2] && DependsOn(services, web) == [api, x1];
    DanglingShort(services, x2, x2);
    DanglingShort(services, api, x1);
    assert Dangling(services, [api, x1]) == [x1] by { assert [] + [x1] == [x1]; }
    var m2, m1 := IssueMessage(api, x2), IssueMessage(web, x1);
    assert MessagesFor(api, [x2]) == [m2] && MessagesFor(web, [x1]) == [m1];
    assert [m2] + [m1] == [m2, m1];
  }

  /** web and api each list one name that is no service: two issues, one per service, in every
      map order. */
  lemma MultipleInvalidDependenciesExample(order: seq<string>)
    requires IsEnumeration(order, map["web" := Some(["api", "nonexistent1"]), "api" := Some(["nonexistent2"])])
    ensures var issues := Issues(map["web" := Some(["api", "nonexistent1"]), "api" := Some(["nonexistent2"])], order);
            && multiset(issues) == multiset{IssueMessage("web", "nonexistent1"), IssueMessage("api", "nonexistent2")}
            && |issues| == 2
  {
    var services := map["web" := Some(["api", "nonexistent1"]), "api" := Some(["nonexistent2"])];
    MultipleInvalidInOrder(services, "api", "web", "nonexistent1", "nonexistent2");
    PairIssues(services, order, ["api", "web"], IssueMessage("api", "nonexistent2"), IssueMessage("web", "nonexistent1"));
  }

  /** Two issues in one order are the same two issues in every order. */
  lemma PairIssues(services: Services, order: seq<string>, known: seq<string>, a: string, w: string)
    requires IsEnumeration(order, services) && IsEnumeration(known, services)
    requires Issues(services, known) == [a, w]
    ensures multiset(Issues(services, order)) == multiset{w, a} && |Issues(services, order)| == 2
  {
    assert multiset([a, w]) == multiset{w, a};
    IssuesOrderIndependent(services, order, known);
  }
}
