// The rules of the dep add / dep remove / dep list commands and of the gen deps command, taken out of
// their loading, prompting and saving.

module DependencyCommands {
  import opened Wrappers
  import opened Sequences
  import opened Sorting
  import opened ServiceDependencies

  /** The ways the commands refuse. */
  datatype CommandError =
    | NoServices
    | ServiceNotFound(name: string)
    | AlreadyDependsOn(src: string, dest: string)
    | NoDependencies(src: string)
    | NotDependsOn(src: string, dest: string)
    | NoOtherServices

  /** The text of each error. */
  function ErrorMessage(e: CommandError): string {
    match e
    case NoServices => "no services defined in project. Add services to azure.yaml first"
    case ServiceNotFound(name) => "service '" + name + "' not found in project"
    case AlreadyDependsOn(src, dest) => "service '" + src + "' already depends on '" + dest + "'. Use --force to overwrite"
    case NoDependencies(src) => "service '" + src + "' has no dependencies to remove"
    case NotDependsOn(src, dest) => "service '" + src + "' does not depend on '" + dest + "'"
    case NoOtherServices => "no other services available to depend on. Add more services first"
  }

  function CreatedMessage(src: string, dest: string): string {
    "Dependency created: '" + src + "' now depends on '" + dest + "'"
  }

  function RemovedMessage(src: string, dest: string): string {
    "Dependency removed: '" + src + "' no longer depends on '" + dest + "'"
  }

  const CancelledMessage: string := "Dependency removal cancelled"

  // ---------------------------------------------------------------------------------------------
  // Adding an edge

  /** Why an add is refused, checked in the command's order; None when it goes ahead. */
  function AddError(services: Services, src: string, dest: string, force: bool): (e: Option<CommandError>)
    ensures e.None? <==> && |services| > 0 && src in services && dest in services
                         && (force || dest !in DependsOn(services, src))
  {
    if |services| == 0 then Some(NoServices)
    else if src !in services then Some(ServiceNotFound(src))
    else if dest !in services then Some(ServiceNotFound(dest))
    else if dest in DependsOn(services, src) && !force then Some(AlreadyDependsOn(src, dest))
    else None
  }

  /** The list after adding dest: a nil list becomes [dest]; otherwise dest is appended unless it is
      already there. */
  function WithEdge(list: Option<seq<string>>, dest: string): (r: Option<seq<string>>)
    ensures r.Some? && dest in r.value
  {
    match list
    case None => Some([dest])
    case Some(l) => if dest in l then Some(l) else Some(l + [dest])
  }

  /** The entries of a list, nil being the empty list. */
  function Entries(list: Option<seq<string>>): seq<string> {
    if list.None? then [] else list.value
  }

  /** Adding keeps the old entries in order and adds dest at the end exactly when it was missing. */
  lemma WithEdgeEntries(list: Option<seq<string>>, dest: string)
    ensures dest in Entries(list) ==> Entries(WithEdge(list, dest)) == Entries(list)
    ensures dest !in Entries(list) ==> Entries(WithEdge(list, dest)) == Entries(list) + [dest]
  {
  }

  /** Adding never introduces a duplicate. */
  lemma WithEdgeNoDuplicates(list: Option<seq<string>>, dest: string)
    requires NoDuplicates(Entries(list))
    ensures NoDuplicates(Entries(WithEdge(list, dest)))
  {
    var l := Entries(list);
    if dest !in l {
      var r := l + [dest];
      forall i, j | 0 <= i < j < |r| ensures r[i] != r[j] {
        if j == |l| {
          assert r[i] == l[i];
        }
      }
    }
  }

  /** Adding the same edge twice is adding it once. */
  lemma {:induction false} WithEdgeIdempotent(list: Option<seq<string>>, dest: string)
    ensures WithEdge(WithEdge(list, dest), dest) == WithEdge(list, dest)
  {
    match list
    case None =>
      assert dest in [dest];
    case Some(l) =>
      if dest !in l {
        assert dest in l + [dest];
      }
  }

  // ---------------------------------------------------------------------------------------------
  // Removing an edge

  /** Why a remove is refused, checked in the command's order; None when it goes ahead. */
  function RemoveError(services: Services, src: string, dest: string): (e: Option<CommandError>)
    ensures e.None? <==> |services| > 0 && src in services && dest in DependsOn(services, src)
  {
    if |services| == 0 then Some(NoServices)
    else if src !in services then Some(ServiceNotFound(src))
    else if DependsOn(services, src) == [] then Some(NoDependencies(src))
    else if dest !in DependsOn(services, src) then Some(NotDependsOn(src, dest))
    else None
  }

  /** The list with the first occurrence of dest cut out; an emptied list becomes nil. */
  function WithoutFirst(l: seq<string>, dest: string): (r: Option<seq<string>>)
    requires dest in l
  {
    var k := IndexOf(l, dest);
    var rest := l[..k] + l[k + 1..];
    if rest == [] then None else Some(rest)
  }

  /** Removing takes away exactly one dest, keeps every other entry in its order, and leaves nil
      rather than an empty list. */
  lemma WithoutFirstEntries(l: seq<string>, dest: string)
    requires dest in l
    ensures var k := IndexOf(l, dest);
            && dest !in l[..k]
            && Entries(WithoutFirst(l, dest)) == l[..k] + l[k + 1..]
    ensures multiset(Entries(WithoutFirst(l, dest))) == multiset(l) - multiset{dest}
    ensures WithoutFirst(l, dest).Some? ==> WithoutFirst(l, dest).value != []
    ensures WithoutFirst(l, dest).None? <==> l == [dest]
  {
    var k := IndexOf(l, dest);
    var pre, post := l[..k], l[k + 1..];
    assert l == pre + [dest] + post;
    assert multiset(l) == multiset(pre) + multiset{dest} + multiset(post);
    WithoutFirstNil(l, dest);
  }

  /** Removing gives nil exactly when dest was the only entry, and never an empty list. */
  lemma WithoutFirstNil(l: seq<string>, dest: string)
    requires dest in l
    ensures WithoutFirst(l, dest).Some? ==> WithoutFirst(l, dest).value != []
    ensures WithoutFirst(l, dest).None? <==> l == [dest]
  {
    var k := IndexOf(l, dest);
    var pre, post := l[..k], l[k + 1..];
    if pre + post == [] {
      assert |l| == 1 && l[0] == dest;
      assert l == [dest];
    }
    if l == [dest] {
      assert k == 0 && pre == [] && post == [];
    }
  }

  /** The list an emptied list is saved as: an empty list becomes nil. */
  function Normalized(list: Option<seq<string>>): Option<seq<string>> {
    if Entries(list) == [] then None else list
  }

  /** Removing an edge just added restores the list, up to an empty list being saved as nil. */
  lemma AddThenRemove(list: Option<seq<string>>, dest: string)
    requires dest !in Entries(list)
    ensures dest in Entries(WithEdge(list, dest))
    ensures WithoutFirst(Entries(WithEdge(list, dest)), dest) == Normalized(list)
  {
    var l := Entries(list);
    var added := l + [dest];
    assert Entries(WithEdge(list, dest)) == added;
    assert IndexOf(added, dest) == |l| by {
      assert added[|l|] == dest;
      assert added[..|l|] == l;
    }
    assert added[..|l|] + added[|l| + 1..] == l;
  }

  // ---------------------------------------------------------------------------------------------
  // The list view

  /** One row of dep list. */
  datatype ServiceDependencyView = ServiceDependencyView(service: string, dependsOn: seq<string>, requiredBy: seq<string>)

  function ViewName(v: ServiceDependencyView): string { v.service }

  /** The services that list b, in the order given, each once per occurrence of b in its list. */
  function RequiredBy(services: Services, names: seq<string>, b: string): seq<string> {
    if names == [] then []
    else
      var last := names[|names| - 1];
      RequiredBy(services, names[..|names| - 1], b) + Repeat(last, Count(DependsOn(services, last), b))
  }

  /** Every service that lists b occurs in RequiredBy once per entry b in its list; nothing else
      occurs. */
  lemma {:induction false} RequiredByCount(services: Services, names: seq<string>, b: string, a: string)
    requires NoDuplicates(names)
    ensures multiset(RequiredBy(services, names, b))[a] == if a in names then multiset(DependsOn(services, a))[b] else 0
  {
    if names != [] {
      var init, last := names[..|names| - 1], names[|names| - 1];
      assert names == init + [last];
      assert NoDuplicates(init);
      forall k | 0 <= k < |init| ensures init[k] != last {
        assert init[k] == names[k];
      }
      RequiredByCount(services, init, b, a);
      var n := Count(DependsOn(services, last), b);
      CountIsMultiplicity(DependsOn(services, last), b);
      RepeatCount(last, n, a);
      assert multiset(RequiredBy(services, names, b)) == multiset(RequiredBy(services, init, b)) + multiset(Repeat(last, n));
    }
  }

  /** A view as the first pass of dep list leaves it after the services in done: the list (set once
      the service itself is done) and the unsorted required-by services among done. */
  function RawView(services: Services, done: seq<string>, n: string): ServiceDependencyView {
    ServiceDependencyView(n, if n in done then DependsOn(services, n) else [], RequiredBy(services, done, n))
  }

  /** The same view with both of its lists sorted. */
  function SortLists(v: ServiceDependencyView): (r: ServiceDependencyView)
    ensures ViewName(r) == ViewName(v)
  {
    v.(dependsOn := SortBy(v.dependsOn, Identity), requiredBy := SortBy(v.requiredBy, Identity))
  }

  /** The view of service n once every service is done and the lists are sorted. */
  function ViewOf(services: Services, order: seq<string>, n: string): ServiceDependencyView {
    SortLists(RawView(services, order, n))
  }

  /** The views of the first pass, in map order. */
  function RawViews(services: Services, order: seq<string>): (r: seq<ServiceDependencyView>)
    ensures |r| == |order|
    ensures forall k :: 0 <= k < |order| ==> r[k] == RawView(services, order, order[k])
  {
    seq(|order|, k requires 0 <= k < |order| => RawView(services, order, order[k]))
  }

  /** What dep list shows: every service's view sorted by name, or the one view asked for. */
  function Listing(services: Services, order: seq<string>, filter: Option<string>): Result<seq<ServiceDependencyView>, CommandError> {
    if |services| == 0 then Failure(NoServices)
    else match filter
      case Some(name) =>
        if name in services then Success([ViewOf(services, order, name)]) else Failure(ServiceNotFound(name))
      case None => Success(SortBy(Map(SortLists, RawViews(services, order)), ViewName))
  }

  /** A service's view: its own list sorted, and every service A once per entry of n in A's list,
      sorted. */
  lemma ViewOfProperties(services: Services, order: seq<string>, n: string)
    requires IsEnumeration(order, services) && n in services
    ensures var v := ViewOf(services, order, n);
            && v.service == n
            && SortedBy(v.dependsOn, Identity) && multiset(v.dependsOn) == multiset(DependsOn(services, n))
            && SortedBy(v.requiredBy, Identity)
            && forall a :: multiset(v.requiredBy)[a] == if a in services then multiset(DependsOn(services, a))[n] else 0
  {
    SortBySorted(DependsOn(services, n), Identity);
    SortBySorted(RequiredBy(services, order, n), Identity);
    forall a ensures multiset(ViewOf(services, order, n).requiredBy)[a] == if a in services then multiset(DependsOn(services, a))[n] else 0 {
      RequiredByCount(services, order, n, a);
    }
  }

  /** The full listing holds exactly the views of the services, sorted by name. */
  lemma FullListing(services: Services, order: seq<string>)
    requires IsEnumeration(order, services)
    ensures var all := SortBy(Map(SortLists, RawViews(services, order)), ViewName);
            && SortedBy(all, ViewName)
            && (forall v :: v in all ==> v.service in services && v == ViewOf(services, order, v.service))
            && (forall n :: n in services ==> ViewOf(services, order, n) in all)
            && |all| == |services|
  {
    var views := Map(SortLists, RawViews(services, order));
    var all := SortBy(views, ViewName);
    SortBySorted(views, ViewName);
    EnumerationLength(order, services);
    SameElements(all, views);
    MappedViews(services, order);
  }

  /** A permutation has the same elements. */
  lemma SameElements<T>(a: seq<T>, b: seq<T>)
    requires multiset(a) == multiset(b)
    ensures forall x :: x in a <==> x in b
  {
    forall x ensures x in a <==> x in b {
      assert x in a <==> x in multiset(a);
      assert x in b <==> x in multiset(b);
    }
  }

  /** The sorted-list views in map order are exactly the services' views. */
  lemma MappedViews(services: Services, order: seq<string>)
    requires IsEnumeration(order, services)
    ensures var views := Map(SortLists, RawViews(services, order));
            && (forall v :: v in views ==> v.service in services && v == ViewOf(services, order, v.service))
            && (forall n :: n in services ==> ViewOf(services, order, n) in views)
  {
    var views := Map(SortLists, RawViews(services, order));
    forall v | v in views ensures v.service in services && v == ViewOf(services, order, v.service) {
      var k :| 0 <= k < |views| && views[k] == v;
      assert views[k] == ViewOf(services, order, order[k]);
    }
    forall n | n in services ensures ViewOf(services, order, n) in views {
      var k :| 0 <= k < |order| && order[k] == n;
      assert views[k] == ViewOf(services, order, n);
    }
  }

  /** The listing's promises: an error exactly for no services or an unknown filter; otherwise one
      view per service (or the one asked for), sorted by name, each with its list and its
      required-by services sorted, and B required by A once per entry B in A's list. */
  lemma ListingProperties(services: Services, order: seq<string>, filter: Option<string>)
    requires IsEnumeration(order, services)
    ensures Listing(services, order, filter).Failure? <==> |services| == 0 || (filter.Some? && filter.value !in services)
    ensures var r := Listing(services, order, filter);
            r.Success? ==> SortedBy(r.value, ViewName) && forall v :: v in r.value ==>
              && v.service in services
              && SortedBy(v.dependsOn, Identity) && multiset(v.dependsOn) == multiset(DependsOn(services, v.service))
              && SortedBy(v.requiredBy, Identity)
              && (forall a :: multiset(v.requiredBy)[a] == if a in services then multiset(DependsOn(services, a))[v.service] else 0)
    ensures var r := Listing(services, order, filter);
            r.Success? && filter.None? ==> forall n :: n in services ==> exists v :: v in r.value && v.service == n
    ensures var r := Listing(services, order, filter);
            r.Success? && filter.None? ==> |r.value| == |services|
    ensures var r := Listing(services, order, filter);
            r.Success? && filter.Some? ==> r.value == [ViewOf(services, order, filter.value)]
  {
    var r := Listing(services, order, filter);
    if r.Success? {
      if filter.None? {
        FullListing(services, order);
      }
      forall v | v in r.value
        ensures v.service in services
        ensures SortedBy(v.dependsOn, Identity) && multiset(v.dependsOn) == multiset(DependsOn(services, v.service))
        ensures SortedBy(v.requiredBy, Identity)
        ensures forall a :: multiset(v.requiredBy)[a] == if a in services then multiset(DependsOn(services, a))[v.service] else 0
      {
        ViewOfProperties(services, order, v.service);
      }
    }
  }

  // ---------------------------------------------------------------------------------------------
  // The project the commands load, change and save

  /** The result data of gen deps. */
  datatype GenData = GenData(service: string, dependsOn: string, dependencies: seq<string>)

  /** What gen deps returns on success: the message header and the result data. */
  datatype GenResult = GenResult(header: string, data: GenData)

  /** The loaded project: its services and whether the commands have saved it. */
  class Project {
    var services: Services
    var saved: bool

    constructor (services: Services)
      ensures this.services == services && !saved
    {
      this.services := services;
      saved := false;
    }

    /** dep add src dest [--force]. */
    method AddDependency(src: string, dest: string, force: bool) returns (r: Result<string, CommandError>)
      modifies this
      ensures AddError(old(services), src, dest, force).Some? ==>
                r == Failure(AddError(old(services), src, dest, force).value) && unchanged(this)
      ensures AddError(old(services), src, dest, force).None? ==>
                && r == Success(CreatedMessage(src, dest))
                && services == old(services)[src := WithEdge(old(services)[src], dest)]
                && saved
    {
      if |services| == 0 {
        return Failure(NoServices);
      }
      if src !in services {
        return Failure(ServiceNotFound(src));
      }
      if dest !in services {
        return Failure(ServiceNotFound(dest));
      }
      var existing := DependsOn(services, src);
      for i := 0 to |existing|
        invariant force || dest !in existing[..i]
      {
        if existing[i] == dest && !force {
          return Failure(AlreadyDependsOn(src, dest));
        }
      }
      assert existing[..|existing|] == existing;
      var list := services[src];
      if list.None? {
        services := services[src := Some([dest])];
      } else {
        var l := list.value;
        var hasDep := false;
        var i := 0;
        while i < |l|
          invariant 0 <= i <= |l|
          invariant !hasDep ==> dest !in l[..i]
          invariant hasDep ==> dest in l
        {
          if l[i] == dest {
            hasDep := true;
            break;
          }
          assert l[..i + 1] == l[..i] + [l[i]];
          i := i + 1;
        }
        assert !hasDep ==> l[..i] == l;
        if !hasDep {
          services := services[src := Some(l + [dest])];
        }
      }
      saved := true;
      r := Success(CreatedMessage(src, dest));
    }

    /** dep remove src dest [--force], with the answer to the confirmation prompt as confirmed. */
    method RemoveDependency(src: string, dest: string, force: bool, confirmed: bool) returns (r: Result<string, CommandError>)
      modifies this
      ensures RemoveError(old(services), src, dest).Some? ==>
                r == Failure(RemoveError(old(services), src, dest).value) && unchanged(this)
      ensures RemoveError(old(services), src, dest).None? && !force && !confirmed ==>
                r == Success(CancelledMessage) && unchanged(this)
      ensures RemoveError(old(services), src, dest).None? && (force || confirmed) ==>
                && r == Success(RemovedMessage(src, dest))
                && services == old(services)[src := WithoutFirst(DependsOn(old(services), src), dest)]
                && saved
    {
      if |services| == 0 {
        return Failure(NoServices);
      }
      if src !in services {
        return Failure(ServiceNotFound(src));
      }
      var existing := DependsOn(services, src);
      if |existing| == 0 {
        return Failure(NoDependencies(src));
      }
      var foundIndex := FindIndex(existing, dest);
      if foundIndex == -1 {
        return Failure(NotDependsOn(src, dest));
      }
      if !force && !confirmed {
        return Success(CancelledMessage);
      }
      var rest := existing[..foundIndex] + existing[foundIndex + 1..];
      if |rest| == 0 {
        services := services[src := None];
      } else {
        services := services[src := Some(rest)];
      }
      saved := true;
      r := Success(RemovedMessage(src, dest));
    }

    /** gen deps src dest [--force]: the rules of dep add, with the created message as header and the
        resulting list in the result data. */
    method GenDependency(src: string, dest: string, force: bool) returns (r: Result<GenResult, CommandError>)
      modifies this
      ensures AddError(old(services), src, dest, force).Some? ==>
                r == Failure(AddError(old(services), src, dest, force).value) && unchanged(this)
      ensures AddError(old(services), src, dest, force).None? ==>
                && services == old(services)[src := WithEdge(old(services)[src], dest)]
                && saved
                && r == Success(GenResult(CreatedMessage(src, dest),
                                          GenData(src, dest, Entries(WithEdge(old(services)[src], dest)))))
    {
      var added := AddDependency(src, dest, force);
      if added.Failure? {
        return Failure(added.error);
      }
      r := Success(GenResult(added.value, GenData(src, dest, Entries(services[src]))));
    }

    /** The candidates offered when the target is prompted for: every service but src, in map
        order. */
    method PossibleDependencies(order: seq<string>, src: string) returns (r: Result<seq<string>, CommandError>)
      requires IsEnumeration(order, services)
      ensures r.Failure? <==> |services| == 0 || src !in services || services.Keys == {src}
      ensures |services| == 0 ==> r == Failure(NoServices)
      ensures |services| > 0 && src !in services ==> r == Failure(ServiceNotFound(src))
      ensures |services| > 0 && services.Keys == {src} ==> r == Failure(NoOtherServices)
      ensures r.Success? ==> NoDuplicates(r.value) && forall n :: n in r.value <==> n in services && n != src
    {
      if |services| == 0 {
        return Failure(NoServices);
      }
      if src !in services {
        return Failure(ServiceNotFound(src));
      }
      var candidates: seq<string> := [];
      for i := 0 to |order|
        invariant NoDuplicates(candidates)
        invariant forall n :: n in candidates <==> n in order[..i] && n != src
      {
        var name := order[i];
        assert order[..i + 1] == order[..i] + [name];
        if name != src {
          forall k | 0 <= k < |candidates| ensures candidates[k] != name {
            assert candidates[k] in order[..i];
          }
          candidates := candidates + [name];
        }
      }
      assert order[..|order|] == order;
      if |candidates| == 0 {
        assert services.Keys == {src};
        return Failure(NoOtherServices);
      }
      assert candidates[0] in services.Keys;
      r := Success(candidates);
    }

    /** dep list [name]: the views, built in the command's two passes over the services. */
    method ListDependencies(order: seq<string>, filter: Option<string>) returns (r: Result<seq<ServiceDependencyView>, CommandError>)
      requires IsEnumeration(order, services)
      ensures r == Listing(services, order, filter)
    {
      if |services| == 0 {
        return Failure(NoServices);
      }
      var views := BuildViews(services, order);
      if filter.Some? {
        if filter.value !in views {
          return Failure(ServiceNotFound(filter.value));
        }
        var result := SortAllLists([views[filter.value]]);
        assert result == [ViewOf(services, order, filter.value)];
        r := Success(result);
      } else {
        var result := CollectViews(services, order, views);
        result := SortBy(result, ViewName);
        result := SortAllLists(result);
        SortByMap(RawViews(services, order), ViewName, SortLists);
        r := Success(result);
      }
    }
  }

  /** The views of the map in map order. */
  method CollectViews(services: Services, order: seq<string>, views: map<string, ServiceDependencyView>)
    returns (result: seq<ServiceDependencyView>)
    requires IsEnumeration(order, services)
    requires views.Keys == services.Keys
    requires forall n :: n in views ==> views[n] == RawView(services, order, n)
    ensures result == RawViews(services, order)
  {
    result := [];
    for k := 0 to |order|
      invariant result == RawViews(services, order)[..k]
    {
      result := result + [views[order[k]]];
    }
    assert RawViews(services, order)[..|order|] == RawViews(services, order);
  }

  /** The second loop of dep list: both lists of every view sorted. */
  method SortAllLists(views: seq<ServiceDependencyView>) returns (r: seq<ServiceDependencyView>)
    ensures r == Map(SortLists, views)
  {
    r := views;
    for k := 0 to |r|
      invariant |r| == |views|
      invariant forall j :: 0 <= j < k ==> r[j] == SortLists(views[j])
      invariant forall j :: k <= j < |r| ==> r[j] == views[j]
    {
      r := r[k := r[k].(dependsOn := SortBy(r[k].dependsOn, Identity), requiredBy := SortBy(r[k].requiredBy, Identity))];
    }
  }

  /** The first pass of dep list: a view per service, holding its list and the services listing
      it. */
  method BuildViews(services: Services, order: seq<string>) returns (views: map<string, ServiceDependencyView>)
    requires IsEnumeration(order, services)
    ensures views.Keys == services.Keys
    ensures forall n :: n in views ==> views[n] == RawView(services, order, n)
  {
    views := InitialViews(services, order);
    var i := 0;
    while i < |order|
      invariant 0 <= i <= |order|
      invariant views.Keys == services.Keys
      invariant forall n :: n in views ==> views[n] == RawView(services, order[..i], n)
    {
      views := NextService(services, order, i, views);
      i := i + 1;
    }
    assert order[..i] == order;
  }

  /** The step of the first pass for the i-th service of the order. */
  method NextService(services: Services, order: seq<string>, i: int, views: map<string, ServiceDependencyView>)
    returns (views': map<string, ServiceDependencyView>)
    requires IsEnumeration(order, services) && 0 <= i < |order|
    requires views.Keys == services.Keys
    requires forall n :: n in views ==> views[n] == RawView(services, order[..i], n)
    ensures views'.Keys == services.Keys
    ensures forall n :: n in views' ==> views'[n] == RawView(services, order[..i + 1], n)
  {
    var name := order[i];
    forall k | 0 <= k < i ensures order[..i][k] != name {
      assert order[..i][k] == order[k];
    }
    views' := AddService(services, order[..i], views, name);
    assert order[..i + 1] == order[..i] + [name];
  }

  /** A view while name's entries are being gone through: name is done as far as its own list goes,
      and has been added to the required-by lists of the services among part. */
  function PartialView(services: Services, done: seq<string>, name: string, part: seq<string>, n: string): ServiceDependencyView {
    ServiceDependencyView(n, if n in done || n == name then DependsOn(services, n) else [],
                          RequiredBy(services, done, n) + Repeat(name, Count(part, n)))
  }

  predicate PartialViews(services: Services, done: seq<string>, name: string, part: seq<string>, views: map<string, ServiceDependencyView>) {
    forall n :: n in views ==> views[n] == PartialView(services, done, name, part, n)
  }

  /** Adding name to the required-by list of deps[j] (when it has a view) accounts for one more
      entry. */
  lemma RequiredStep(services: Services, done: seq<string>, name: string, deps: seq<string>, j: int,
                     views: map<string, ServiceDependencyView>)
    requires 0 <= j < |deps|
    requires PartialViews(services, done, name, deps[..j], views)
    ensures deps[j] in views ==>
              PartialViews(services, done, name, deps[..j + 1], views[deps[j] := views[deps[j]].(requiredBy := views[deps[j]].requiredBy + [name])])
    ensures deps[j] !in views ==> PartialViews(services, done, name, deps[..j + 1], views)
  {
    var d := deps[j];
    var part, part' := deps[..j], deps[..j + 1];
    assert part'[..j] == part && part'[j] == d;
    if d in views {
      var views' := views[d := views[d].(requiredBy := views[d].requiredBy + [name])];
      forall n | n in views' ensures views'[n] == PartialView(services, done, name, part', n) {
        if n == d {
          assert Count(part', d) == Count(part, d) + 1;
          assert Repeat(name, Count(part, d) + 1) == Repeat(name, Count(part, d)) + [name];
        } else {
          assert Count(part', n) == Count(part, n);
        }
      }
    } else {
      forall n | n in views ensures views[n] == PartialView(services, done, name, part', n) {
        assert n != d && Count(part', n) == Count(part, n);
      }
    }
  }

  /** Starting on name: its view gets its list, and no entry is accounted for yet. */
  lemma StartService(services: Services, done: seq<string>, name: string, views: map<string, ServiceDependencyView>)
    requires name !in done && name in views
    requires forall n :: n in views ==> views[n] == RawView(services, done, n)
    ensures PartialViews(services, done, name, [], views[name := views[name].(dependsOn := DependsOn(services, name))])
    ensures DependsOn(services, name) == [] ==> PartialViews(services, done, name, [], views)
  {
    assert Repeat(name, 0) == [];
    forall n | n in views ensures RequiredBy(services, done, n) + Repeat(name, Count([], n)) == RequiredBy(services, done, n) {
    }
  }

  /** Once every entry of name's list is accounted for, the views are those after done + [name]. */
  lemma ServiceDone(services: Services, done: seq<string>, name: string, views: map<string, ServiceDependencyView>)
    requires PartialViews(services, done, name, DependsOn(services, name), views)
    ensures forall n :: n in views ==> views[n] == RawView(services, done + [name], n)
  {
    assert (done + [name])[..|done|] == done;
    forall n | n in views ensures views[n] == RawView(services, done + [name], n) {
      assert RequiredBy(services, done + [name], n)
             == RequiredBy(services, done, n) + Repeat(name, Count(DependsOn(services, name), n));
    }
  }

  /** The services of done + [name] lead to the views of done + [name]: with name done, its list is
      set and each service among its entries gets name once more in its required-by list. */
  method AddService(services: Services, done: seq<string>, views: map<string, ServiceDependencyView>, name: string)
    returns (views': map<string, ServiceDependencyView>)
    requires name !in done
    requires forall n :: n in views ==> views[n] == RawView(services, done, n)
    requires name in views
    ensures views'.Keys == views.Keys
    ensures forall n :: n in views' ==> views'[n] == RawView(services, done + [name], n)
  {
    views' := views;
    var deps := DependsOn(services, name);
    if name in services && services[name].Some? && |deps| > 0 {
      StartService(services, done, name, views');
      views' := views'[name := views'[name].(dependsOn := deps)];
      assert deps[..0] == [];
      for j := 0 to |deps|
        invariant views'.Keys == views.Keys
        invariant PartialViews(services, done, name, deps[..j], views')
      {
        var d := deps[j];
        RequiredStep(services, done, name, deps, j, views');
        if d in views' {
          views' := views'[d := views'[d].(requiredBy := views'[d].requiredBy + [name])];
        }
      }
      assert deps[..|deps|] == deps;
    } else {
      StartService(services, done, name, views');
    }
    ServiceDone(services, done, name, views');
  }

  method InitialViews(services: Services, order: seq<string>) returns (views: map<string, ServiceDependencyView>)
    requires IsEnumeration(order, services)
    ensures views.Keys == services.Keys
    ensures forall n :: n in views ==> views[n] == RawView(services, [], n)
  {
    views := map[];
    for i := 0 to |order|
      invariant forall n :: n in views <==> n in order[..i]
      invariant forall n :: n in views ==> views[n] == ServiceDependencyView(n, [], [])
    {
      assert order[..i + 1] == order[..i] + [order[i]];
      views := views[order[i] := ServiceDependencyView(order[i], [], [])];
    }
    assert order[..|order|] == order;
  }
}
