# Service dependencies of azd, in Dafny

This project models the service-dependency subsystem of the Azure Developer CLI (azd). Each service
in a project's `azure.yaml` can carry a `dependsOn` list naming other services. The model covers:

- **Validation and graph logic** of the `project` package:
  - `ValidateServiceDependencies` reports every list entry that names no service;
  - `DetectCyclicDependencies` runs a depth-first search with `visited` and `path` flags and an
    explicit stack, reporting at most one cycle per search root;
  - `BuildDependencyGraph` builds the adjacency map.
- **The dependency handlers**: the Bicep and Terraform `FormatDependsOnExpression` formatters and
  `GetDependencyHandlerForProvider`, which selects a handler by a case-insensitive provider key.
- **The prefixed builders** `BuildBicepDependsOn` and `BuildTerraformDependsOn` of the Bicep and
  Terraform provisioning packages.
- **The edge rules of the commands** `azd dep add`, `azd dep remove`, `azd dep list` and
  `azd gen deps`. These rules are taken out of the loading, prompting and saving around them.

## Structure

| file | module | what it holds |
|---|---|---|
| `wrappers.dfy` | `Wrappers` | `Option` and `Result` |
| `sequences.dfy` | `Sequences` | distinctness, first index, counting, repetition |
| `text.dfy` | `Text` | `strings.Join` and ASCII `strings.ToLower` |
| `sorting.dfy` | `Sorting` | a reference sort by key: sorted, a permutation, commutes with key-preserving maps |
| `service_dependencies.dfy` | `ServiceDependencies` | the services map, validation, the dependency graph |
| `dependency_cycles.dfy` | `DependencyCycles` | the search as a specification function, the `CycleDetector` class, soundness |
| `dependency_handlers.dfy` | `DependencyHandlers` | the two handlers' formatters and handler selection |
| `bicep_provisioning.dfy` | `BicepProvisioning` | the two prefixed builders of the Bicep package |
| `terraform_provisioning.dfy` | `TerraformProvisioning` | the prefixed builder of the Terraform package |
| `dep_commands.dfy` | `DependencyCommands` | the `Project` class with the add, remove, gen, candidate and list operations |
| `dep_scenarios.dfy` | `DependencyScenarios` | the command sequence of the dep commands' test, followed on api's list |

## Modelling choices

**The services map.** A project's services are a `map<string, Option<seq<string>>>`.
- `None` is Go's nil `DependsOn` slice; `Some([])` is an explicit empty list.
- The two must differ: `BuildDependencyGraph` turns both into an explicit empty list, and
  `dep remove` resets an emptied list to nil.
- `DependsOn(services, n)` reads both, and an unknown name, as `[]`.

**Iteration order.** Go's map iteration order is unspecified. Every operation that iterates over the
services takes an explicit `order` with `IsEnumeration(order, services)`: every service exactly once.
- Validation is also proved independent of that order, up to the order of the issues
  (`IssuesOrderIndependent`).
- The validation test cases are proved for every order.

**The search.** Go's recursive `dfs` closure mutates state shared through the closure. It is modelled
twice:
- as the specification functions `Visit`/`VisitDeps`, over a `DfsState(visited, path, cycles)`;
- as the class `CycleDetector`, whose fields are that state and whose recursive method `Dfs` is proved
  equal to `Visit`.

The `visited` and `path` maps of booleans are sets of the names mapped to `true`. The search
terminates because the unvisited part of `Universe` (service names plus every listed name) shrinks.

**The commands.** `Project` holds the loaded services and a `saved` flag standing for
`project.Save`. Its methods are the rule parts of the commands' `Run` methods:
- a command-line name or a prompted name is simply an argument;
- the answer to the confirmation prompt is the `confirmed` parameter;
- errors are `Result` values carrying a `CommandError` whose `ErrorMessage` is the code's text.

**Sorting.** `sort.Strings` and `sort.Slice` by service name are library calls. They are modelled by
the reference sort `Sorting.SortBy`, with its sortedness and permutation lemmas.
- For strings, every sorting algorithm gives the same result.
- Service names in a listing are distinct keys, so the views' order is determined as well.

**The issue text.** Validation's issue message names `azure.yaml`, exactly as the code formats it.

## Model

| member | source | states |
|---|---|---|
| `ServiceDependencies.ValidateServiceDependencies` | cli/azd/pkg/project/service_dependencies.go:14-44 | The issues are the messages for the dangling entries of each service, in map order. There are none when there are no services. There are none exactly when every entry of every list names a service. |
| `ServiceDependencies.AvailableServices` | cli/azd/pkg/project/service_dependencies.go:21-25 | The set built is exactly the set of service names. |
| `ServiceDependencies.MissingDependencies` | cli/azd/pkg/project/service_dependencies.go:33-40 | A service's list yields one message per entry that is not a service, in list order. |
| `ServiceDependencies.IssueMessage` | cli/azd/pkg/project/service_dependencies.go:37-38 | Definition, no contract of its own: the issue text `Service 'S' depends on 'D', but this service doesn't exist in azure.yaml`. `IssuesMembership` states which of these texts are issues. |
| `ServiceDependencies.Dangling` | cli/azd/pkg/project/service_dependencies.go:33-35 | Definition, no contract of its own: the entries of a list that are not services, in list order, duplicates kept. `DanglingCount` and `DanglingEmptyIff` state its properties. |
| `ServiceDependencies.Issues` | cli/azd/pkg/project/service_dependencies.go:28-41 | Definition, no contract of its own: the validation result for services visited in a given order, each service's messages after those of the services before it. `ValidateServiceDependencies` is proved to return it; `IssuesMembership`, `IssuesEmptyIff` and `IssuesOrderIndependent` state what it holds. |
| `ServiceDependencies.DanglingCount` | cli/azd/pkg/project/service_dependencies.go:33-40 | A name that is not a service is reported as often as it occurs in the list, duplicates counted. A service name is never reported. |
| `ServiceDependencies.DanglingEmptyIff` | cli/azd/pkg/project/service_dependencies.go:33-35 | A list yields no issue exactly when each of its entries names a service. |
| `ServiceDependencies.IssuesEmptyIff` | cli/azd/pkg/project/service_dependencies.go:28-43 | Validation is empty if and only if every dependency of every service exists. |
| `ServiceDependencies.IssuesMembership` | cli/azd/pkg/project/service_dependencies.go:28-41 | A message is an issue exactly when it is `Service 'S' depends on 'D', …` for a service S whose list holds a name D that is no service. |
| `ServiceDependencies.ServiceIssueCount` | cli/azd/pkg/project/service_dependencies.go:33-40 | For a missing name D, S's issues mention D once per occurrence of D in S's list, and S has one message per dangling entry. |
| `ServiceDependencies.IssuesAppend` | cli/azd/pkg/project/service_dependencies.go:28-41 | Validating two runs of services in sequence concatenates their issues. |
| `ServiceDependencies.IssuesOrderIndependent` | cli/azd/pkg/project/service_dependencies.go:28-41 | Any two enumerations of the same services give the same issues up to order, so map iteration order changes only the order of the issues. |
| `ServiceDependencies.EnumerationLength` | cli/azd/pkg/project/service_dependencies.go:95-99 | Ranging over the services map visits each service once, so an enumeration has exactly as many entries as there are services. |
| `ServiceDependencies.ValidDependenciesExample` | cli/azd/pkg/project/service_dependencies_test.go:23-37 | With web→api, api→db and db without a list, validation is empty in every map order. |
| `ServiceDependencies.OneInvalidInOrder` | cli/azd/pkg/project/service_dependencies_test.go:38-49 | For any distinct names shaped like the test's (web lists api and a missing x; api has no list), visiting api first gives exactly web's issue for x. |
| `ServiceDependencies.InvalidDependencyExample` | cli/azd/pkg/project/service_dependencies_test.go:38-49 | With web→[api, nonexistent], exactly one issue is reported in every map order: the one for `nonexistent`. |
| `ServiceDependencies.MultipleInvalidInOrder` | cli/azd/pkg/project/service_dependencies_test.go:50-63 | For any distinct names shaped like the test's (web lists api and a missing x1, api lists a missing x2), visiting api first gives api's issue and then web's. |
| `ServiceDependencies.MultipleInvalidDependenciesExample` | cli/azd/pkg/project/service_dependencies_test.go:50-63 | With one missing name in each of two lists, exactly those two issues are reported in every map order. |
| `ServiceDependencies.Graph` | cli/azd/pkg/project/service_dependencies.go:140-153 | The graph has exactly the service names as keys. |
| `ServiceDependencies.GraphEntries` | cli/azd/pkg/project/service_dependencies.go:143-150 | A nil list becomes an explicit empty list. A non-nil list is kept as it is. Either way the entry has the same members as the service's list. |
| `ServiceDependencies.BuildDependencyGraph` | cli/azd/pkg/project/service_dependencies.go:140-153 | The map built by the loop is `Graph`: one entry per service, with an empty list for nil or empty lists. |
| `DependencyCycles.Universe` | cli/azd/pkg/project/service_dependencies.go:63-66 | Every service name, and every name in a list, is a name the search can be called on. |
| `DependencyCycles.DependencyInUniverse` | cli/azd/pkg/project/service_dependencies.go:64-66 | Every listed dependency, including a dangling one, is a name the search can reach. |
| `DependencyCycles.Visit` | cli/azd/pkg/project/service_dependencies.go:55-60 | A call marks current visited and only ever adds to the visited names. It adds exactly one report when it returns true and none otherwise, keeping the earlier reports. |
| `DependencyCycles.VisitDeps` | cli/azd/pkg/project/service_dependencies.go:63-90 | The loop over current's list keeps the earlier reports, only adds visited names, and adds one report exactly when it returns true. |
| `DependencyCycles.DetectFrom` | cli/azd/pkg/project/service_dependencies.go:95-100 | After the outer loop every service is visited, and there is at most one report per root. |
| `DependencyCycles.CycleReport` | cli/azd/pkg/project/service_dependencies.go:80-82 | Definition, no contract of its own: `Cyclic dependency detected: ` followed by the cycle's names joined by ` -> `. `VisitSound` and `DetectSound` state that every report is of this form for a real cycle. |
| `DependencyCycles.CycleFromStack` | cli/azd/pkg/project/service_dependencies.go:69-84 | The slice of the stack from the first occurrence of dep, followed by dep, is a simple cycle of the graph: it starts and ends at dep, each consecutive pair is a dependsOn edge, and no name repeats. Its report is the `Cyclic dependency detected: ` text joined with ` -> `. |
| `DependencyCycles.PushKeepsInvariant` | cli/azd/pkg/project/service_dependencies.go:56-60 | Pushing an unvisited name reached by an edge keeps the stack a walk of distinct visited names. |
| `DependencyCycles.VisitSound` | cli/azd/pkg/project/service_dependencies.go:55-93 | Every report a call adds is the report of a real simple cycle. |
| `DependencyCycles.VisitDepsSound` | cli/azd/pkg/project/service_dependencies.go:63-90 | Every report added while walking a list describes a real simple cycle. The case of a stale path flag is `StalePathNotReported`. |
| `DependencyCycles.DetectSound` | cli/azd/pkg/project/service_dependencies.go:95-102 | Every report of the whole detection is the report of a real simple cycle. |
| `DependencyCycles.DetectAcyclic` | cli/azd/pkg/project/service_dependencies.go:95-102 | A graph without a closed walk yields no report. |
| `DependencyCycles.CycleDetector.constructor` | cli/azd/pkg/project/service_dependencies.go:49-51 | The detector starts with nothing visited, nothing on the path and no report. |
| `DependencyCycles.CycleDetector.Dfs` | cli/azd/pkg/project/service_dependencies.go:55-93 | The recursive method computes exactly what `Visit` specifies: its result and the new visited, path and cycle state. |
| `DependencyCycles.DetectCyclicDependencies` | cli/azd/pkg/project/service_dependencies.go:48-103 | The reports are those of `DetectFrom` in map order. Each describes a real simple cycle. There are at most as many reports as services, and none for an acyclic graph. |
| `DependencyCycles.SelfLoopReported` | cli/azd/pkg/project/service_dependencies.go:56-84 | A service that lists itself is reported as `Cyclic dependency detected: A -> A`. |
| `DependencyCycles.MutualPairFromSecond` | cli/azd/pkg/project/service_dependencies.go:63-84 | For any two services x and y that list only each other, reaching y from x reports `x -> y -> x`, marks y visited and on the path, and returns true. |
| `DependencyCycles.MutualPairFromFirst` | cli/azd/pkg/project/service_dependencies.go:55-84 | A search from x, in such a pair, reports `x -> y -> x` once and returns true, with both services visited. |
| `DependencyCycles.MutualPairDetected` | cli/azd/pkg/project/service_dependencies.go:95-100 | Running the outer loop over x then y reports the cycle once: the search from y is skipped since y is visited by then. |
| `DependencyCycles.TwoEnumerations` | cli/azd/pkg/project/service_dependencies.go:95 | The map of two services can be ranged over in exactly two orders. |
| `DependencyCycles.TwoCycleReported` | cli/azd/pkg/project/service_dependencies.go:95-100 | For the pair A↔B, in every map order, the whole detection gives exactly one report: `A -> B -> A` when A comes first, `B -> A -> B` when B comes first. |
| `DependencyCycles.StalePathNotReported` | cli/azd/pkg/project/service_dependencies.go:69-84 | With A↔B and C→A, the search from C meets A, which is still flagged on the path, but the stack lookup fails, so only the one report from A remains. |
| `DependencyHandlers.Expression` | cli/azd/pkg/project/dependency_handlers.go:52-64 | No items give the empty text; otherwise the header, the items joined by `, `, and `]`. Its contract states the empty case; `FormatSingle`, `FormatSnoc` and `FormatShape` state the rest. |
| `DependencyHandlers.Items` | cli/azd/pkg/project/dependency_handlers.go:57-61 | There is one reference per dependency, in order: `resource_X.id` for Bicep and `module.X` for Terraform. |
| `DependencyHandlers.FormatDependsOnExpression` | cli/azd/pkg/project/dependency_handlers.go:52-64 | The expression is empty exactly when there are no dependencies, for both handlers. |
| `DependencyHandlers.FormatSingle` | cli/azd/pkg/project/dependency_handlers.go:57-63 | One dependency gives the header, its reference and the closing bracket. |
| `DependencyHandlers.FormatSnoc` | cli/azd/pkg/project/dependency_handlers.go:57-63 | Appending a dependency appends `, ` and its reference before the bracket. By induction with `FormatSingle`, the references appear in order, one per entry. |
| `DependencyHandlers.FormatShape` | cli/azd/pkg/project/dependency_handlers.go:96-108 | A non-empty list gives an expression that starts with `dependsOn: [` or `depends_on = [` and ends with `]`. |
| `DependencyHandlers.FormatIgnoresService` | cli/azd/pkg/project/dependency_handlers.go:52-64 | The expression does not depend on the service argument. |
| `DependencyHandlers.BicepExamples` | cli/azd/pkg/project/service_dependencies_test.go:86-102 | The Bicep test outputs: `""`, `dependsOn: [resource_api.id]` and `dependsOn: [resource_api.id, resource_db.id]`. |
| `DependencyHandlers.TerraformExamples` | cli/azd/pkg/project/service_dependencies_test.go:125-141 | The Terraform test outputs: `""`, `depends_on = [module.api]` and `depends_on = [module.api, module.db]`. |
| `DependencyHandlers.HandlerForProvider` | cli/azd/pkg/project/dependency_handlers.go:111-122 | Terraform is selected exactly when the lowercased key is `terraform`. Every other key, including `bicep` and `""`, selects Bicep. |
| `DependencyHandlers.HandlerIgnoresCase` | cli/azd/pkg/project/dependency_handlers.go:112 | Two keys that differ only in letter case select the same handler. |
| `DependencyHandlers.BicepKeys` | cli/azd/pkg/project/service_dependencies_test.go:160-179 | `bicep`, `""` and `unknown` select Bicep. |
| `DependencyHandlers.TerraformKeys` | cli/azd/pkg/project/dependency_handlers.go:112-114 | `terraform` and `TERRAFORM` select Terraform. |
| `Text.ToLower` | cli/azd/pkg/project/dependency_handlers.go:112 | Lowercasing keeps the length and lowercases each character on its own, changing only `A`-`Z`. |
| `Text.ToLowerIdempotent` | cli/azd/pkg/project/dependency_handlers.go:112 | Lowercasing twice is lowercasing once. |
| `Text.ToLowerEqualIff` | cli/azd/pkg/project/dependency_handlers.go:112 | Two keys lowercase to the same text exactly when they agree character by character ignoring case. |
| `Text.Join` | cli/azd/pkg/project/dependency_handlers.go:63 | `strings.Join`: no parts give the empty text and one part gives that part. `JoinSnoc` states that each further part comes after the separator. |
| `Text.JoinSnoc` | cli/azd/pkg/project/dependency_handlers.go:63 | Joining a list with one more element appends the separator and that element. |
| `BicepProvisioning.BicepExpression` | cli/azd/pkg/infra/provisioning/bicep/service_dependencies.go:54-66 | The Bicep array is empty exactly when there are no dependencies. |
| `BicepProvisioning.TerraformExpression` | cli/azd/pkg/infra/provisioning/bicep/service_dependencies.go:69-81 | The Terraform expression is empty exactly when there are no dependencies. |
| `BicepProvisioning.BicepItems` | cli/azd/pkg/infra/provisioning/bicep/service_dependencies.go:59-63 | There is one `prefix_X.id` item per dependency, in order. |
| `BicepProvisioning.TerraformItems` | cli/azd/pkg/infra/provisioning/bicep/service_dependencies.go:74-78 | There is one `module.prefix_X` item per dependency, in order. |
| `BicepProvisioning.BuildBicepDependsOn` | cli/azd/pkg/infra/provisioning/bicep/service_dependencies.go:54-66 | The append loop and join compute `BicepExpression`. |
| `BicepProvisioning.BuildTerraformDependsOn` | cli/azd/pkg/infra/provisioning/bicep/service_dependencies.go:69-81 | The append loop and join compute `TerraformExpression`. |
| `BicepProvisioning.ResourcePrefixMatchesHandler` | cli/azd/pkg/infra/provisioning/bicep/service_dependencies.go:62 | With prefix `resource`, the builder's output equals the project Bicep handler's expression for every list and service. |
| `BicepProvisioning.BicepSnoc` | cli/azd/pkg/infra/provisioning/bicep/service_dependencies.go:59-65 | One more dependency appends one more item before the bracket. |
| `BicepProvisioning.TerraformSnoc` | cli/azd/pkg/infra/provisioning/bicep/service_dependencies.go:74-80 | One more dependency appends one more item before the bracket. |
| `BicepProvisioning.DuplicatesKept` | cli/azd/pkg/infra/provisioning/bicep/service_dependencies.go:59-62 | A repeated dependency is referenced twice by both builders. |
| `TerraformProvisioning.BuildTerraformDependsOn` | cli/azd/pkg/infra/provisioning/terraform/service_dependencies.go:54-66 | For every list and prefix, the output equals that of the Bicep package's builder of the same name. |
| `Sequences.IndexOf` | cli/azd/cmd/dep.go:680-686 | The result is -1 exactly when the name is absent; otherwise it is the index of its first occurrence. |
| `Sequences.FindIndex` | cli/azd/cmd/dep.go:680-686 | The search loop computes `IndexOf`. |
| `Sorting.SortBy` | cli/azd/cmd/dep.go:501-510 | The sorted list is a permutation of its input: the same elements, each as often. |
| `Sorting.SortBySorted` | cli/azd/cmd/dep.go:501-510 | The sorted list is ordered by the key. |
| `Sorting.SortByMap` | cli/azd/cmd/dep.go:501-510 | Sorting the views by name and then sorting their inner lists equals doing it the other way round, because the inner sort keeps the name. |
| `DependencyCommands.ErrorMessage` | cli/azd/cmd/dep.go:274-689 | Definition, no contract of its own: the text of each error, as `dep add`, `dep remove` and `gen deps` word it (for example `service '<src>' already depends on '<dest>'. Use --force to overwrite`). |
| `DependencyCommands.CreatedMessage` | cli/azd/cmd/dep.go:372-376 | Definition, no contract of its own: `Dependency created: '<src>' now depends on '<dest>'`, the header of `dep add` and of `gen deps` (cli/azd/cmd/gen.go:262-266). |
| `DependencyCommands.RemovedMessage` | cli/azd/cmd/dep.go:725-729 | Definition, no contract of its own: `Dependency removed: '<src>' no longer depends on '<dest>'`, the header of `dep remove`. |
| `DependencyCommands.AddError` | cli/azd/cmd/dep.go:330-347 | An add proceeds exactly when there are services, both endpoints are services, and the edge is new or forced. Otherwise it fails with the first failing check's error. |
| `DependencyCommands.WithEdge` | cli/azd/cmd/dep.go:349-364 | After an add, the target is in the list. |
| `DependencyCommands.WithEdgeEntries` | cli/azd/cmd/dep.go:349-364 | An add keeps the old entries in order and appends the target exactly when it was missing, treating nil as the empty list. |
| `DependencyCommands.WithEdgeNoDuplicates` | cli/azd/cmd/dep.go:353-363 | An add never creates a duplicate entry. |
| `DependencyCommands.WithEdgeIdempotent` | cli/azd/cmd/dep.go:345-363 | A forced second add of the same edge changes nothing. |
| `DependencyCommands.WithoutFirst` | cli/azd/cmd/dep.go:709-715 | Definition, no contract of its own: the list with its first `dest` cut out, and nil when nothing is left. `WithoutFirstEntries` states what it keeps and removes, and `AddThenRemove` that it undoes an add. |
| `DependencyCommands.RemoveError` | cli/azd/cmd/dep.go:668-690 | A remove proceeds exactly when there are services, the source is a service and its list holds the target. Otherwise no services, not found, no dependencies and does not depend on are distinct errors. |
| `DependencyCommands.WithoutFirstEntries` | cli/azd/cmd/dep.go:680-716 | A remove cuts out exactly the first occurrence and keeps the rest in order, taking one copy out of the multiset. The result is nil exactly when the list was just the target, and never an empty non-nil list. |
| `DependencyCommands.AddThenRemove` | cli/azd/cmd/dep.go:711-716 | Removing an edge just added restores the list, with an empty list coming back as nil. |
| `DependencyCommands.RequiredByCount` | cli/azd/cmd/dep.go:474-479 | B's required-by list holds each service A once per occurrence of B in A's list, and no other name. |
| `DependencyCommands.SortLists` | cli/azd/cmd/dep.go:507-511 | Sorting a view's lists keeps its service name. |
| `DependencyCommands.RawViews` | cli/azd/cmd/dep.go:495-498 | There is one view per service, in map order. |
| `DependencyCommands.ViewOfProperties` | cli/azd/cmd/dep.go:456-511 | A view has its service's name and its own list sorted, as a permutation. Its required-by list is sorted and holds A once per occurrence of the service in A's list. |
| `DependencyCommands.FullListing` | cli/azd/cmd/dep.go:494-504 | The unfiltered listing is sorted by name. It holds exactly the services' views, one per service, so its length is the number of services. |
| `DependencyCommands.Listing` | cli/azd/cmd/dep.go:451-511 | Definition, no contract of its own: what `dep list` shows, every view sorted by name or the one view asked for, or the error. `ListingProperties` and `FullListing` state its properties, and `Project.ListDependencies` is proved to compute it. |
| `DependencyCommands.ListingProperties` | cli/azd/cmd/dep.go:451-511 | A listing fails exactly when there are no services or the filter names no service. Otherwise it is sorted by name and every view has the properties of `ViewOfProperties`. An unfiltered listing has a view for every service and as many views as services; a filtered one is exactly the requested service's view. |
| `DependencyCommands.Project.constructor` | cli/azd/cmd/dep.go:266-270 | The project holds the loaded services and is not yet saved. |
| `DependencyCommands.Project.AddDependency` | cli/azd/cmd/dep.go:330-378 | On failure the project is unchanged and unsaved. On success only the source's list changes, to `WithEdge` of it, the project is saved, and the created message is returned. |
| `DependencyCommands.Project.RemoveDependency` | cli/azd/cmd/dep.go:668-731 | On failure nothing changes. A declined confirmation without force returns the cancelled message and changes nothing. Otherwise the first occurrence is removed, nil when emptied, the project is saved, and the removed message is returned. |
| `DependencyCommands.Project.GenDependency` | cli/azd/cmd/gen.go:222-273 | `gen deps` follows the rules of `dep add`. Its result carries the header `CreatedMessage(src, dest)`, the text `Dependency created: '<src>' now depends on '<dest>'`, and data holding the source, the target and the source's resulting list. |
| `DependencyCommands.Project.PossibleDependencies` | cli/azd/cmd/gen.go:195-210 | The candidates are every service except the source, without duplicates. It fails with no services, not found, or no other services exactly in those cases. |
| `DependencyCommands.Project.ListDependencies` | cli/azd/cmd/dep.go:451-511 | The two loops, the filter and the sorts compute `Listing`. |
| `DependencyCommands.BuildViews` | cli/azd/cmd/dep.go:456-481 | The first pass gives each service its list and its unsorted required-by services. |
| `DependencyCommands.InitialViews` | cli/azd/cmd/dep.go:459-466 | Every service starts with a view with empty lists. |
| `DependencyCommands.AddService` | cli/azd/cmd/dep.go:469-481 | Handling one service sets its list and adds it to the required-by list of each service among its entries. Dangling names are skipped. |
| `DependencyCommands.CollectViews` | cli/azd/cmd/dep.go:495-498 | Copying the views out of the map, in map order, gives `RawViews`. |
| `DependencyCommands.SortAllLists` | cli/azd/cmd/dep.go:507-511 | The sorting loop sorts both lists of every view. |
| `DependencyScenarios.DepAddSteps` | cli/azd/cmd/dep_test.go:43-76 | Adding database, adding it again with force, then adding web leaves api's list `[database, web]`. |
| `DependencyScenarios.DepListReAddRefused` | cli/azd/cmd/dep_test.go:80-83 | After those adds, adding api→database again without force is refused with the "already depends on" error. |
| `DependencyScenarios.DepListReAddForced` | cli/azd/cmd/dep_test.go:80-83 | With force the same add is accepted and leaves api's list as it was. |
| `DependencyScenarios.DepRemoveSteps` | cli/azd/cmd/dep_test.go:103-137 | The two forced adds change nothing, and removing database leaves `[web]`. |
| `DependencyScenarios.DepRemoveAllAsWritten` | cli/azd/cmd/dep_test.go:139-161 | From `[web]`, the forced add of database appends it, the forced add of web changes nothing, and removing web leaves `[database]`, a non-empty list. |
| `DependencyScenarios.DepRemoveAllIntended` | cli/azd/cmd/dep_test.go:151-161 | Removing both remaining entries, database and then web, leaves api with no list, so its entries are empty. |
## Left out

- Loading and saving `azure.yaml`, and the errors of these steps, are not modelled; `saved` stands for a successful save.
- The console and its failures are not modelled:
  - the `Select` prompts and the `Confirm` prompt are reduced to the names they return and the `confirmed` parameter;
  - a success message is returned in the result and not printed;
  - a prompt failure is not modelled.
- The prompted paths of `dep add`, `dep remove` and `gen deps` repeat checks that the final checks repeat again. They are not modelled separately. One exception: the candidate targets offered at the prompt are `Project.PossibleDependencies`.
- `dep list` takes a service name only when it gets exactly one argument. The model's `filter` stands for that case, and `None` for any other argument count.
- The table and JSON output of `dep list` is not modelled: Dafny has no text templates, and only the views themselves carry behaviour.
- Cobra command registration, help text and flag binding are not modelled; they carry no behaviour.
- `release.go` of the extensions tooling is not modelled; it is process and file I/O.
- The log-only functions are not modelled, since they return nothing:
  - `LogServiceDependencies`;
  - both handlers' `ProcessDependencies`;
  - `ProcessDependenciesForProvider`;
  - the provisioning packages' `ProcessServiceDependencies…` functions;
  - the "unknown provider" log line.
- Go slice aliasing is not modelled; lists have value semantics. In the code, `dep list` sorts the project's own `DependsOn` slice in place, and the remove splice reuses the backing array. Neither is visible in the modelled results.
- Go's sort algorithm: `Sorting.SortBy` is an insertion sort, with the same result for strings and for views with distinct names.
- `Text.ToLower` lowercases ASCII letters only. Go's `strings.ToLower` also maps a few non-ASCII runes to ASCII letters (U+0130 'İ' to 'i', U+212A KELVIN SIGN to 'k'), so a key such as `bİcep` lowercases to `bicep` in Go but not in the model. Neither letter occurs in `terraform`, so `HandlerForProvider` selects Terraform for exactly the same keys as the code. Every other key selects Bicep in both, because the `bicep` case and the fallback choose the same handler (cli/azd/pkg/project/dependency_handlers.go:111-122).
- `DependencyCycles.DetectCyclicDependencies`: only soundness is proved (every report is a real cycle, and no report for an acyclic graph). Completeness ("a cyclic graph yields a report") is shown on examples only.
- `DependencyCommands.Project.PossibleDependencies`: the candidates are stated as a set without duplicates, not in the exact map order.
- `DependencyHandlers.Expression`: its own contract states only the empty case; the non-empty shape is in `FormatSnoc`, `FormatSingle` and `FormatShape`.

## Findings

The model follows the commands as coded. The dep commands' test disagrees with that code in two places.

| source | as written | input that shows it | evidently intended | confidence | as-written member | corrected member |
|---|---|---|---|---|---|---|
| cli/azd/cmd/dep_test.go:139-161 | `DepRemoveAll` expects api's list to be empty after `dep remove api web --force`. | api holds `[web]` after `DepRemove`. `dep add api database --force` appends database, since it is not there; `dep add api web --force` changes nothing; removing web leaves `[database]`. | Removing every remaining dependency (database and web) leaves api with no list. | not executed | `DependencyScenarios.DepRemoveAllAsWritten` | `DependencyScenarios.DepRemoveAllIntended` |
| cli/azd/cmd/dep_test.go:80-83 | `DepList` re-adds api→database without `--force` and requires no error. | api holds `[database, web]` after `DepAdd`; `dep add api database` without force fails with "service 'api' already depends on 'database'". | The add forced (as in `DepRemove`), which is accepted and leaves the list as it is. | not executed | `DependencyScenarios.DepListReAddRefused` | `DependencyScenarios.DepListReAddForced` |
