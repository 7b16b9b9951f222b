// The dependsOn builders of the Bicep provisioning package, which put a caller-given prefix in front
// of every dependency name.

module BicepProvisioning {
  import Text
  import DependencyHandlers

  /** "<prefix>_<dep>.id": the Bicep reference to a prefixed resource. */
  function BicepItem(prefix: string, dep: string): string {
    prefix + "_" + dep + ".id"
  }

  /** "module.<prefix>_<dep>": the Terraform reference to a prefixed module. */
  function TerraformItem(prefix: string, dep: string): string {
    "module." + prefix + "_" + dep
  }

  function BicepItems(prefix: string, deps: seq<string>): (r: seq<string>)
    ensures |r| == |deps|
    ensures forall k :: 0 <= k < |deps| ==> r[k] == BicepItem(prefix, deps[k])
  {
    seq(|deps|, k requires 0 <= k < |deps| => BicepItem(prefix, deps[k]))
  }

  function TerraformItems(prefix: string, deps: seq<string>): (r: seq<string>)
    ensures |r| == |deps|
    ensures forall k :: 0 <= k < |deps| ==> r[k] == TerraformItem(prefix, deps[k])
  {
    seq(|deps|, k requires 0 <= k < |deps| => TerraformItem(prefix, deps[k]))
  }

  /** The expression BuildBicepDependsOn promises: "" for no dependencies, otherwise
      "dependsOn: [" and the prefixed references joined by ", " and "]". */
  function BicepExpression(prefix: string, deps: seq<string>): (r: string)
    ensures r == "" <==> deps == []
  {
    DependencyHandlers.Expression("dependsOn: [", BicepItems(prefix, deps))
  }

  /** The expression BuildTerraformDependsOn promises: "" for no dependencies, otherwise
      "depends_on = [" and the prefixed module references joined by ", " and "]". */
  function TerraformExpression(prefix: string, deps: seq<string>): (r: string)
    ensures r == "" <==> deps == []
  {
    DependencyHandlers.Expression("depends_on = [", TerraformItems(prefix, deps))
  }

  /** BuildBicepDependsOn: one item per dependency, appended in order, then joined. */
  method BuildBicepDependsOn(deps: seq<string>, prefix: string) returns (r: string)
    ensures r == BicepExpression(prefix, deps)
  {
    if |deps| == 0 {
      return "";
    }
    var items: seq<string> := [];
    for i := 0 to |deps|
      invariant items == BicepItems(prefix, deps[..i])
    {
      items := items + [BicepItem(prefix, deps[i])];
    }
    assert deps[..|deps|] == deps;
    r := "dependsOn: [" + Text.Join(items, ", ") + "]";
  }

  /** BuildTerraformDependsOn of this package: the same loop with module references. */
  method BuildTerraformDependsOn(deps: seq<string>, prefix: string) returns (r: string)
    ensures r == TerraformExpression(prefix, deps)
  {
    if |deps| == 0 {
      return "";
    }
    var items: seq<string> := [];
    for i := 0 to |deps|
      invariant items == TerraformItems(prefix, deps[..i])
    {
      items := items + [TerraformItem(prefix, deps[i])];
    }
    assert deps[..|deps|] == deps;
    r := "depends_on = [" + Text.Join(items, ", ") + "]";
  }

  /** With the prefix "resource" the Bicep builder produces exactly the project Bicep handler's
      expression, for every list and every service. */
  lemma ResourcePrefixMatchesHandler(service: string, deps: seq<string>)
    ensures BicepExpression("resource", deps)
            == DependencyHandlers.FormatDependsOnExpression(DependencyHandlers.Bicep, service, deps)
  {
    forall k | 0 <= k < |deps|
      ensures BicepItem("resource", deps[k]) == DependencyHandlers.Item(DependencyHandlers.Bicep, deps[k])
    {
      assert "resource" + "_" == "resource_";
    }
    assert BicepItems("resource", deps) == DependencyHandlers.Items(DependencyHandlers.Bicep, deps);
  }

  /** Adding a dependency adds its reference at the end: one item per entry, in order, duplicates
      kept. */
  lemma BicepSnoc(prefix: string, deps: seq<string>, dep: string)
    requires deps != []
    ensures BicepExpression(prefix, deps + [dep])
            == "dependsOn: [" + Text.Join(BicepItems(prefix, deps), ", ") + ", " + BicepItem(prefix, dep) + "]"
  {
    assert BicepItems(prefix, deps + [dep]) == BicepItems(prefix, deps) + [BicepItem(prefix, dep)];
    Text.JoinSnoc(BicepItems(prefix, deps), BicepItem(prefix, dep), ", ");
  }

  lemma TerraformSnoc(prefix: string, deps: seq<string>, dep: string)
    requires deps != []
    ensures TerraformExpression(prefix, deps + [dep])
            == "depends_on = [" + Text.Join(TerraformItems(prefix, deps), ", ") + ", " + TerraformItem(prefix, dep) + "]"
  {
    assert TerraformItems(prefix, deps + [dep]) == TerraformItems(prefix, deps) + [TerraformItem(prefix, dep)];
    Text.JoinSnoc(TerraformItems(prefix, deps), TerraformItem(prefix, dep), ", ");
  }

  /** A repeated dependency is referenced twice. */
  lemma DuplicatesKept(prefix: string)
    ensures BicepExpression(prefix, ["db", "db"]) == "dependsOn: [" + BicepItem(prefix, "db") + ", " + BicepItem(prefix, "db") + "]"
    ensures TerraformExpression(prefix, ["db", "db"]) == "depends_on = [" + TerraformItem(prefix, "db") + ", " + TerraformItem(prefix, "db") + "]"
  {
    BicepSnoc(prefix, ["db"], "db");
    TerraformSnoc(prefix, ["db"], "db");
    assert ["db"] + ["db"] == ["db", "db"];
  }
}
