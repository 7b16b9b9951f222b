// The IaC dependency handlers: dependsOn expressions for Bicep and Terraform, and handler selection.

module DependencyHandlers {
  import Text

  /** The two handler types; neither carries state. */
  datatype Provider = Bicep | Terraform

  /** The separator between the items of an expression. */
  const ItemSeparator: string := ", "

  /** A bracketed, comma-separated list after header, or "" when there are no items. */
  function Expression(header: string, items: seq<string>): (r: string)
    ensures items == [] ==> r == ""
  {
    if items == [] then "" else header + Text.Join(items, ItemSeparator) + "]"
  }

  /** The opening of each provider's expression. */
  function Header(h: Provider): (r: string)
    ensures r != []
  {
    match h
    case Bicep => "dependsOn: ["
    case Terraform => "depends_on = ["
  }

  /** How each provider refers to one dependency. */
  function Item(h: Provider, dep: string): string {
    match h
    case Bicep => "resource_" + dep + ".id"
    case Terraform => "module." + dep
  }

  /** The references to the dependencies, one per entry, in order. */
  function Items(h: Provider, deps: seq<string>): (r: seq<string>)
    ensures |r| == |deps|
    ensures forall k :: 0 <= k < |deps| ==> r[k] == Item(h, deps[k])
  {
    seq(|deps|, k requires 0 <= k < |deps| => Item(h, deps[k]))
  }

  /** FormatDependsOnExpression of the handler h; the service argument plays no part. */
  function FormatDependsOnExpression(h: Provider, service: string, deps: seq<string>): (r: string)
    ensures r == "" <==> deps == []
  {
    Expression(Header(h), Items(h, deps))
  }

  /** One more dependency adds its reference at the end of the items. */
  lemma ItemsSnoc(h: Provider, deps: seq<string>, dep: string)
    ensures Items(h, deps + [dep]) == Items(h, deps) + [Item(h, dep)]
  {
    assert forall k :: 0 <= k < |deps| ==> (deps + [dep])[k] == deps[k];
  }

  /** Appending one dependency appends ", " and its reference before the closing bracket, so the
      expression lists one reference per entry, in order. */
  lemma FormatSnoc(h: Provider, service: string, deps: seq<string>, dep: string)
    requires deps != []
    ensures FormatDependsOnExpression(h, service, deps + [dep])
            == Header(h) + (Text.Join(Items(h, deps), ItemSeparator) + ItemSeparator + Item(h, dep)) + "]"
  {
    ItemsSnoc(h, deps, dep);
    Text.JoinSnoc(Items(h, deps), Item(h, dep), ItemSeparator);
  }

  /** The expression for a single dependency. */
  lemma FormatSingle(h: Provider, service: string, dep: string)
    ensures FormatDependsOnExpression(h, service, [dep]) == Header(h) + Item(h, dep) + "]"
  {
    assert Items(h, [dep]) == [Item(h, dep)];
  }

  /** A non-empty list yields the provider's header, and the expression ends with the bracket. */
  lemma FormatShape(h: Provider, service: string, deps: seq<string>)
    requires deps != []
    ensures var r := FormatDependsOnExpression(h, service, deps);
            |Header(h)| < |r| && r[..|Header(h)|] == Header(h) && r[|r| - 1] == ']'
  {
    var r := FormatDependsOnExpression(h, service, deps);
    var body := Text.Join(Items(h, deps), ItemSeparator);
    assert r == Header(h) + body + "]";
    assert (Header(h) + body + "]")[..|Header(h)|] == Header(h);
  }

  /** The output depends only on the dependencies, not on the service. */
  lemma FormatIgnoresService(h: Provider, s1: string, s2: string, deps: seq<string>)
    ensures FormatDependsOnExpression(h, s1, deps) == FormatDependsOnExpression(h, s2, deps)
  {
  }

  /** The texts the handler tests expect for one dependency, assembled from header and item. */
  lemma SingleTexts()
    ensures Header(Bicep) + "resource_api.id" + "]" == "dependsOn: [resource_api.id]"
    ensures Header(Terraform) + "module.api" + "]" == "depends_on = [module.api]"
  {
    assert "dependsOn: [" + "resource_api.id" == "dependsOn: [resource_api.id";
    assert "depends_on = [" + "module.api" == "depends_on = [module.api";
  }

  /** The items part of the Bicep text the handler tests expect for two dependencies. */
  lemma BicepPairItems()
    ensures "resource_api.id" + ", " + "resource_db.id" == "resource_api.id, resource_db.id"
  {
  }

  /** The Bicep text the handler tests expect for two dependencies. */
  lemma BicepPairText()
    ensures Header(Bicep) + ("resource_api.id" + ItemSeparator + "resource_db.id") + "]"
            == "dependsOn: [resource_api.id, resource_db.id]"
  {
    BicepPairItems();
    assert "dependsOn: [" + "resource_api.id, resource_db.id" + "]" == "dependsOn: [resource_api.id, resource_db.id]";
  }

  /** The items part of the Terraform text the handler tests expect for two dependencies. */
  lemma TerraformPairItems()
    ensures "module.api" + ", " + "module.db" == "module.api, module.db"
  {
  }

  /** The Terraform text the handler tests expect for two dependencies. */
  lemma TerraformPairText()
    ensures Header(Terraform) + ("module.api" + ItemSeparator + "module.db") + "]"
            == "depends_on = [module.api, module.db]"
  {
    TerraformPairItems();
    assert "depends_on = [" + "module.api, module.db" + "]" == "depends_on = [module.api, module.db]";
  }

  /** The Bicep expressions of the handler tests. */
  lemma BicepExamples()
    ensures FormatDependsOnExpression(Bicep, "web", []) == ""
    ensures FormatDependsOnExpression(Bicep, "web", ["api"]) == "dependsOn: [resource_api.id]"
    ensures FormatDependsOnExpression(Bicep, "web", ["api", "db"]) == "dependsOn: [resource_api.id, resource_db.id]"
  {
    FormatSingle(Bicep, "web", "api");
    FormatSnoc(Bicep, "web", ["api"], "db");
    assert ["api"] + ["db"] == ["api", "db"];
    assert Item(Bicep, "api") == "resource_api.id" && Item(Bicep, "db") == "resource_db.id";
    assert Items(Bicep, ["api"]) == ["resource_api.id"];
    SingleTexts();
    BicepPairText();
  }

  /** The Terraform expressions of the handler tests. */
  lemma TerraformExamples()
    ensures FormatDependsOnExpression(Terraform, "web", []) == ""
    ensures FormatDependsOnExpression(Terraform, "web", ["api"]) == "depends_on = [module.api]"
    ensures FormatDependsOnExpression(Terraform, "web", ["api", "db"]) == "depends_on = [module.api, module.db]"
  {
    FormatSingle(Terraform, "web", "api");
    FormatSnoc(Terraform, "web", ["api"], "db");
    assert ["api"] + ["db"] == ["api", "db"];
    assert Item(Terraform, "api") == "module.api" && Item(Terraform, "db") == "module.db";
    assert Items(Terraform, ["api"]) == ["module.api"];
    SingleTexts();
    TerraformPairText();
  }

  /** GetDependencyHandlerForProvider: "terraform" in any case selects Terraform; "bicep", "" and
      every other key fall back to Bicep. */
  function HandlerForProvider(provider: string): (h: Provider)
    ensures h == Terraform <==> Text.ToLower(provider) == "terraform"
  {
    var key := Text.ToLower(provider);
    if key == "terraform" then Terraform
    else if key == "bicep" || key == "" then Bicep
    else Bicep
  }

  /** Keys that differ only in letter case select the same handler. */
  lemma HandlerIgnoresCase(a: string, b: string)
    requires Text.SameIgnoringCase(a, b)
    ensures HandlerForProvider(a) == HandlerForProvider(b)
  {
    Text.ToLowerEqualIff(a, b);
  }

  /** The keys of the selection tests: "bicep", "" and an unknown key select Bicep... */
  lemma BicepKeys()
    ensures HandlerForProvider("bicep") == Bicep
    ensures HandlerForProvider("") == Bicep
    ensures HandlerForProvider("unknown") == Bicep
  {
    assert Text.ToLower("bicep") == "bicep";
    assert Text.ToLower("unknown") == "unknown";
  }

  /** ...and "terraform" selects Terraform, also when spelled in capitals. */
  lemma TerraformKeys()
    ensures HandlerForProvider("terraform") == Terraform
    ensures HandlerForProvider("TERRAFORM") == Terraform
  {
    assert Text.ToLower("terraform") == "terraform";
    assert Text.ToLower("TERRAFORM") == "terraform";
  }
}
