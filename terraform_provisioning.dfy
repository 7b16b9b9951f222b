// The dependsOn builder of the Terraform provisioning package.

module TerraformProvisioning {
  import Text
  import BicepProvisioning

  /** BuildTerraformDependsOn of the Terraform package: its output is that of the Bicep package's
      builder of the same name, for every list and prefix. */
  method BuildTerraformDependsOn(deps: seq<string>, prefix: string) returns (r: string)
    ensures r == BicepProvisioning.TerraformExpression(prefix, deps)
  {
    if |deps| == 0 {
      return "";
    }
    var items: seq<string> := [];
    for i := 0 to |deps|
      invariant items == BicepProvisioning.TerraformItems(prefix, deps[..i])
    {
      items := items + ["module." + prefix + "_" + deps[i]];
    }
    assert deps[..|deps|] == deps;
    r := "depends_on = [" + Text.Join(items, ", ") + "]";
  }
}
