// The command sequence of the dep commands' test, followed on api's dependsOn list through the
// functions that Project.AddDependency and Project.RemoveDependency are proved to apply.

module DependencyScenarios {
  import opened Wrappers
  import opened Sequences
  import opened ServiceDependencies
  import opened DependencyCommands

  /** The test project once DepAdd has run: api lists database and web; web and database have no
      list. */
  function AfterDepAdd(): Services {
    map["api" := Some(["database", "web"]), "web" := None, "database" := None]
  }

  /** DepAdd: adding database, again with force, then web, leaves api's list [database, web]. */
  lemma DepAddSteps()
    ensures WithEdge(None, "database") == Some(["database"])
    ensures WithEdge(Some(["database"]), "database") == Some(["database"])
    ensures WithEdge(Some(["database"]), "web") == Some(["database", "web"])
  {
    assert "database" in ["database"];
    assert ["database"] + ["web"] == ["database", "web"];
  }

  /** DepList as written: adding api -> database again without force is refused, so the sub-test
      stops at its first check. */
  lemma DepListReAddRefused()
    ensures AddError(AfterDepAdd(), "api", "database", false) == Some(AlreadyDependsOn("api", "database"))
  {
    assert DependsOn(AfterDepAdd(), "api") == ["database", "web"];
  }

  /** DepRemove: the two forced adds change nothing, and removing database leaves [web]. */
  lemma DepRemoveSteps()
    ensures WithEdge(Some(["database", "web"]), "database") == Some(["database", "web"])
    ensures WithEdge(Some(["database", "web"]), "web") == Some(["database", "web"])
    ensures WithoutFirst(["database", "web"], "database") == Some(["web"])
  {
    assert IndexOf(["database", "web"], "database") == 0;
    assert ["database", "web"][..0] + ["database", "web"][1..] == ["web"];
  }

  /** DepRemoveAll as written: the forced add appends database again, the forced add of web changes
      nothing, and removing web leaves [database] where the test expects an empty list. */
  lemma DepRemoveAllAsWritten()
    ensures WithEdge(Some(["web"]), "database") == Some(["web", "database"])
    ensures WithEdge(Some(["web", "database"]), "web") == Some(["web", "database"])
    ensures WithoutFirst(["web", "database"], "web") == Some(["database"])
    ensures Entries(WithoutFirst(["web", "database"], "web")) != []
  {
    assert "database" !in ["web"] && ["web"] + ["database"] == ["web", "database"];
    assert IndexOf(["web", "database"], "web") == 0;
    assert ["web", "database"][..0] + ["web", "database"][1..] == ["database"];
  }

  /** DepList as intended: with force, the repeated add goes ahead and leaves the list as it is. */
  lemma DepListReAddForced()
    ensures AddError(AfterDepAdd(), "api", "database", true).None?
    ensures WithEdge(AfterDepAdd()["api"], "database") == AfterDepAdd()["api"]
  {
    assert DependsOn(AfterDepAdd(), "api") == ["database", "web"];
  }

  /** DepRemoveAll as intended: removing every remaining dependency, database and then web, leaves
      api without a list. */
  lemma DepRemoveAllIntended()
    ensures WithoutFirst(["web", "database"], "database") == Some(["web"])
    ensures WithoutFirst(["web"], "web") == None
    ensures Entries(WithoutFirst(["web"], "web")) == []
  {
    assert IndexOf(["web", "database"], "database") == 1;
    assert ["web", "database"][..1] + ["web", "database"][2..] == ["web"];
    assert IndexOf(["web"], "web") == 0;
    assert ["web"][..0] + ["web"][1..] == [];
  }
}
