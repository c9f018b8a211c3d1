/**
 * The `list_projects` endpoint: one item per configured project, in the order
 * of the configuration's dictionary, flagged as default and as current.
 */
module ProjectRouter {
  import ProjectService

  datatype ProjectItem = ProjectItem(name: string, path: string, isDefault: bool, isCurrent: bool)

  datatype ProjectList = ProjectList(projects: seq<ProjectItem>, defaultProject: string, currentProject: string)

  /** The configured projects as the dictionary's (name, path) items, in its order: the names are distinct. */
  predicate DistinctNames(projects: seq<(string, string)>) {
    forall i, j :: 0 <= i < j < |projects| ==> projects[i].0 != projects[j].0
  }

  /** The item built for one configured project. */
  function ItemOf(entry: (string, string), defaultProject: string, currentProject: string): ProjectItem {
    ProjectItem(entry.0, entry.1, entry.0 == defaultProject, entry.0 == currentProject)
  }

  /**
   * `list_projects`: the current project is read from the environment with
   * the default as fallback, and the loop appends one item per project.
   */
  method ListProjects(projects: seq<(string, string)>, defaultProject: string, environ: map<string, string>)
    returns (list: ProjectList)
    ensures list.defaultProject == defaultProject
    ensures list.currentProject == ProjectService.CurrentProject(environ, defaultProject)
    ensures |list.projects| == |projects|
    ensures forall i :: 0 <= i < |projects| ==> list.projects[i] == ItemOf(projects[i], defaultProject, list.currentProject)
  {
    var currentProject := ProjectService.CurrentProject(environ, defaultProject);
    var projectItems: seq<ProjectItem> := [];
    var i := 0;
    while i < |projects|
      invariant 0 <= i <= |projects|
      invariant |projectItems| == i
      invariant forall j :: 0 <= j < i ==> projectItems[j] == ItemOf(projects[j], defaultProject, currentProject)
    {
      var (name, path) := projects[i];
      projectItems := projectItems + [ProjectItem(name, path, name == defaultProject, name == currentProject)];
      i := i + 1;
    }
    list := ProjectList(projectItems, defaultProject, currentProject);
  }

  /** The items are those `list_projects` builds for `projects`, one per project and in order. */
  predicate FlaggedBy(items: seq<ProjectItem>, projects: seq<(string, string)>, defaultProject: string, currentProject: string) {
    |items| == |projects| && forall i :: 0 <= i < |projects| ==> items[i] == ItemOf(projects[i], defaultProject, currentProject)
  }

  /** If the default is a configured project, exactly one item is the default; likewise for the current project. */
  lemma ExactlyOneFlagged(items: seq<ProjectItem>, projects: seq<(string, string)>, defaultProject: string, currentProject: string)
    requires DistinctNames(projects) && FlaggedBy(items, projects, defaultProject, currentProject)
    ensures forall i, j :: 0 <= i < |items| && 0 <= j < |items| && items[i].isDefault && items[j].isDefault ==> i == j
    ensures forall i, j :: 0 <= i < |items| && 0 <= j < |items| && items[i].isCurrent && items[j].isCurrent ==> i == j
    ensures (exists k :: 0 <= k < |projects| && projects[k].0 == defaultProject) ==>
              exists i :: 0 <= i < |items| && items[i].isDefault && items[i].name == defaultProject
    ensures (exists k :: 0 <= k < |projects| && projects[k].0 == currentProject) ==>
              exists i :: 0 <= i < |items| && items[i].isCurrent && items[i].name == currentProject
    ensures (forall k :: 0 <= k < |projects| ==> projects[k].0 != defaultProject) ==>
              forall i :: 0 <= i < |items| ==> !items[i].isDefault
  {
    forall i, j | 0 <= i < |items| && 0 <= j < |items| && items[i].isDefault && items[j].isDefault ensures i == j {
      assert projects[i].0 == projects[j].0;
    }
    forall i, j | 0 <= i < |items| && 0 <= j < |items| && items[i].isCurrent && items[j].isCurrent ensures i == j {
      assert projects[i].0 == projects[j].0;
    }
    if exists k :: 0 <= k < |projects| && projects[k].0 == defaultProject {
      var k :| 0 <= k < |projects| && projects[k].0 == defaultProject;
      assert items[k].isDefault && items[k].name == defaultProject;
    }
    if exists k :: 0 <= k < |projects| && projects[k].0 == currentProject {
      var k :| 0 <= k < |projects| && projects[k].0 == currentProject;
      assert items[k].isCurrent && items[k].name == currentProject;
    }
  }
}
