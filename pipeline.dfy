/** `unwrap`: the records `getGanttData` returns become the `{ data, links }`
    payload of the timeline. Projects come first, then the tasks, then the
    milestones mockProjectStartEnd pushes, with colorTasks applied to the
    tasks and milestones. */
module Pipeline {
  import opened Records
  import Colors
  import Normalize
  import Milestones
  import Coloring

  /** A non-empty `Gantt_Colour__c` is a colour literal. */
  predicate ColoursReadable(ps: seq<RawProject>) {
    forall i :: 0 <= i < |ps| && ps[i].projectGroup.Some? ==> ColourReadable(ps[i])
  }

  predicate ColourReadable(p: RawProject)
    requires p.projectGroup.Some?
  {
    Normalize.GroupColour(p) != "" ==> Colors.IsColorLiteral(Normalize.GroupColour(p))
  }

  /** What unwrap needs to run to its end: every project has a group, every
      task a parent task or a project, and every colour can be read. */
  predicate Unwrappable(raw: RawData) {
    Normalize.AllGrouped(raw.projects) && Normalize.AllParented(raw.tasks) && ColoursReadable(raw.projects)
  }

  lemma ProjectsColourable(ps: seq<RawProject>)
    requires Normalize.AllGrouped(ps) && ColoursReadable(ps)
    ensures Coloring.Colourable(Normalize.UnwrapProjects(ps))
  {
  }

  /** The payload unwrap returns. */
  function Unwrapped(raw: RawData): (g: Graph)
    requires Unwrappable(raw)
  {
    var projects := Normalize.UnwrapProjects(raw.projects);
    ProjectsColourable(raw.projects);
    var tasks := Milestones.WithMilestones(projects, Normalize.UnwrapTasks(raw.tasks));
    Graph(projects + Coloring.ColoredTasks(projects, tasks), Normalize.UnwrapLinks(raw.links))
  }

  /** Node i of the task list after colouring is node |projects| + i of the
      payload. */
  lemma UnwrappedNode(raw: RawData, i: nat)
    requires Unwrappable(raw) && |raw.projects| + i < |Unwrapped(raw).data|
    ensures var projects := Normalize.UnwrapProjects(raw.projects);
      Coloring.Colourable(projects) &&
      i < |Milestones.WithMilestones(projects, Normalize.UnwrapTasks(raw.tasks))| &&
      Unwrapped(raw).data[|raw.projects| + i] ==
        Coloring.ColoredTasks(projects, Milestones.WithMilestones(projects, Normalize.UnwrapTasks(raw.tasks)))[i]
  {
    ProjectsColourable(raw.projects);
  }

  method Unwrap(raw: RawData) returns (g: Graph)
    requires Unwrappable(raw)
    ensures g == Unwrapped(raw)
  {
    var projects := Normalize.UnwrapProjects(raw.projects);
    var tasks := new TaskList(Normalize.UnwrapTasks(raw.tasks));
    Milestones.MockProjectStartEnd(projects, tasks);
    ProjectsColourable(raw.projects);
    Coloring.ColorTasks(projects, tasks);
    var data := projects + tasks.items;
    var links := Normalize.UnwrapLinks(raw.links);
    g := Graph(data, links);
  }

  /** Why unwrap stops: a project without a group, or a task with neither a
      parent task nor a project. */
  datatype Fault = MissingProjectGroup(projectId: Id) | MissingProject(taskId: Id)

  datatype Result<T> = Ok(value: T) | Err(fault: Fault)

  /** The index of the first project without a group. */
  function FirstUngrouped(ps: seq<RawProject>): (r: Option<nat>)
    ensures r.None? <==> Normalize.AllGrouped(ps)
    ensures r.Some? ==> r.value < |ps| && ps[r.value].projectGroup.None? && Normalize.AllGrouped(ps[..r.value])
  {
    if ps == [] then None
    else if ps[0].projectGroup.None? then Some(0)
    else
      match FirstUngrouped(ps[1..])
      case None => None
      case Some(i) =>
        assert ps[..i + 1] == [ps[0]] + ps[1..][..i];
        Some(i + 1)
  }

  /** The index of the first task with neither a parent task nor a project. */
  function FirstOrphan(ts: seq<RawTask>): (r: Option<nat>)
    ensures r.None? <==> Normalize.AllParented(ts)
    ensures r.Some? ==> r.value < |ts| && !Normalize.HasParent(ts[r.value]) && Normalize.AllParented(ts[..r.value])
  {
    if ts == [] then None
    else if !Normalize.HasParent(ts[0]) then Some(0)
    else
      match FirstOrphan(ts[1..])
      case None => None
      case Some(i) =>
        assert ts[..i + 1] == [ts[0]] + ts[1..][..i];
        Some(i + 1)
  }

  /** unwrap with its failures made explicit: unwrapProjects runs first and
      stops at the first project without a group; then unwrapTasks stops at
      the first task without a parent. */
  function TryUnwrap(raw: RawData): (r: Result<Graph>)
    requires ColoursReadable(raw.projects)
    ensures r.Ok? <==> Normalize.AllGrouped(raw.projects) && Normalize.AllParented(raw.tasks)
    ensures r.Ok? ==> r.value == Unwrapped(raw)
    ensures r.Err? && r.fault.MissingProjectGroup? ==>
      exists i :: 0 <= i < |raw.projects| && raw.projects[i].id == r.fault.projectId &&
        raw.projects[i].projectGroup.None? && Normalize.AllGrouped(raw.projects[..i])
    ensures r.Err? && r.fault.MissingProject? ==>
      Normalize.AllGrouped(raw.projects) &&
      exists i :: 0 <= i < |raw.tasks| && raw.tasks[i].id == r.fault.taskId &&
        !Normalize.HasParent(raw.tasks[i]) && Normalize.AllParented(raw.tasks[..i])
  {
    match FirstUngrouped(raw.projects)
    case Some(i) => Err(MissingProjectGroup(raw.projects[i].id))
    case None =>
      match FirstOrphan(raw.tasks)
      case Some(i) => Err(MissingProject(raw.tasks[i].id))
      case None => Ok(Unwrapped(raw))
  }

  /** The payload lists the projects, then the tasks, then the milestones, and
      the links one for one. */
  lemma UnwrappedLayout(raw: RawData)
    requires Unwrappable(raw)
    ensures var g := Unwrapped(raw);
      var projects := Normalize.UnwrapProjects(raw.projects);
      |g.data| == |raw.projects| + |raw.tasks| +
        |Milestones.Milestones(projects, Parents(Normalize.UnwrapTasks(raw.tasks)))| &&
      g.data[..|raw.projects|] == projects &&
      |g.links| == |raw.links|
  {
  }

  /** A node below the root without a group, and not a project. */
  predicate IsChildNode(n: Node) {
    n.kind != Project && n.parent.Some? && n.projectGroup.None?
  }

  /** Milestones and colours keep the task list made of child nodes. */
  lemma ChildNodes(projects: seq<Node>, tasks: seq<Node>, i: nat)
    requires Coloring.Colourable(projects) && forall m :: 0 <= m < |tasks| ==> IsChildNode(tasks[m])
    requires i < |Milestones.WithMilestones(projects, tasks)|
    ensures IsChildNode(Coloring.ColoredTasks(projects, Milestones.WithMilestones(projects, tasks))[i])
  {
    var all := Milestones.WithMilestones(projects, tasks);
    if i >= |tasks| {
      var ms := Milestones.Milestones(projects, Parents(tasks));
      assert all[i] == ms[i - |tasks|];
      Milestones.MilestoneShape(projects, Parents(tasks), all[i]);
    } else {
      assert all[i] == tasks[i];
    }
    assert IsChildNode(all[i]);
    Coloring.ColoredTasksAt(projects, all, i);
    var n := Coloring.ColoredTasks(projects, all)[i];
    assert n == all[i].(color := n.color) by {
      match Coloring.Supplier(projects, all[i].parent)
      case Some(j) =>
      case None =>
    }
  }

  lemma TasksAreChildren(ts: seq<RawTask>)
    requires Normalize.AllParented(ts)
    ensures forall m :: 0 <= m < |ts| ==> IsChildNode(Normalize.UnwrapTasks(ts)[m])
  {
  }

  /** The payload's first nodes are the projects: each is a project at the
      root, with the record's id and its group's name. */
  lemma UnwrappedProject(raw: RawData, k: nat)
    requires Unwrappable(raw) && k < |raw.projects|
    ensures var n := Unwrapped(raw).data[k];
      n.kind == Project && n.parent.None? && n.id == raw.projects[k].id &&
      n.projectGroup == Some(raw.projects[k].projectGroup.value.name)
  {
    assert Unwrapped(raw).data[k] == Normalize.UnwrapProjects(raw.projects)[k];
  }

  /** Every node after the projects, task or milestone, hangs under a parent
      and carries no group. */
  lemma UnwrappedChild(raw: RawData, k: nat)
    requires Unwrappable(raw) && |raw.projects| <= k < |Unwrapped(raw).data|
    ensures IsChildNode(Unwrapped(raw).data[k])
  {
    var projects := Normalize.UnwrapProjects(raw.projects);
    var unwrapped := Normalize.UnwrapTasks(raw.tasks);
    UnwrappedNode(raw, k - |raw.projects|);
    TasksAreChildren(raw.tasks);
    ChildNodes(projects, unwrapped, k - |raw.projects|);
  }

  /** The node unwrap makes of task i keeps the record's id, name and dates,
      is a task without a group, and hangs under the record's parent task or
      else its project. */
  lemma UnwrappedTask(raw: RawData, i: nat)
    requires Unwrappable(raw) && i < |raw.tasks|
    ensures var n := Unwrapped(raw).data[|raw.projects| + i];
      var t := raw.tasks[i];
      n.id == t.id && n.text == t.name && n.startDate == t.startDate && n.endDate == t.currentDueDate &&
      n.kind == Task && n.projectGroup.None? &&
      n.parent == (if t.parentTask.Some? then t.parentTask else t.project)
  {
    var projects := Normalize.UnwrapProjects(raw.projects);
    var unwrapped := Normalize.UnwrapTasks(raw.tasks);
    var all := Milestones.WithMilestones(projects, unwrapped);
    UnwrappedNode(raw, i);
    assert all[i] == unwrapped[i];
    Coloring.ColoredTasksAt(projects, all, i);
    var n := Coloring.ColoredTasks(projects, all)[i];
    assert n == all[i].(color := n.color) by {
      match Coloring.Supplier(projects, all[i].parent)
      case Some(j) =>
      case None =>
    }
  }

  /** When project ids are distinct, the node of a task whose parent is
      project j has that project's group colour lightened by 50, or no
      colour when the group colour is empty. */
  lemma UnwrappedTaskColour(raw: RawData, i: nat, j: nat)
    requires Unwrappable(raw) && DistinctIds(Normalize.UnwrapProjects(raw.projects))
    requires i < |raw.tasks| && j < |raw.projects|
    requires Normalize.UnwrapTasks(raw.tasks)[i].parent == Some(raw.projects[j].id)
    ensures Unwrapped(raw).data[|raw.projects| + i].color ==
      if Normalize.GroupColour(raw.projects[j]) == "" then None
      else Some(Colors.LightenDarkenColor(Normalize.GroupColour(raw.projects[j]), 50))
  {
    var projects := Normalize.UnwrapProjects(raw.projects);
    var unwrapped := Normalize.UnwrapTasks(raw.tasks);
    var all := Milestones.WithMilestones(projects, unwrapped);
    UnwrappedNode(raw, i);
    assert all[i] == unwrapped[i];
    Coloring.ColoredChild(projects, all, i, j);
  }

  /** `n` is the start or the end milestone of `projects[j]`, a project
      that needed them, coloured with that project's tint when it has a
      colour and uncoloured otherwise. */
  predicate IsTintedMilestoneOf(projects: seq<Node>, parentIds: seq<Option<Id>>, n: Node, j: nat)
    requires Coloring.Colourable(projects) && j < |projects|
  {
    Milestones.NeedsMilestones(projects[j], parentIds) &&
    Milestones.IsMilestoneOf(n.(color := None), projects[j]) &&
    n.color == if Coloring.HasColour(projects[j]) then Some(Coloring.Tint(projects[j])) else None
  }

  /** colorTasks after mockProjectStartEnd: every node after the tasks is a
      milestone of a project that needed them, coloured with that project's
      tint when it has a colour and uncoloured otherwise. */
  lemma ColoredMilestone(projects: seq<Node>, tasks: seq<Node>, i: nat)
    requires Coloring.Colourable(projects) && DistinctIds(projects)
    requires |tasks| <= i < |Milestones.WithMilestones(projects, tasks)|
    ensures var n := Coloring.ColoredTasks(projects, Milestones.WithMilestones(projects, tasks))[i];
      exists j :: 0 <= j < |projects| && IsTintedMilestoneOf(projects, Parents(tasks), n, j)
  {
    var all := Milestones.WithMilestones(projects, tasks);
    var m := all[i];
    assert m in Milestones.Milestones(projects, Parents(tasks)) by {
      assert m == Milestones.Milestones(projects, Parents(tasks))[i - |tasks|];
    }
    Milestones.MilestoneShape(projects, Parents(tasks), m);
    var j :| 0 <= j < |projects| && Milestones.NeedsMilestones(projects[j], Parents(tasks)) &&
      Milestones.IsMilestoneOf(m, projects[j]);
    Coloring.ColoredChild(projects, all, i, j);
    var n := Coloring.ColoredTasks(projects, all)[i];
    if Coloring.HasColour(projects[j]) {
      assert n == m.(color := Some(Coloring.Tint(projects[j])));
    } else {
      assert n == m;
    }
    assert n.(color := None) == m;
    assert IsTintedMilestoneOf(projects, Parents(tasks), n, j);
  }
}
