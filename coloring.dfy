/** `colorTasks`: every node in the task list whose parent is a project with
    a non-empty colour takes that colour lightened by 50. Only direct
    children are coloured; a later project with the same id overwrites what
    an earlier one wrote. */
module Coloring {
  import opened Records
  import Colors

  /** Every project carries a colour, as unwrapProjects gives each one, and
      a non-empty colour is a colour literal that lightenDarkenColor can
      read. */
  predicate Colourable(projects: seq<Node>) {
    forall j :: 0 <= j < |projects| ==>
      projects[j].color.Some? &&
      (projects[j].color.value != "" ==> Colors.IsColorLiteral(projects[j].color.value))
  }

  /** The test `project.color != ""`. */
  predicate HasColour(p: Node) {
    p.color.Some? && p.color.value != ""
  }

  /** The colour a child of `p` takes. */
  function Tint(p: Node): (tint: string)
    requires HasColour(p) && Colors.IsColorLiteral(p.color.value)
  {
    Colors.LightenDarkenColor(p.color.value, 50)
  }

  /** One iteration of the outer loop: the inner loop over the tasks for
      project `p`. */
  function Paint(p: Node, tasks: seq<Node>): (painted: seq<Node>)
    requires p.color.Some? && (p.color.value != "" ==> Colors.IsColorLiteral(p.color.value))
  {
    if p.color.value == "" then tasks
    else
      seq(|tasks|, i requires 0 <= i < |tasks| =>
        if tasks[i].parent == Some(p.id) then tasks[i].(color := Some(Tint(p))) else tasks[i])
  }

  /** The task list after the outer loop has visited `projects`. */
  function ColoredTasks(projects: seq<Node>, tasks: seq<Node>): (out: seq<Node>)
    requires Colourable(projects)
    ensures |out| == |tasks|
  {
    if projects == [] then tasks
    else Paint(projects[|projects| - 1], ColoredTasks(projects[..|projects| - 1], tasks))
  }

  /** Reference definition, task by task: the project a node whose parent
      is `parent` takes its colour from is the last project with a colour
      and that id; there is none when no coloured project has that id. */
  function Supplier(projects: seq<Node>, parent: Option<Id>): (r: Option<nat>)
    ensures r.Some? ==>
      r.value < |projects| && HasColour(projects[r.value]) && parent == Some(projects[r.value].id)
    ensures r.Some? ==>
      forall k :: r.value < k < |projects| ==> !(HasColour(projects[k]) && parent == Some(projects[k].id))
    ensures r.None? ==>
      forall k :: 0 <= k < |projects| ==> !(HasColour(projects[k]) && parent == Some(projects[k].id))
  {
    if projects == [] then None
    else
      var k := |projects| - 1;
      if HasColour(projects[k]) && parent == Some(projects[k].id) then Some(k)
      else Supplier(projects[..k], parent)
  }

  /** One more project, one more step of the outer loop. */
  lemma ColoredStep(projects: seq<Node>, j: nat, tasks: seq<Node>)
    requires Colourable(projects) && j < |projects|
    ensures Colourable(projects[..j]) && Colourable(projects[..j + 1])
    ensures ColoredTasks(projects[..j + 1], tasks) == Paint(projects[j], ColoredTasks(projects[..j], tasks))
  {
    assert projects[..j + 1][..j] == projects[..j];
  }

  /** The inner loop of colorTasks for a project with a colour: every task
      whose parent is that project takes its tint. */
  method PaintChildren(project: Node, tasks: TaskList)
    requires HasColour(project) && Colors.IsColorLiteral(project.color.value)
    modifies tasks
    ensures tasks.items == Paint(project, old(tasks.items))
  {
    ghost var before := tasks.items;
    for k := 0 to |tasks.items|
      invariant |tasks.items| == |before|
      invariant forall m :: 0 <= m < k ==> tasks.items[m] == Paint(project, before)[m]
      invariant forall m :: k <= m < |before| ==> tasks.items[m] == before[m]
    {
      if Some(project.id) == tasks.items[k].parent {
        tasks.SetColor(k, Colors.LightenDarkenColor(project.color.value, 50));
      }
    }
  }

  method ColorTasks(projects: seq<Node>, tasks: TaskList)
    requires Colourable(projects)
    modifies tasks
    ensures tasks.items == ColoredTasks(projects, old(tasks.items))
  {
    ghost var entry := tasks.items;
    for j := 0 to |projects|
      invariant Colourable(projects[..j])
      invariant tasks.items == ColoredTasks(projects[..j], entry)
    {
      var project := projects[j];
      if project.color.value != "" {
        PaintChildren(project, tasks);
      }
      ColoredStep(projects, j, entry);
    }
    assert projects[..|projects|] == projects;
  }

  /** The outer loop agrees with the reference definition: colouring leaves
      each node's other fields alone, and node i takes the tint of the
      project that supplies its parent's colour, if there is one, and is
      unchanged otherwise. */
  lemma {:induction false} ColoredTasksAt(projects: seq<Node>, tasks: seq<Node>, i: nat)
    requires Colourable(projects) && i < |tasks|
    ensures ColoredTasks(projects, tasks)[i] ==
      match Supplier(projects, tasks[i].parent)
      case Some(j) => tasks[i].(color := Some(Tint(projects[j])))
      case None => tasks[i]
  {
    if projects != [] {
      var k := |projects| - 1;
      var init := projects[..k];
      assert Colourable(init);
      ColoredTasksAt(init, tasks, i);
      if !(HasColour(projects[k]) && tasks[i].parent == Some(projects[k].id)) {
        match Supplier(init, tasks[i].parent)
        case Some(j) => assert init[j] == projects[j];
        case None =>
      }
    }
  }

  /** The colours colorTasks writes are colour literals again: six lower-case
      digits after the project's optional '#'. */
  lemma PaintedColoursAreLiterals(projects: seq<Node>, tasks: seq<Node>, i: nat)
    requires Colourable(projects) && i < |tasks|
    ensures var out := ColoredTasks(projects, tasks);
      out[i] == tasks[i] || (out[i].color.Some? && Colors.IsColorLiteral(out[i].color.value))
  {
    ColoredTasksAt(projects, tasks, i);
    match Supplier(projects, tasks[i].parent)
    case Some(j) => Colors.LightenedIsColorLiteral(projects[j].color.value, 50);
    case None =>
  }

  /** With distinct project ids, a node whose parent is project j takes
      project j's tint, `lightenDarkenColor(color, 50)`, when that colour is
      not empty, and is left as it was otherwise. */
  lemma ColoredChild(projects: seq<Node>, tasks: seq<Node>, i: nat, j: nat)
    requires Colourable(projects) && DistinctIds(projects) && i < |tasks| && j < |projects|
    requires tasks[i].parent == Some(projects[j].id)
    ensures ColoredTasks(projects, tasks)[i] ==
      if HasColour(projects[j]) then tasks[i].(color := Some(Tint(projects[j]))) else tasks[i]
  {
    ColoredTasksAt(projects, tasks, i);
    var out := ColoredTasks(projects, tasks);
    assert forall k :: 0 <= k < |projects| && k != j ==> projects[k].id != projects[j].id by {
      forall k | 0 <= k < |projects| && k != j ensures projects[k].id != projects[j].id {
        if k < j {
          assert projects[k].id != projects[j].id;
        } else {
          assert projects[j].id != projects[k].id;
        }
      }
    }
    match Supplier(projects, tasks[i].parent)
    case Some(r) =>
      assert out[i] == tasks[i].(color := Some(Tint(projects[r])));
      assert r == j;
    case None =>
      assert out[i] == tasks[i];
      assert !HasColour(projects[j]);
  }

  /** A node whose parent is no project with a colour (a task under another
      task, say) is left as it was. */
  lemma ColoredOrphan(projects: seq<Node>, tasks: seq<Node>, i: nat)
    requires Colourable(projects) && i < |tasks|
    requires forall j :: 0 <= j < |projects| && HasColour(projects[j]) ==> tasks[i].parent != Some(projects[j].id)
    ensures ColoredTasks(projects, tasks)[i] == tasks[i]
  {
    ColoredTasksAt(projects, tasks, i);
  }
}
