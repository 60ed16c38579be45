/** `mockProjectStartEnd`: a project that no task names as its parent and
    that has both dates gets two milestone nodes, pushed onto the task list
    at its end, marking its start and its end. */
module Milestones {
  import opened Records

  function StartMilestone(p: Node): (m: Node) {
    Node(p.id + "_start_task", "Project Start", p.startDate, p.startDate, Some(p.id), None, None, Milestone)
  }

  function EndMilestone(p: Node): (m: Node) {
    Node(p.id + "_end_task", "Project End", p.endDate, p.endDate, Some(p.id), None, None, Milestone)
  }

  /** The two tests of the second loop: the project is not among the
      parents collected from the tasks, and both its dates are set. */
  predicate NeedsMilestones(p: Node, parentIds: seq<Option<Id>>) {
    Some(p.id) !in parentIds && p.startDate.Some? && p.endDate.Some?
  }

  /** What one iteration of the second loop pushes. */
  function MilestonesFor(p: Node, parentIds: seq<Option<Id>>): (ms: seq<Node>) {
    if NeedsMilestones(p, parentIds) then [StartMilestone(p), EndMilestone(p)] else []
  }

  /** What the second loop pushes, project by project in list order. */
  function Milestones(projects: seq<Node>, parentIds: seq<Option<Id>>): (ms: seq<Node>) {
    if projects == [] then []
    else Milestones(projects[..|projects| - 1], parentIds) + MilestonesFor(projects[|projects| - 1], parentIds)
  }

  /** The task list after mockProjectStartEnd. */
  function WithMilestones(projects: seq<Node>, tasks: seq<Node>): (all: seq<Node>) {
    tasks + Milestones(projects, Parents(tasks))
  }

  /** The nodes whose parent is `id`, in order. */
  function ChildrenOf(nodes: seq<Node>, id: Id): (cs: seq<Node>)
    ensures forall n :: n in cs ==> n in nodes && n.parent == Some(id)
  {
    if nodes == [] then []
    else
      var last := nodes[|nodes| - 1];
      ChildrenOf(nodes[..|nodes| - 1], id) + (if last.parent == Some(id) then [last] else [])
  }

  /** One more project, one more step of the second loop. */
  lemma MilestonesStep(projects: seq<Node>, j: nat, parentIds: seq<Option<Id>>)
    requires j < |projects|
    ensures Milestones(projects[..j + 1], parentIds) ==
      Milestones(projects[..j], parentIds) + MilestonesFor(projects[j], parentIds)
  {
    assert projects[..j + 1][..j] == projects[..j];
  }

  method MockProjectStartEnd(projects: seq<Node>, tasks: TaskList)
    modifies tasks
    ensures tasks.items == WithMilestones(projects, old(tasks.items))
  {
    ghost var entry := tasks.items;
    ghost var parentIds := Parents(entry);
    var projectIds: seq<Option<Id>> := [];
    for i := 0 to |tasks.items|
      invariant tasks.items == entry
      invariant forall x :: x in projectIds <==> x in parentIds[..i]
    {
      var parent := tasks.items[i].parent;
      if parent !in projectIds {
        projectIds := projectIds + [parent];
      }
      assert parentIds[..i + 1] == parentIds[..i] + [parent];
    }
    assert parentIds[..|entry|] == parentIds;
    for j := 0 to |projects|
      invariant tasks.items == entry + Milestones(projects[..j], parentIds)
    {
      var project := projects[j];
      ghost var before := tasks.items;
      assert (Some(project.id) in projectIds) == (Some(project.id) in parentIds);
      if Some(project.id) !in projectIds {
        if project.startDate.Some? && project.endDate.Some? {
          tasks.Push(StartMilestone(project));
          tasks.Push(EndMilestone(project));
        }
      }
      assert tasks.items == before + MilestonesFor(project, parentIds);
      MilestonesStep(projects, j, parentIds);
    }
    assert projects[..|projects|] == projects;
  }

  /** The milestones of a list of projects are those of its first part
      followed by those of the rest: projects are handled in list order. */
  lemma {:induction false} MilestonesAppend(a: seq<Node>, b: seq<Node>, parentIds: seq<Option<Id>>)
    ensures Milestones(a + b, parentIds) == Milestones(a, parentIds) + Milestones(b, parentIds)
  {
    if b == [] {
      assert a + b == a;
    } else {
      var init := b[..|b| - 1];
      var ab := a + b;
      assert ab[..|ab| - 1] == a + init;
      MilestonesAppend(a, init, parentIds);
      assert Milestones(ab, parentIds) ==
        Milestones(a + init, parentIds) + MilestonesFor(b[|b| - 1], parentIds);
    }
  }

  /** `n` is the start or the end milestone of project `p`: a milestone
      under `p`, with no group and no colour, whose start and end are `p`'s
      start date or `p`'s end date, with `p`'s id followed by "_start_task"
      or "_end_task" as its id. */
  predicate IsMilestoneOf(n: Node, p: Node) {
    n.kind == Milestone && n.parent == Some(p.id) && n.startDate == n.endDate &&
    n.projectGroup.None? && n.color.None? &&
    ((n.id == p.id + "_start_task" && n.text == "Project Start" && n.startDate == p.startDate) ||
     (n.id == p.id + "_end_task" && n.text == "Project End" && n.startDate == p.endDate))
  }

  /** Every pushed node is the start or the end milestone of a project that
      needed them, and carries a date. */
  lemma {:induction false} MilestoneShape(projects: seq<Node>, parentIds: seq<Option<Id>>, n: Node)
    requires n in Milestones(projects, parentIds)
    ensures n.startDate.Some?
    ensures exists j :: 0 <= j < |projects| && NeedsMilestones(projects[j], parentIds) && IsMilestoneOf(n, projects[j])
  {
    var k := |projects| - 1;
    var init := projects[..k];
    if n in Milestones(init, parentIds) {
      MilestoneShape(init, parentIds, n);
      var j :| 0 <= j < |init| && NeedsMilestones(init[j], parentIds) && IsMilestoneOf(n, init[j]);
      assert projects[j] == init[j];
    } else {
      assert n in MilestonesFor(projects[k], parentIds);
      assert IsMilestoneOf(n, projects[k]);
    }
  }

  /** ChildrenOf keeps every node with parent `id` as often as it occurs in
      the list, and no other node. */
  lemma {:induction false} ChildrenOfExact(nodes: seq<Node>, id: Id)
    ensures forall n ::
      multiset(ChildrenOf(nodes, id))[n] == (if n.parent == Some(id) then multiset(nodes)[n] else 0)
  {
    if nodes != [] {
      var init := nodes[..|nodes| - 1];
      var last := nodes[|nodes| - 1];
      ChildrenOfExact(init, id);
      assert nodes == init + [last];
    }
  }

  lemma ChildrenOfAppend(a: seq<Node>, b: seq<Node>, id: Id)
    ensures ChildrenOf(a + b, id) == ChildrenOf(a, id) + ChildrenOf(b, id)
  {
    if b != [] {
      ChildrenOfAppend(a, b[..|b| - 1], id);
      assert (a + b)[..|a + b| - 1] == a + b[..|b| - 1];
    } else {
      assert a + b == a;
    }
  }

  lemma ChildrenOfNone(nodes: seq<Node>, id: Id)
    requires forall n :: n in nodes ==> n.parent != Some(id)
    ensures ChildrenOf(nodes, id) == []
  {
    if nodes != [] {
      ChildrenOfNone(nodes[..|nodes| - 1], id);
    }
  }

  /** The pushed milestones of a project are its only nodes among what the
      loop pushed for it. */
  lemma ChildrenOfOwnMilestones(p: Node, parentIds: seq<Option<Id>>)
    ensures ChildrenOf(MilestonesFor(p, parentIds), p.id) == MilestonesFor(p, parentIds)
  {
    var ms := MilestonesFor(p, parentIds);
    if ms != [] {
      var first := ms[..1];
      assert first[..0] == [] && first[0] == ms[0];
      assert ChildrenOf(first, p.id) == [ms[0]];
      assert ms[..|ms| - 1] == first;
    }
  }

  /** No milestone pushed for other projects hangs under `id`. */
  lemma ChildrenOfOthers(projects: seq<Node>, parentIds: seq<Option<Id>>, id: Id)
    requires forall j :: 0 <= j < |projects| ==> projects[j].id != id
    ensures ChildrenOf(Milestones(projects, parentIds), id) == []
  {
    forall n | n in Milestones(projects, parentIds) ensures n.parent != Some(id) {
      MilestoneShape(projects, parentIds, n);
    }
    ChildrenOfNone(Milestones(projects, parentIds), id);
  }

  /** With distinct project ids, the pushed nodes whose parent is project j
      are exactly what the loop pushed for project j. */
  lemma {:induction false} MilestonesOfProject(projects: seq<Node>, parentIds: seq<Option<Id>>, j: nat)
    requires DistinctIds(projects) && j < |projects|
    ensures ChildrenOf(Milestones(projects, parentIds), projects[j].id) == MilestonesFor(projects[j], parentIds)
  {
    var k := |projects| - 1;
    var init := projects[..k];
    var id := projects[j].id;
    ChildrenOfAppend(Milestones(init, parentIds), MilestonesFor(projects[k], parentIds), id);
    if j == k {
      ChildrenOfOthers(init, parentIds, id);
      ChildrenOfOwnMilestones(projects[k], parentIds);
    } else {
      MilestonesOfProject(init, parentIds, j);
      ChildrenOfNone(MilestonesFor(projects[k], parentIds), id);
    }
  }

  /** mockProjectStartEnd keeps the tasks it was given as an unchanged
      prefix and, when project ids are distinct, gives a project exactly its
      start and end milestones, in that order, if no task present on entry
      has it as parent and both its dates are set; otherwise it gives it
      nothing. */
  lemma MockProjectStartEndSpec(projects: seq<Node>, tasks: seq<Node>, j: nat)
    requires DistinctIds(projects) && j < |projects|
    ensures var out := WithMilestones(projects, tasks);
      |out| >= |tasks| && out[..|tasks|] == tasks &&
      ChildrenOf(out[|tasks|..], projects[j].id) ==
        if (forall t :: t in tasks ==> t.parent != Some(projects[j].id)) &&
           projects[j].startDate.Some? && projects[j].endDate.Some?
        then [StartMilestone(projects[j]), EndMilestone(projects[j])]
        else []
  {
    var out := WithMilestones(projects, tasks);
    assert out[|tasks|..] == Milestones(projects, Parents(tasks));
    MilestonesOfProject(projects, Parents(tasks), j);
    var p := projects[j];
    if Some(p.id) in Parents(tasks) {
      var i :| 0 <= i < |tasks| && Parents(tasks)[i] == Some(p.id);
      assert tasks[i] in tasks;
    }
  }
}
