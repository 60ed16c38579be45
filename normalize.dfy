/** `unwrapProjects`, `unwrapTasks` and the link map of `unwrap`: each raw
    record becomes one node or link, in the same order. */
module Normalize {
  import opened Records

  /** `project_group`: the related group's name, or "" without a group. */
  function GroupTag(p: RawProject): (tag: string) {
    if p.projectGroup.Some? then p.projectGroup.value.name else ""
  }

  /** `color`: the related group's `Gantt_Colour__c`, or "" when that is
      empty or null. The source reads the colour through the group without
      checking that there is one, so a project without a group makes
      unwrapProjects fail; here the group is required. */
  function GroupColour(p: RawProject): (colour: string)
    requires p.projectGroup.Some?
  {
    match p.projectGroup.value.ganttColour
    case Some(c) => c
    case None => ""
  }

  function UnwrapProject(p: RawProject): (n: Node)
    requires p.projectGroup.Some?
  {
    Node(p.id, p.name, p.startDate, p.dueDate, None, Some(GroupTag(p)), Some(GroupColour(p)), Project)
  }

  /** Every project has a group, which unwrapProjects dereferences. */
  predicate AllGrouped(ps: seq<RawProject>) {
    forall i :: 0 <= i < |ps| ==> ps[i].projectGroup.Some?
  }

  function UnwrapProjects(ps: seq<RawProject>): (ns: seq<Node>)
    requires AllGrouped(ps)
    ensures |ns| == |ps|
    ensures forall i :: 0 <= i < |ps| ==>
      ns[i].id == ps[i].id && ns[i].text == ps[i].name &&
      ns[i].startDate == ps[i].startDate && ns[i].endDate == ps[i].dueDate &&
      ns[i].parent.None? && ns[i].kind == Project &&
      ns[i].projectGroup == Some(ps[i].projectGroup.value.name) &&
      ns[i].color == Some(match ps[i].projectGroup.value.ganttColour case Some(c) => c case None => "")
  {
    if ps == [] then [] else UnwrapProjects(ps[..|ps| - 1]) + [UnwrapProject(ps[|ps| - 1])]
  }

  /** `parent`: the explicit parent task, or else the related project. The
      source reads the project's id without checking that there is one. */
  predicate HasParent(t: RawTask) {
    t.parentTask.Some? || t.project.Some?
  }

  function UnwrapTask(t: RawTask): (n: Node)
    requires HasParent(t)
  {
    var parent := if t.parentTask.None? then t.project.value else t.parentTask.value;
    Node(t.id, t.name, t.startDate, t.currentDueDate, Some(parent), None, None, Task)
  }

  predicate AllParented(ts: seq<RawTask>) {
    forall i :: 0 <= i < |ts| ==> HasParent(ts[i])
  }

  function UnwrapTasks(ts: seq<RawTask>): (ns: seq<Node>)
    requires AllParented(ts)
    ensures |ns| == |ts|
    ensures forall i :: 0 <= i < |ts| ==>
      ns[i].id == ts[i].id && ns[i].text == ts[i].name &&
      ns[i].startDate == ts[i].startDate && ns[i].endDate == ts[i].currentDueDate &&
      ns[i].kind == Task && ns[i].projectGroup.None? && ns[i].color.None? &&
      (ts[i].parentTask.Some? ==> ns[i].parent == ts[i].parentTask) &&
      (ts[i].parentTask.None? ==> ns[i].parent == ts[i].project)
  {
    if ts == [] then [] else UnwrapTasks(ts[..|ts| - 1]) + [UnwrapTask(ts[|ts| - 1])]
  }

  function UnwrapLink(l: RawLink): (k: Link) {
    Link(l.id, l.source, l.target, l.linkType)
  }

  /** The link map of `unwrap`: `Id`, `Source__c`, `Target__c` and `Type__c`
      become `id`, `source`, `target` and `type`. */
  function UnwrapLinks(ls: seq<RawLink>): (ks: seq<Link>)
    ensures |ks| == |ls|
    ensures forall i :: 0 <= i < |ls| ==>
      ks[i].id == ls[i].id && ks[i].source == ls[i].source &&
      ks[i].target == ls[i].target && ks[i].linkType == ls[i].linkType
  {
    if ls == [] then [] else UnwrapLinks(ls[..|ls| - 1]) + [UnwrapLink(ls[|ls| - 1])]
  }
}
