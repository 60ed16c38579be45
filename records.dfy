/** The records of gantt.js: the raw Salesforce records the Apex controller
    returns, and the node and link records the dhtmlx timeline is given. */
module Records {

  datatype Option<+T> = None | Some(value: T)

  /** Salesforce record ids, node ids and group names are strings. */
  type Id = string

  /** Dates are handed from Salesforce to the timeline unchanged; the model
      only copies them and tells a missing date (null) from a present one. */
  type Date = string

  /** `Project_Group__r`: the related group of a project. */
  datatype RawGroup = RawGroup(name: string, ganttColour: Option<string>)

  /** A `Project__c` record with its related group. */
  datatype RawProject = RawProject(
    id: Id,
    name: string,
    startDate: Option<Date>,
    dueDate: Option<Date>,
    projectGroup: Option<RawGroup>)

  /** A `Project_Task__c` record: `parentTask` is `Parent__c`, `project` the id
      of `Project__r`, the related project (None when the relation is null). */
  datatype RawTask = RawTask(
    id: Id,
    name: string,
    startDate: Option<Date>,
    currentDueDate: Option<Date>,
    parentTask: Option<Id>,
    project: Option<Id>)

  /** A `GanttLink__c` record. */
  datatype RawLink = RawLink(id: Id, source: Id, target: Id, linkType: string)

  /** What `getGanttData` returns. */
  datatype RawData = RawData(projects: seq<RawProject>, tasks: seq<RawTask>, links: seq<RawLink>)

  /** The `type` field of a node. */
  datatype Kind = Project | Task | Milestone

  /** A node of the timeline. Fields the source does not set on a node are
      None: projects have no `parent`, tasks and milestones no
      `project_group`, and tasks and milestones have a `color` only once
      colorTasks gave them one. A node without a parent hangs under the
      timeline's root (id 0). */
  datatype Node = Node(
    id: Id,
    text: string,
    startDate: Option<Date>,
    endDate: Option<Date>,
    parent: Option<Id>,
    projectGroup: Option<string>,
    color: Option<string>,
    kind: Kind)

  /** A dependency link of the timeline. */
  datatype Link = Link(id: Id, source: Id, target: Id, linkType: string)

  /** The `{ data, links }` payload `unwrap` hands to `gantt.parse`. */
  datatype Graph = Graph(data: seq<Node>, links: seq<Link>)

  /** The parent of each node, in order. */
  function Parents(nodes: seq<Node>): (ps: seq<Option<Id>>)
    ensures |ps| == |nodes|
    ensures forall i :: 0 <= i < |nodes| ==> ps[i] == nodes[i].parent
  {
    if nodes == [] then [] else Parents(nodes[..|nodes| - 1]) + [nodes[|nodes| - 1].parent]
  }

  /** No two nodes share an id. */
  predicate DistinctIds(nodes: seq<Node>) {
    forall i, j :: 0 <= i < j < |nodes| ==> nodes[i].id != nodes[j].id
  }

  /** The `tasks` array of `unwrap`, which mockProjectStartEnd pushes
      milestones onto and colorTasks recolours in place. */
  class TaskList {
    var items: seq<Node>

    constructor (nodes: seq<Node>)
      ensures items == nodes
    {
      items := nodes;
    }

    /** `tasks.push(node)`. */
    method Push(node: Node)
      modifies this
      ensures items == old(items) + [node]
    {
      items := items + [node];
    }

    /** `task.color = color` on the i-th task. */
    method SetColor(i: nat, color: string)
      requires i < |items|
      modifies this
      ensures items == old(items)[i := old(items)[i].(color := Some(color))]
    {
      items := items[i := items[i].(color := Some(color))];
    }
  }
}
