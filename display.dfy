/** The group filter of the timeline: the `onBeforeTaskDisplay` handler and
    the component state behind the group picker. */
module Display {
  import opened Records
  import Normalize
  import Pipeline

  /** `gantt.getTask(id).project_group`: the group of the node with that id.
      For duplicate ids this model takes the last node with that id; an id
      with no node gives None. */
  function GroupOf(data: seq<Node>, id: Id): (g: Option<string>)
    ensures g.Some? ==> exists m :: 0 <= m < |data| && data[m].id == id && data[m].projectGroup == g
    ensures (forall m :: 0 <= m < |data| ==> data[m].id != id) ==> g.None?
  {
    if data == [] then None
    else
      var last := data[|data| - 1];
      if last.id == id then last.projectGroup
      else
        var g := GroupOf(data[..|data| - 1], id);
        assert g.Some? ==> exists m :: 0 <= m < |data| && data[m].id == id && data[m].projectGroup == g by {
          if g.Some? {
            var m :| 0 <= m < |data| - 1 && data[..|data| - 1][m].id == id && data[..|data| - 1][m].projectGroup == g;
            assert data[m] == data[..|data| - 1][m];
          }
        }
        g
  }

  /** With distinct ids, the group looked up for an id is the group of the
      one node that has it, and None when no node has it. */
  lemma {:induction false} GroupOfDistinct(data: seq<Node>, id: Id)
    requires DistinctIds(data)
    ensures forall k :: 0 <= k < |data| && data[k].id == id ==> GroupOf(data, id) == data[k].projectGroup
    ensures (forall k :: 0 <= k < |data| ==> data[k].id != id) ==> GroupOf(data, id).None?
  {
    if data != [] {
      var init := data[..|data| - 1];
      assert DistinctIds(init);
      GroupOfDistinct(init, id);
      forall k | 0 <= k < |init| ensures init[k] == data[k] { }
    }
  }

  /** The `onBeforeTaskDisplay` handler: with "All" selected every node is
      shown; otherwise a node is shown when its own group is the selected one
      or, for a node below the root, when its parent's group is. Besides
      "All", a node is shown only for its own group or the group of a node
      that has its parent's id; with distinct ids, it is shown for the group
      of its parent node. */
  function Visible(selected: string, node: Node, data: seq<Node>): (shown: bool)
    ensures selected == "All" ==> shown
    ensures node.projectGroup == Some(selected) ==> shown
    ensures shown && selected != "All" && node.projectGroup != Some(selected) ==>
      node.parent.Some? &&
      exists m :: 0 <= m < |data| && data[m].id == node.parent.value && data[m].projectGroup == Some(selected)
    ensures (DistinctIds(data) && node.parent.Some? &&
             exists m :: 0 <= m < |data| && data[m].id == node.parent.value && data[m].projectGroup == Some(selected))
      ==> shown
  {
    var shown := selected == "All" ||
      node.projectGroup == Some(selected) ||
      (node.parent.Some? && GroupOf(data, node.parent.value) == Some(selected));
    if DistinctIds(data) && node.parent.Some? then GroupOfDistinct(data, node.parent.value); shown else shown
  }

  /** On the payload unwrap builds, with distinct ids and a group other than
      "All" selected, a project is shown exactly when it belongs to the
      selected group, and a task or milestone exactly when its parent is a
      project of the selected group: a task under another task is hidden. */
  lemma VisibleInPayload(raw: RawData, selected: string, k: nat)
    requires Pipeline.Unwrappable(raw) && DistinctIds(Pipeline.Unwrapped(raw).data)
    requires selected != "All" && k < |Pipeline.Unwrapped(raw).data|
    ensures var data := Pipeline.Unwrapped(raw).data;
      k < |raw.projects| ==>
        (Visible(selected, data[k], data) <==> raw.projects[k].projectGroup.value.name == selected)
    ensures var data := Pipeline.Unwrapped(raw).data;
      k >= |raw.projects| ==>
        (Visible(selected, data[k], data) <==>
         exists j :: 0 <= j < |raw.projects| && data[k].parent == Some(raw.projects[j].id) &&
           raw.projects[j].projectGroup.value.name == selected)
  {
    if k < |raw.projects| {
      Pipeline.UnwrappedProject(raw, k);
    } else {
      VisibleChild(raw, selected, k);
    }
  }

  /** The task and milestone case of VisibleInPayload. */
  lemma VisibleChild(raw: RawData, selected: string, k: nat)
    requires Pipeline.Unwrappable(raw) && DistinctIds(Pipeline.Unwrapped(raw).data)
    requires selected != "All" && |raw.projects| <= k < |Pipeline.Unwrapped(raw).data|
    ensures var data := Pipeline.Unwrapped(raw).data;
      Visible(selected, data[k], data) <==>
      exists j :: 0 <= j < |raw.projects| && data[k].parent == Some(raw.projects[j].id) &&
        raw.projects[j].projectGroup.value.name == selected
  {
    var data := Pipeline.Unwrapped(raw).data;
    Pipeline.UnwrappedChild(raw, k);
    var id := data[k].parent.value;
    if Visible(selected, data[k], data) {
      var m :| 0 <= m < |data| && data[m].id == id && data[m].projectGroup == Some(selected);
      if m < |raw.projects| {
        Pipeline.UnwrappedProject(raw, m);
      } else {
        Pipeline.UnwrappedChild(raw, m);
      }
    }
    forall j | 0 <= j < |raw.projects| && data[k].parent == Some(raw.projects[j].id) &&
        raw.projects[j].projectGroup.value.name == selected
      ensures Visible(selected, data[k], data)
    {
      Pipeline.UnwrappedProject(raw, j);
    }
  }

  /** An entry of the group picker: its `label` and its `value`. */
  datatype GroupOption = GroupOption(caption: string, value: string)

  /** The picker's entries: "Show All" first, then one per group. */
  function GroupOptions(groups: seq<RawGroup>): (os: seq<GroupOption>)
    ensures |os| == |groups| + 1 && os[0] == GroupOption("Show All", "All")
    ensures forall i :: 0 <= i < |groups| ==> os[i + 1].caption == groups[i].name && os[i + 1].value == groups[i].name
  {
    [GroupOption("Show All", "All")] +
    seq(|groups|, i requires 0 <= i < |groups| => GroupOption(groups[i].name, groups[i].name))
  }

  /** The values the picker can select are exactly "All" and the group
      names. */
  lemma GroupOptionsSpec(groups: seq<RawGroup>, v: string)
    ensures (exists o :: o in GroupOptions(groups) && o.value == v) <==>
      v == "All" || exists g :: g in groups && g.name == v
  {
    var os := GroupOptions(groups);
    if exists g :: g in groups && g.name == v {
      var g :| g in groups && g.name == v;
      var i :| 0 <= i < |groups| && groups[i] == g;
      assert os[i + 1] in os;
    }
    if exists o :: o in os && o.value == v {
      var o :| o in os && o.value == v;
      var i :| 0 <= i < |os| && os[i] == o;
      if i > 0 {
        assert groups[i - 1] in groups;
      }
    }
  }

  /** The component's filter state. */
  class GanttView {
    /** The selected group, "All" for every group. */
    var groupValue: string
    /** The picker's entries, unset until the groups have been fetched. */
    var groupOptions: Option<seq<GroupOption>>

    constructor ()
      ensures groupValue == "All" && groupOptions.None?
    {
      groupValue := "All";
      groupOptions := None;
    }

    /** `updateGroupOptions`: the picker lists the fetched groups. */
    method UpdateGroupOptions(groups: seq<RawGroup>)
      modifies this
      ensures groupOptions == Some(GroupOptions(groups)) && groupValue == old(groupValue)
    {
      groupOptions := Some(GroupOptions(groups));
    }

    /** `handleGroupChange`: the picked value becomes the selected group. */
    method HandleGroupChange(value: string)
      modifies this
      ensures groupValue == value && groupOptions == old(groupOptions)
    {
      if value == "All" {
        groupValue := "All";
      } else {
        groupValue := value;
      }
    }
  }
}
