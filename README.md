# salesforce-gantt: the data pipeline of the Gantt component, in Dafny

The Lightning web component `gantt` turns the Salesforce records returned by
the Apex controller (projects with their project group, project tasks and
Gantt links) into the `{ data, links }` payload that the dhtmlx timeline
parses. Along the way it does three things:

- it adds a start and an end milestone to every project that has no tasks
  and has both dates;
- it colours each direct child of a project with the project group's
  colour, lightened by 50 per channel;
- it filters the displayed nodes by the project group chosen in a picker.

This project models that pipeline and proves what each step promises.

- `records.dfy` (`Records`): the raw records, the timeline's nodes and
  links, and `TaskList`. `TaskList` is the mutable `tasks` array, which
  mockProjectStartEnd pushes onto and colorTasks recolours in place.
- `normalize.dfy` (`Normalize`): `unwrapProjects`, `unwrapTasks` and the
  link map of `unwrap`.
- `milestones.dfy` (`Milestones`): `mockProjectStartEnd`, written as the
  imperative method it is, with its two loops. It is proved against a
  specification function, and the lemmas beside it state which projects
  get milestones.
- `colors.dfy` (`Colors`): `lightenDarkenColor`. The model parses base-16
  digits, clamps each byte, repacks the bytes and prints the result the way
  `toString(16)` does: lower case, with no zero padding.
- `coloring.dfy` (`Coloring`): `colorTasks`, as nested loops over the task
  list. It is proved against a fold over the projects, and that fold is
  proved equal to a task-by-task reference definition (`Supplier`).
- `pipeline.dfy` (`Pipeline`): `unwrap` as a whole. `TryUnwrap` makes
  explicit the two ways the source fails on records it dereferences without
  a check.
- `display.dfy` (`Display`): the `onBeforeTaskDisplay` filter, the group
  picker's options and the component's `groupValue` state.

The payload of `unwrap` is modelled with these conventions:

- Dates are opaque strings and are only copied. A missing date (`null`) is
  `None`.
- A node's missing `parent` is `None`. The timeline places such a node
  under its root, id 0.

## Model

| member | source | states |
|---|---|---|
| Normalize.UnwrapProjects | force-app/main/default/lwc/gantt/gantt.js:34-44 | one node per project, in order: id, name, start and due date copied; no parent; type project; `project_group` is the group's name; `color` is the group's `Gantt_Colour__c`, or "" when that is null |
| Normalize.UnwrapTasks | force-app/main/default/lwc/gantt/gantt.js:46-55 | one node per task, in order: id, name, start and current due date copied; type task; the parent is `Parent__c` when set, and otherwise the related project's id |
| Normalize.UnwrapLinks | force-app/main/default/lwc/gantt/gantt.js:24-29 | one link per record, in order, with `Id`, `Source__c`, `Target__c` and `Type__c` carried over to `id`, `source`, `target` and `type` |
| Milestones.MockProjectStartEnd | force-app/main/default/lwc/gantt/gantt.js:57-90 | the two loops leave the task list equal to its entry value followed by the milestones of each project, in project order; the first loop's `projectIds` holds exactly the parents of the tasks present on entry |
| Milestones.MilestonesAppend | force-app/main/default/lwc/gantt/gantt.js:65-89 | the projects are handled one after another, in list order: the milestones of a concatenation are the milestones of each part, concatenated |
| Milestones.MilestoneShape | force-app/main/default/lwc/gantt/gantt.js:66-87 | every pushed node is the start or the end milestone of a project that needed them: type milestone, parent the project, id the project id plus `_start_task` or `_end_task`, text "Project Start" or "Project End", start equal to end, and equal to the project's start or end date, which is set |
| Milestones.MilestonesOfProject | force-app/main/default/lwc/gantt/gantt.js:65-89 | with distinct project ids, the pushed nodes under project j are exactly what the loop pushed for project j |
| Milestones.MockProjectStartEndSpec | force-app/main/default/lwc/gantt/gantt.js:57-90 | the tasks on entry stay an unchanged prefix; with distinct project ids, a project gets exactly its start and then its end milestone when no task present on entry has it as parent and both its dates are set, and nothing otherwise |
| Colors.ParseHex | force-app/main/default/lwc/gantt/gantt.js:112 | the base-16 value of k hexadecimal digits is below 16^k; on the six digits lightenDarkenColor reads, this value is what `parseInt(_, 16)` returns |
| Colors.ToHex | force-app/main/default/lwc/gantt/gantt.js:126 | `toString(16)` prints at least one lower-case digit, with no leading zero |
| Colors.ParseToHex | force-app/main/default/lwc/gantt/gantt.js:112-126 | parsing what `toString(16)` printed gives the number back |
| Colors.ToHexParse | force-app/main/default/lwc/gantt/gantt.js:112-126 | printing the value of a canonical digit string gives the string back |
| Colors.Clamp | force-app/main/default/lwc/gantt/gantt.js:114-124 | the clamped channel lies in [0, 255]; it equals the input inside that range, is 255 above it and 0 below it |
| Colors.PackBytes | force-app/main/default/lwc/gantt/gantt.js:126 | `g \| (b << 8) \| (r << 16)` of three bytes puts each byte back in its position, below 2^24 |
| Colors.BytesDetermine | force-app/main/default/lwc/gantt/gantt.js:114-126 | a value below 2^24 is determined by its three bytes |
| Colors.Shade | force-app/main/default/lwc/gantt/gantt.js:112-126 | every byte of the result is the byte in the same position plus `amount`, clamped to [0, 255], and the result stays below 2^24 |
| Colors.LightenDarkenColor | force-app/main/default/lwc/gantt/gantt.js:104-127 | the result is non-empty and starts with '#' exactly when the input did |
| Colors.LightenDarkenCanonical | force-app/main/default/lwc/gantt/gantt.js:126 | the digits of the result are lower case and unpadded, as `toString(16)` prints them |
| Colors.LightenDarkenChannels | force-app/main/default/lwc/gantt/gantt.js:104-127 | the result's digits read back as a value whose three bytes are the input's bytes shifted by `amount` and clamped |
| Colors.LightenDarkenZero | force-app/main/default/lwc/gantt/gantt.js:104-127 | with amount 0 the colour's value is unchanged |
| Colors.LightenedIsColorLiteral | force-app/main/default/lwc/gantt/gantt.js:104-127 | with amount at least 16, as colorTasks uses, the result is again six digits after the optional '#' |
| Colors.GreyExample | force-app/main/default/lwc/gantt/gantt.js:104-127 | `#808080` lightened by 50 is `#b2b2b2` |
| Coloring.ColoredTasks | force-app/main/default/lwc/gantt/gantt.js:92-102 | colouring keeps the length of the task list |
| Coloring.Supplier | force-app/main/default/lwc/gantt/gantt.js:92-102 | the project a node takes its colour from is the last project with a non-empty colour whose id is the node's parent; there is none when no such project exists |
| Coloring.PaintChildren | force-app/main/default/lwc/gantt/gantt.js:95-99 | the inner loop sets the colour of exactly the tasks whose parent is the project, leaving every other task as it was |
| Coloring.ColorTasks | force-app/main/default/lwc/gantt/gantt.js:92-102 | the nested loops leave the task list equal to the fold of the inner loop over the projects, in order |
| Coloring.ColoredTasksAt | force-app/main/default/lwc/gantt/gantt.js:92-102 | after colorTasks each node differs from its entry value at most in its colour; it takes the supplying project's colour lightened by 50, and is unchanged when there is no supplier |
| Coloring.ColoredChild | force-app/main/default/lwc/gantt/gantt.js:92-102 | with distinct project ids, a node whose parent is project j gets `lightenDarkenColor(color, 50)` of project j's colour when that colour is not empty, and is unchanged otherwise |
| Coloring.ColoredOrphan | force-app/main/default/lwc/gantt/gantt.js:92-102 | a node whose parent is no project with a colour, such as a task under another task, is unchanged |
| Coloring.PaintedColoursAreLiterals | force-app/main/default/lwc/gantt/gantt.js:92-102 | every colour colorTasks writes is a colour literal again |
| Pipeline.Unwrap | force-app/main/default/lwc/gantt/gantt.js:16-32 | the payload is the projects followed by the task list after mockProjectStartEnd and then colorTasks, plus the mapped links |
| Pipeline.FirstUngrouped | force-app/main/default/lwc/gantt/gantt.js:34-44 | the index of the first project without a group, and none exactly when every project has one |
| Pipeline.FirstOrphan | force-app/main/default/lwc/gantt/gantt.js:46-55 | the index of the first task with neither a parent task nor a project, and none exactly when every task has one |
| Pipeline.TryUnwrap | force-app/main/default/lwc/gantt/gantt.js:16-55 | unwrap succeeds exactly when every project has a group and every task a parent task or a project, and then returns the payload; otherwise it reports the first project without a group, or failing that the first task without a parent |
| Pipeline.UnwrappedLayout | force-app/main/default/lwc/gantt/gantt.js:16-32 | the payload holds the projects first and unchanged, then as many nodes as there are tasks and milestones, and one link per link record |
| Pipeline.UnwrappedProject | force-app/main/default/lwc/gantt/gantt.js:34-44 | the first nodes of the payload are the projects, at the root, with their group's name |
| Pipeline.UnwrappedChild | force-app/main/default/lwc/gantt/gantt.js:16-102 | every later node, task or milestone, has a parent and no group |
| Pipeline.UnwrappedTask | force-app/main/default/lwc/gantt/gantt.js:46-55 | the node of task i in the payload keeps the record's id, name, dates and parent rule |
| Pipeline.UnwrappedTaskColour | force-app/main/default/lwc/gantt/gantt.js:92-102 | with distinct project ids, the node of a task under project j has the group colour that unwrapProjects copied at line 41, lightened by 50 by colorTasks, or no colour when the group colour is empty |
| Pipeline.ColoredMilestone | force-app/main/default/lwc/gantt/gantt.js:20-21 | with distinct project ids, after both steps, every node past the tasks is a milestone of a project that needed them, and carries that project's tint when it has a colour |
| Display.GroupOf | force-app/main/default/lwc/gantt/gantt.js:299 | `getTask(id).project_group`: a group found belongs to some node with that id, and an id that no node has gives none |
| Display.GroupOfDistinct | force-app/main/default/lwc/gantt/gantt.js:299 | with distinct ids, `getTask(id).project_group` is the group of the one node with that id, and None when no node has it |
| Display.Visible | force-app/main/default/lwc/gantt/gantt.js:295-304 | the `onBeforeTaskDisplay` handler: with "All" selected every node is shown, and so is a node of the selected group; any other node is shown only when some node with its parent's id is in the selected group, and, with distinct ids, it is then shown |
| Display.VisibleInPayload | force-app/main/default/lwc/gantt/gantt.js:295-304 | on the payload, with distinct node ids and a group other than "All" selected, a project is shown exactly when it is in the group; a task or milestone is shown exactly when its parent is a project in the group, so a task under another task is hidden |
| Display.GroupOptions | force-app/main/default/lwc/gantt/gantt.js:165-175 | the picker's entries: "Show All" with value "All" first, then one entry per group, in order, with the group's name as label and as value |
| Display.GroupOptionsSpec | force-app/main/default/lwc/gantt/gantt.js:164-175 | the selectable values of the picker are exactly "All" and the group names |
| Display.GanttView.constructor | force-app/main/default/lwc/gantt/gantt.js:134-178 | the selected group starts as "All" and the options are unset |
| Display.GanttView.UpdateGroupOptions | force-app/main/default/lwc/gantt/gantt.js:164-175 | the options become the picker entries of the fetched groups, and the selection is kept |
| Display.GanttView.HandleGroupChange | force-app/main/default/lwc/gantt/gantt.js:179-188 | the picked value becomes the selected group, and the options are kept |

## Left out

- The data processor callbacks that create, update and delete records
  (gantt.js:326-378) are left out. They are calls into the Salesforce record
  API.
- The Apex calls (`getGanttData`, `getGanttProjectGroups`) are left out.
  Their results are the inputs of `Unwrap` and `UpdateGroupOptions`.
- Script and style loading, toasts, navigation on click, `initializeUI`, the
  zoom configuration, and the zoom and scale handlers are left out. They
  are UI wiring with no data logic. So is `gantt.refreshData()` after a
  group change.
- Dates are left out. They are never parsed or compared, only copied and
  tested for null.
- Normalize.UnwrapProjects requires every project to have a group. The
  source reads `Gantt_Colour__c` through the group without a check at
  line 41, although it checks the group at line 40. Pipeline.TryUnwrap models
  the failure as an error result.
- Normalize.UnwrapTasks requires every task to have a parent task or a
  project. The source reads the project's `Id` without a check (line 52).
  Pipeline.TryUnwrap models this failure too.
- Colors.ParseHex is exact base-16 evaluation. It differs from
  `parseInt(_, 16)` on the empty string, which gives NaN there and 0 here,
  and past 13 digits, where `parseInt` rounds to a double. Neither case
  reaches it from lightenDarkenColor, which always passes six digits.
- Colors.LightenDarkenColor requires a colour literal: six hexadecimal
  digits after an optional '#'. The model does not follow `parseInt` and the
  shifts on other strings: NaN, trailing garbage, or more than 24 bits,
  where `>> 16` would keep the high bits.
- Coloring.ColorTasks requires every project colour to be present, as
  unwrapProjects makes it. A missing colour would pass the `!= ""` test and
  make lightenDarkenColor fail.
- Coloring.ColoredChild, Pipeline.UnwrappedTaskColour,
  Pipeline.ColoredMilestone, Milestones.MilestonesOfProject and
  Milestones.MockProjectStartEndSpec assume distinct project ids, and
  Display.VisibleInPayload assumes distinct node ids in the payload, as
  Salesforce record ids are. Without that,
  the last project with an id wins; `Supplier` and `ColoredTasksAt` state
  that case.
- Display.GroupOf treats a parent id that has no node as having no group.
  The timeline's `getTask` would report the missing task, and the handler
  would fail when it reads the group.
- JavaScript's loose comparisons are not modelled: `task.parent != 0` on
  ids such as "0" is not followed. Ids and groups are compared as strings.
  As in the source, which compares with null only, an empty `Parent__c`
  counts as a parent task and an empty date counts as a set date.
