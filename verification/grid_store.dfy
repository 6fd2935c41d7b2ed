/**
 * The grid store: the client state the grid page renders (projects with their
 * tasks, the keyboard focus, the edit in progress, the project-type menu flag,
 * the last error, the loading flag) and the actions that change it. Each
 * action that talks to the API receives the API's reply as an input: a
 * Success carries the JSON the server sent, a Failure the error message; a
 * failed call records its message and changes nothing else.
 */
module GridStore {
  import opened Wrappers
  import opened Tables
  import opened Schema
  import opened GridState
  import opened GridNav
  import Text

  datatype EditState = EditState(
    isEditing: bool,
    taskId: Option<Id>,
    draftContent: string,
    newTaskProjectId: Option<Id>,
    newTaskPosition: Option<int>,
    insertAfterTaskId: Option<Id>)

  /** The edit state when nothing is being edited. */
  const Cleared := EditState(false, None, "", None, None, None)

  /** JavaScript truthiness of a nullable string. */
  predicate Present(v: Option<string>) {
    v.Some? && v.value != ""
  }

  /** The API call `saveEdit` makes. */
  datatype Request =
    | CreateRequest(projectId: Id, content: string, position: Option<int>)
    | UpdateRequest(taskId: Id, content: string)
    | DeleteRequest(taskId: Id)
    | NoRequest

  /**
   * The branch `saveEdit` takes. A new task with text is created (trimmed, at
   * the position resolved from the task it follows); an existing task with
   * text is updated with the draft as typed; an existing task whose draft is
   * blank is deleted; anything else only closes the editor.
   */
  function SaveRequest(e: EditState, ps: seq<GridProject>): (r: Request)
    ensures r.CreateRequest? <==> Present(e.newTaskProjectId) && Text.Trim(e.draftContent) != ""
    ensures r.CreateRequest? ==>
      && r.projectId == e.newTaskProjectId.value
      && r.content == Text.Trim(e.draftContent)
      && r.position == if Present(e.insertAfterTaskId) then ResolveInsertPosition(ps, r.projectId, e.insertAfterTaskId.value) else None
    ensures r.UpdateRequest? <==> !Present(e.newTaskProjectId) && Present(e.taskId) && Text.Trim(e.draftContent) != ""
    ensures r.UpdateRequest? ==> r == UpdateRequest(e.taskId.value, e.draftContent)
    ensures r.DeleteRequest? <==> Present(e.taskId) && Text.Trim(e.draftContent) == ""
    ensures r.DeleteRequest? ==> r.taskId == e.taskId.value
  {
    var text := Text.Trim(e.draftContent);
    if Present(e.newTaskProjectId) && text != "" then
      var projectId := e.newTaskProjectId.value;
      var position :=
        if Present(e.insertAfterTaskId) then ResolveInsertPosition(ps, projectId, e.insertAfterTaskId.value) else None;
      CreateRequest(projectId, text, position)
    else if Present(e.taskId) && text != "" then UpdateRequest(e.taskId.value, e.draftContent)
    else if Present(e.taskId) && text == "" then DeleteRequest(e.taskId.value)
    else NoRequest
  }

  /**
   * The branches in terms of the draft itself: a draft of white space only
   * deletes an existing task and never creates one, and a created task's text
   * neither starts nor ends with white space.
   */
  lemma SaveRequestByDraft(e: EditState, ps: seq<GridProject>)
    ensures SaveRequest(e, ps).DeleteRequest? <==> Present(e.taskId) && Text.AllWhitespace(e.draftContent)
    ensures SaveRequest(e, ps).NoRequest? <==>
      !Present(e.taskId) && (!Present(e.newTaskProjectId) || Text.AllWhitespace(e.draftContent))
    ensures SaveRequest(e, ps).CreateRequest? ==>
      var c := SaveRequest(e, ps).content;
      c != [] && !Text.IsJsWhitespace(c[0]) && !Text.IsJsWhitespace(c[|c| - 1])
  {
    Text.TrimEmptyIffBlank(e.draftContent);
  }

  /** Where the focus goes after a create: onto the new task, when the refreshed list shows it. */
  function FocusOn(ps: seq<GridProject>, projectId: Id, taskId: Id, nav: Nav): (r: Nav)
    ensures r == nav || (
      && r.topBar == -1
      && 0 <= r.column < |ps| && ps[r.column].info.id == projectId
      && 0 <= r.task < |ps[r.column].tasks| && ps[r.column].tasks[r.task].id == taskId)
    ensures r != nav || ProjectIndex(ps, projectId).None? || TaskIndex(ps[ProjectIndex(ps, projectId).value].tasks, taskId).None?
      || nav == Nav(ProjectIndex(ps, projectId).value, TaskIndex(ps[ProjectIndex(ps, projectId).value].tasks, taskId).value, -1)
    ensures r != nav ==>
      && 0 <= r.column < |ps| && (forall j | 0 <= j < r.column :: ps[j].info.id != projectId)
      && 0 <= r.task < |ps[r.column].tasks| && (forall j | 0 <= j < r.task :: ps[r.column].tasks[j].id != taskId)
  {
    match ProjectIndex(ps, projectId)
    case None => nav
    case Some(i) =>
      match TaskIndex(ps[i].tasks, taskId)
      case None => nav
      case Some(k) => Nav(i, k, -1)
  }

  /** Focusing a task that exists gives a well-formed position. */
  lemma FocusOnIsNavOk(ps: seq<GridProject>, projectId: Id, taskId: Id, nav: Nav)
    requires FocusOn(ps, projectId, taskId, nav) != nav
    ensures NavOk(FocusOn(ps, projectId, taskId, nav), Counts(ps))
  {
    var r := FocusOn(ps, projectId, taskId, nav);
    assert Counts(ps)[r.column] == |ps[r.column].tasks|;
  }

  /** The selection `loadData` makes: the first project, its first task or its title. */
  function FirstSelection(ps: seq<GridProject>): (r: Nav)
    requires |ps| > 0
    ensures NavOk(r, Counts(ps)) && r.column == 0 && r.topBar == -1
    ensures r.task == -1 <==> |ps[0].tasks| == 0
  {
    Nav(0, if |ps[0].tasks| == 0 then -1 else 0, -1)
  }

  class Store {
    var projects: seq<GridProject>
    var nav: Nav
    var edit: EditState
    var loading: bool
    var error: Option<string>
    var showProjectTypeMenu: bool

    constructor ()
      ensures projects == [] && nav == Home && edit == Cleared
      ensures !loading && error == None && !showProjectTypeMenu
    {
      projects := [];
      nav := Home;
      edit := Cleared;
      loading := false;
      error := None;
      showProjectTypeMenu := false;
    }

    // -------------------------------------------------------------------------
    // Grid actions
    // -------------------------------------------------------------------------

    /** `loadData`: replace the projects and, when there are any, select the first. */
    method LoadData(reply: Result<seq<GridProject>, string>)
      modifies this`projects, this`nav, this`loading, this`error
      ensures !loading
      ensures reply.Success? ==>
        && projects == reply.value && error == None
        && nav == if |reply.value| > 0 then FirstSelection(reply.value) else old(nav)
      ensures reply.Failure? ==> projects == old(projects) && nav == old(nav) && error == Some(reply.error)
    {
      loading := true;
      error := None;
      match reply
      case Failure(message) =>
        error := Some(message);
        loading := false;
      case Success(list) =>
        projects := list;
        if |list| > 0 {
          nav := FirstSelection(list);
        }
        loading := false;
    }

    /** `createProject` and `createProjectWithType`: the new project is added last, with no tasks. */
    method CreateProject(reply: Result<ProjectRow, string>) returns (r: Result<ProjectRow, string>)
      modifies this`projects, this`error
      ensures r == reply
      ensures reply.Success? ==> projects == old(projects) + [GridProject(reply.value, [])] && error == old(error)
      ensures reply.Failure? ==> projects == old(projects) && error == Some(reply.error)
    {
      if reply.Failure? {
        error := Some(reply.error);
      } else {
        projects := projects + [GridProject(reply.value, [])];
      }
      r := reply;
    }

    /** `updateProject`: the local copy takes the name, and the description when one was given. */
    method UpdateProject(projectId: Id, name: string, goalDescription: Option<string>, reply: Result<(), string>)
      returns (r: Result<(), string>)
      modifies this`projects, this`error
      ensures r == reply
      ensures reply.Success? ==> projects == Renamed(old(projects), projectId, name, goalDescription) && error == old(error)
      ensures reply.Failure? ==> projects == old(projects) && error == Some(reply.error)
    {
      if reply.Failure? {
        error := Some(reply.error);
      } else {
        projects := Renamed(projects, projectId, name, goalDescription);
      }
      r := reply;
    }

    /** `deleteProject`. */
    method DeleteProject(projectId: Id, reply: Result<(), string>) returns (r: Result<(), string>)
      modifies this`projects, this`error
      ensures r == reply
      ensures reply.Success? ==> projects == WithoutProject(old(projects), projectId) && error == old(error)
      ensures reply.Failure? ==> projects == old(projects) && error == Some(reply.error)
    {
      if reply.Failure? {
        error := Some(reply.error);
      } else {
        projects := WithoutProject(projects, projectId);
      }
      r := reply;
    }

    /**
     * `createTask`: after an insert at a position the project's tasks are
     * reloaded (the server shifted them); after an append the returned task is
     * added and the list sorted by position.
     */
    method CreateTask(projectId: Id, position: Option<int>, reply: Result<TaskRow, string>,
                      reload: Result<seq<TaskRow>, string>) returns (r: Result<TaskRow, string>)
      modifies this`projects, this`error
      ensures r.Success? <==> reply.Success? && (position.Some? ==> reload.Success?)
      ensures r.Success? ==> r.value == reply.value && error == old(error)
      ensures r.Success? && position.Some? ==> projects == WithTasks(old(projects), projectId, reload.value)
      ensures r.Success? && position.None? ==> projects == WithAppended(old(projects), projectId, reply.value)
      ensures r.Failure? ==>
        && projects == old(projects) && error == Some(r.error)
        && r.error == if reply.Failure? then reply.error else reload.error
    {
      if reply.Failure? {
        error := Some(reply.error);
        return Failure(reply.error);
      }
      if position.Some? {
        if reload.Failure? {
          error := Some(reload.error);
          return Failure(reload.error);
        }
        projects := WithTasks(projects, projectId, reload.value);
      } else {
        projects := WithAppended(projects, projectId, reply.value);
      }
      r := Success(reply.value);
    }

    /** `updateTask` and `toggleTask`: the returned task replaces the one with its id. */
    method ApplyTaskReply(taskId: Id, reply: Result<TaskRow, string>) returns (r: Result<(), string>)
      modifies this`projects, this`error
      ensures r.Success? <==> reply.Success?
      ensures reply.Success? ==> projects == Replaced(old(projects), taskId, reply.value) && error == old(error)
      ensures reply.Failure? ==> projects == old(projects) && error == Some(reply.error) && r == Failure(reply.error)
    {
      if reply.Failure? {
        error := Some(reply.error);
        return Failure(reply.error);
      }
      projects := Replaced(projects, taskId, reply.value);
      r := Success(());
    }

    /** `deleteTask`: the task is dropped from every project. */
    method DeleteTask(taskId: Id, reply: Result<(), string>) returns (r: Result<(), string>)
      modifies this`projects, this`error
      ensures r == reply
      ensures reply.Success? ==> projects == WithoutTask(old(projects), taskId) && error == old(error)
      ensures reply.Failure? ==> projects == old(projects) && error == Some(reply.error)
    {
      if reply.Failure? {
        error := Some(reply.error);
      } else {
        projects := WithoutTask(projects, taskId);
      }
      r := reply;
    }

    // -------------------------------------------------------------------------
    // Navigation actions
    // -------------------------------------------------------------------------

    /** `moveRight`: on the last column the project-type menu opens instead. */
    method MoveRight() returns (r: Move)
      modifies this`nav, this`showProjectTypeMenu
      ensures r == NextRight(old(nav), Counts(projects))
      ensures nav == if r.Go? then r.to else old(nav)
      ensures showProjectTypeMenu == (old(showProjectTypeMenu) || r == OpenMenu)
    {
      r := NextRight(nav, Counts(projects));
      match r
      case Go(to) => nav := to;
      case OpenMenu => showProjectTypeMenu := true;
      case TypeError =>
    }

    /** `moveLeft`; a TypeError leaves the position as it was. */
    method MoveLeft() returns (r: Move)
      modifies this`nav
      ensures r == NextLeft(old(nav), Counts(projects))
      ensures nav == if r.Go? then r.to else old(nav)
    {
      r := NextLeft(nav, Counts(projects));
      if r.Go? {
        nav := r.to;
      }
    }

    method MoveDown()
      modifies this`nav
      ensures nav == NextDown(old(nav), Counts(projects))
    {
      nav := NextDown(nav, Counts(projects));
    }

    method MoveUp()
      modifies this`nav
      ensures nav == NextUp(old(nav))
    {
      nav := NextUp(nav);
    }

    method MoveTopBarLeft()
      modifies this`nav
      ensures nav == NextTopBarLeft(old(nav))
    {
      nav := NextTopBarLeft(nav);
    }

    method MoveTopBarRight()
      modifies this`nav
      ensures nav == NextTopBarRight(old(nav))
    {
      nav := NextTopBarRight(nav);
    }

    /** `setPosition`: taken as given, unchecked; the top bar defaults to none. */
    method SetPosition(column: int, task: int, topBar: int := -1)
      modifies this`nav
      ensures nav == Nav(column, task, topBar)
    {
      nav := Nav(column, task, topBar);
    }

    // -------------------------------------------------------------------------
    // Edit actions
    // -------------------------------------------------------------------------

    method StartEdit(taskId: Id, currentContent: string)
      modifies this`edit
      ensures edit == EditState(true, Some(taskId), currentContent, None, None, None)
    {
      edit := EditState(true, Some(taskId), currentContent, None, None, None);
    }

    method StartNewTask(projectId: Id, position: Option<int> := None, insertAfterTaskId: Option<Id> := None)
      modifies this`edit
      ensures edit == EditState(true, None, "", Some(projectId), position, insertAfterTaskId)
    {
      edit := EditState(true, None, "", Some(projectId), position, insertAfterTaskId);
    }

    /** `updateDraft`: only the draft changes here; the autosave it schedules is not part of this model. */
    method UpdateDraft(content: string)
      modifies this`edit
      ensures edit == old(edit).(draftContent := content)
    {
      edit := edit.(draftContent := content);
    }

    method CancelEdit()
      modifies this`edit
      ensures edit == Cleared
    {
      edit := Cleared;
    }

    /**
     * `saveEdit`: make the call `SaveRequest` chooses, apply its reply, and
     * close the editor. A failed call leaves the editor open and records the
     * error. After a create the focus moves onto the new task when the
     * refreshed list shows it.
     */
    method SaveEdit(taskReply: Result<TaskRow, string>, listReply: Result<seq<TaskRow>, string>,
                    deleteReply: Result<(), string>) returns (r: Result<Option<TaskRow>, string>)
      modifies this`projects, this`nav, this`edit, this`error
      ensures r.Failure? ==>
        edit == old(edit) && nav == old(nav) && projects == old(projects) && error == Some(r.error)
      ensures r.Success? ==> edit == Cleared
      ensures SaveRequest(old(edit), old(projects)).NoRequest? ==>
        r == Success(None) && projects == old(projects) && nav == old(nav) && error == old(error)
      ensures SaveRequest(old(edit), old(projects)).UpdateRequest? ==>
        && (r.Success? <==> taskReply.Success?)
        && (r.Failure? ==> r.error == taskReply.error)
        && (r.Success? ==>
          && r.value == None && nav == old(nav) && error == old(error)
          && projects == Replaced(old(projects), SaveRequest(old(edit), old(projects)).taskId, taskReply.value))
      ensures SaveRequest(old(edit), old(projects)).DeleteRequest? ==>
        && (r.Success? <==> deleteReply.Success?)
        && (r.Failure? ==> r.error == deleteReply.error)
        && (r.Success? ==>
          && r.value == None && nav == old(nav) && error == old(error)
          && projects == WithoutTask(old(projects), SaveRequest(old(edit), old(projects)).taskId))
      ensures SaveRequest(old(edit), old(projects)).CreateRequest? ==>
        var req := SaveRequest(old(edit), old(projects));
        && (r.Success? <==> taskReply.Success? && (req.position.Some? ==> listReply.Success?))
        && (r.Failure? ==> r.error == if taskReply.Failure? then taskReply.error else listReply.error)
        && (r.Success? ==>
          && r.value == Some(taskReply.value) && error == old(error)
          && projects == (if req.position.Some? then WithTasks(old(projects), req.projectId, listReply.value)
                          else WithAppended(old(projects), req.projectId, taskReply.value))
          && nav == FocusOn(projects, req.projectId, taskReply.value.id, old(nav)))
    {
      var req := SaveRequest(edit, projects);
      match req
      case CreateRequest(projectId, _, position) =>
        var created := CreateTask(projectId, position, taskReply, listReply);
        if created.Failure? {
          return Failure(created.error);
        }
        nav := FocusOn(projects, projectId, created.value.id, nav);
        edit := Cleared;
        r := Success(Some(created.value));
      case UpdateRequest(taskId, _) =>
        var updated := ApplyTaskReply(taskId, taskReply);
        if updated.Failure? {
          return Failure(updated.error);
        }
        edit := Cleared;
        r := Success(None);
      case DeleteRequest(taskId) =>
        var deleted := DeleteTask(taskId, deleteReply);
        if deleted.Failure? {
          return Failure(deleted.error);
        }
        edit := Cleared;
        r := Success(None);
      case NoRequest =>
        edit := Cleared;
        r := Success(None);
    }
  }
}
