/**
 * The handlers of frontend/app/dashboard/page.tsx: create, save-edit,
 * toggle and delete each call `apiRequest` and, on success, update the
 * task list with a TaskList transform; logout removes the two tokens; the
 * pager moves the current page by one.
 */
module Dashboard {
  import opened Wrappers
  import opened Text
  import opened TaskList
  import opened Http
  import AppApi

  /** The pager range: page 1 when there are no pages, otherwise a page from 1 to `totalPages`. */
  predicate PagerInRange(currentPage: int, totalPages: int)
  {
    1 <= currentPage && (currentPage <= totalPages || currentPage == 1)
  }

  /** Prev: disabled on page 1, otherwise one page back. */
  function PrevPage(currentPage: int): (p: int)
    ensures currentPage == 1 ==> p == currentPage
    ensures currentPage != 1 ==> p == currentPage - 1
  {
    if currentPage == 1 then currentPage else currentPage - 1
  }

  /** Next as written: disabled only when `currentPage === totalPages`. */
  function NextPageAsWritten(currentPage: int, totalPages: int): (p: int)
    ensures p == currentPage || p == currentPage + 1
    ensures p == currentPage <==> currentPage == totalPages
  {
    if currentPage == totalPages then currentPage else currentPage + 1
  }

  /** Next with the guard the pager needs: enabled only while a later page exists. */
  function NextPage(currentPage: int, totalPages: int): (p: int)
    ensures p == currentPage || p == currentPage + 1
    ensures p == currentPage + 1 <==> currentPage < totalPages
  {
    if currentPage < totalPages then currentPage + 1 else currentPage
  }

  /** With no tasks the server reports `totalPages = 0`, and Next as written leaves the range. */
  lemma NextAsWrittenLeavesRange()
    ensures PagerInRange(1, 0) && !PagerInRange(NextPageAsWritten(1, 0), 0)
  {
  }

  /** Prev and the corrected Next keep the current page in range. */
  lemma {:induction false} PagerStaysInRange(currentPage: int, totalPages: int)
    requires PagerInRange(currentPage, totalPages)
    ensures PagerInRange(PrevPage(currentPage), totalPages)
    ensures PagerInRange(NextPage(currentPage, totalPages), totalPages)
  {
  }

  /** The endpoint of one task: `/tasks/${id}`. */
  function TaskPath(id: int): (s: string)
    ensures |s| >= 8 && s[..7] == "/tasks/"
    ensures id >= 0 ==> (forall k :: 7 <= k < |s| ==> '0' <= s[k] <= '9') && DecimalValue(s[7..]) == id
    ensures id < 0 ==> s[7] == '-' && (forall k :: 8 <= k < |s| ==> '0' <= s[k] <= '9') && DecimalValue(s[8..]) == -id
  {
    var digits := IntToString(id);
    var s := "/tasks/" + digits;
    assert s[7..] == digits;
    assert id < 0 ==> s[8..] == digits[1..];
    s
  }

  /** The `POST /tasks` options of `handleCreateTask`. */
  function CreateInit(title: string, description: string, token: string): Init
  {
    Init(Some("POST"), map[ContentType := Json, Authorization := Bearer(token)], TaskBody(title, description))
  }

  /** The `PATCH /tasks/:id` options of save, with the stored token as a template string renders it. */
  function SaveInit(editTitle: string, editDescription: string, token: Option<string>): Init
  {
    Init(Some("PATCH"), map[ContentType := Json, Authorization := Bearer(JsString(token, "null"))],
         TaskBody(editTitle, editDescription))
  }

  /** The bodiless options of toggle (`PATCH`) and delete (`DELETE`). */
  function BareInit(verb: string, token: Option<string>): Init
  {
    Init(Some(verb), map[Authorization := Bearer(JsString(token, "null"))], NoPayload)
  }

  class DashboardPage {
    var tasks: seq<ClientTask>
    var title: string
    var description: string
    var search: string
    var filter: string
    var currentPage: int
    var totalPages: int
    var editingId: Option<int>
    var editTitle: string
    var editDescription: string

    /** The initial `useState` values. */
    constructor ()
      ensures tasks == [] && title == "" && description == "" && search == "" && filter == "all"
      ensures currentPage == 1 && totalPages == 1 && editingId == None
      ensures editTitle == "" && editDescription == ""
    {
      tasks := [];
      title := "";
      description := "";
      search := "";
      filter := "all";
      currentPage := 1;
      totalPages := 1;
      editingId := None;
      editTitle := "";
      editDescription := "";
    }

    /** The list as rendered: the status filter, then the search. */
    function Shown(): (r: seq<ClientTask>)
      reads this
      ensures forall t :: t in r <==> t in tasks && PassesStatus(t, filter) && PassesSearch(t, search)
    {
      Visible(tasks, filter, search)
    }

    /**
     * `handleCreateTask`: nothing is sent when the title is blank or no
     * access token is stored; on success the created task is prepended
     * unless a task with its id is already listed.
     */
    method HandleCreateTask(b: Browser, server: Server, baseUrl: string)
      modifies this, b
      ensures Trim(old(title)) == "" || !Truthy(GetItem(old(b.storage), "accessToken")) ==>
        && b.sent == old(b.sent) && b.storage == old(b.storage) && b.location == old(b.location)
        && tasks == old(tasks) && title == old(title) && description == old(description)
      ensures Trim(old(title)) != "" && Truthy(GetItem(old(b.storage), "accessToken")) ==>
        var token := GetItem(old(b.storage), "accessToken").value;
        var e := AppApi.Protocol(server, |old(b.sent)|, old(b.storage), old(b.location), baseUrl, "/tasks",
                                 CreateInit(old(title), old(description), token));
        var created := Ok(e.reply) && e.reply.task.Some?;
        && b.sent == old(b.sent) + e.requests && b.storage == e.storage && b.location == e.location
        && tasks == (if created then InsertUnique(old(tasks), e.reply.task.value) else old(tasks))
        && (created ==> title == "" && description == "")
        && (!created ==> title == old(title) && description == old(description))
      ensures DistinctIds(old(tasks)) ==> DistinctIds(tasks)
      ensures search == old(search) && filter == old(filter) && currentPage == old(currentPage)
      ensures totalPages == old(totalPages) && editingId == old(editingId)
      ensures editTitle == old(editTitle) && editDescription == old(editDescription)
    {
      if Trim(title) == "" {
        return;
      }
      var token := GetItem(b.storage, "accessToken");
      if !Truthy(token) {
        return;
      }
      PostTask(b, server, baseUrl, token.value);
    }

    /** The request of `handleCreateTask` once both guards have passed. */
    method PostTask(b: Browser, server: Server, baseUrl: string, token: string)
      modifies this, b
      ensures var e := AppApi.Protocol(server, |old(b.sent)|, old(b.storage), old(b.location), baseUrl, "/tasks",
                                       CreateInit(old(title), old(description), token));
        var created := Ok(e.reply) && e.reply.task.Some?;
        && b.sent == old(b.sent) + e.requests && b.storage == e.storage && b.location == e.location
        && tasks == (if created then InsertUnique(old(tasks), e.reply.task.value) else old(tasks))
        && (created ==> title == "" && description == "")
        && (!created ==> title == old(title) && description == old(description))
      ensures DistinctIds(old(tasks)) ==> DistinctIds(tasks)
      ensures search == old(search) && filter == old(filter) && currentPage == old(currentPage)
      ensures totalPages == old(totalPages) && editingId == old(editingId)
      ensures editTitle == old(editTitle) && editDescription == old(editDescription)
    {
      var res := AppApi.ApiRequest(b, server, baseUrl, "/tasks", CreateInit(title, description, token));
      ApplyCreated(res);
    }

    /** A created task is prepended unless already listed, and the form is cleared. */
    method ApplyCreated(res: Response)
      modifies this
      ensures Ok(res) && res.task.Some? ==>
        tasks == InsertUnique(old(tasks), res.task.value) && title == "" && description == ""
      ensures !(Ok(res) && res.task.Some?) ==> tasks == old(tasks) && title == old(title) && description == old(description)
      ensures search == old(search) && filter == old(filter) && currentPage == old(currentPage)
      ensures totalPages == old(totalPages) && editingId == old(editingId)
      ensures editTitle == old(editTitle) && editDescription == old(editDescription)
    {
      if Ok(res) && res.task.Some? {
        tasks := InsertUnique(tasks, res.task.value);
        title := "";
        description := "";
      }
    }

    /** Save in edit mode: on success the server's copy replaces the entry with that id. */
    method SaveEdit(b: Browser, server: Server, baseUrl: string, task: ClientTask)
      modifies this, b
      ensures var e := AppApi.Protocol(server, |old(b.sent)|, old(b.storage), old(b.location), baseUrl, TaskPath(task.id),
                                       SaveInit(old(editTitle), old(editDescription), GetItem(old(b.storage), "accessToken")));
        && b.sent == old(b.sent) + e.requests && b.storage == e.storage && b.location == e.location
        && tasks == (if Ok(e.reply) && e.reply.task.Some? then ReplaceById(old(tasks), task.id, e.reply.task.value) else old(tasks))
        && editingId == (if Ok(e.reply) then None else old(editingId))
      ensures |tasks| == |old(tasks)|
      ensures title == old(title) && description == old(description) && search == old(search)
      ensures filter == old(filter) && currentPage == old(currentPage) && totalPages == old(totalPages)
      ensures editTitle == old(editTitle) && editDescription == old(editDescription)
    {
      var token := GetItem(b.storage, "accessToken");
      var res := AppApi.ApiRequest(b, server, baseUrl, TaskPath(task.id), SaveInit(editTitle, editDescription, token));
      ApplySaved(res, task.id);
    }

    /** On success the edit mode ends, and the server's copy, when sent, replaces the entry. */
    method ApplySaved(res: Response, id: int)
      modifies this
      ensures Ok(res) && res.task.Some? ==> tasks == ReplaceById(old(tasks), id, res.task.value)
      ensures !(Ok(res) && res.task.Some?) ==> tasks == old(tasks)
      ensures Ok(res) ==> editingId == None
      ensures !Ok(res) ==> editingId == old(editingId)
      ensures title == old(title) && description == old(description) && search == old(search)
      ensures filter == old(filter) && currentPage == old(currentPage) && totalPages == old(totalPages)
      ensures editTitle == old(editTitle) && editDescription == old(editDescription)
    {
      if Ok(res) {
        if res.task.Some? {
          tasks := ReplaceById(tasks, id, res.task.value);
        }
        editingId := None;
      }
    }

    /**
     * Toggle: on success the server's copy replaces the entry with that id
     * and the list is re-sorted pending-first.
     */
    method Toggle(b: Browser, server: Server, baseUrl: string, task: ClientTask)
      modifies this, b
      ensures var e := AppApi.Protocol(server, |old(b.sent)|, old(b.storage), old(b.location), baseUrl,
                                       TaskPath(task.id) + "/toggle", BareInit("PATCH", GetItem(old(b.storage), "accessToken")));
        && b.sent == old(b.sent) + e.requests && b.storage == e.storage && b.location == e.location
        && tasks == (if Ok(e.reply) && e.reply.task.Some? then ToggleUpdate(old(tasks), task.id, e.reply.task.value) else old(tasks))
      ensures title == old(title) && description == old(description) && search == old(search)
      ensures filter == old(filter) && currentPage == old(currentPage) && totalPages == old(totalPages)
      ensures editingId == old(editingId)
      ensures editTitle == old(editTitle) && editDescription == old(editDescription)
    {
      var token := GetItem(b.storage, "accessToken");
      var res := AppApi.ApiRequest(b, server, baseUrl, TaskPath(task.id) + "/toggle", BareInit("PATCH", token));
      ApplyToggled(res, task.id);
    }

    method ApplyToggled(res: Response, id: int)
      modifies this
      ensures Ok(res) && res.task.Some? ==> tasks == ToggleUpdate(old(tasks), id, res.task.value)
      ensures !(Ok(res) && res.task.Some?) ==> tasks == old(tasks)
      ensures title == old(title) && description == old(description) && search == old(search)
      ensures filter == old(filter) && currentPage == old(currentPage) && totalPages == old(totalPages)
      ensures editingId == old(editingId)
      ensures editTitle == old(editTitle) && editDescription == old(editDescription)
    {
      if Ok(res) && res.task.Some? {
        tasks := ToggleUpdate(tasks, id, res.task.value);
      }
    }

    /** Delete: on success every entry with that id leaves the list. */
    method Delete(b: Browser, server: Server, baseUrl: string, task: ClientTask)
      modifies this, b
      ensures var e := AppApi.Protocol(server, |old(b.sent)|, old(b.storage), old(b.location), baseUrl,
                                       TaskPath(task.id), BareInit("DELETE", GetItem(old(b.storage), "accessToken")));
        && b.sent == old(b.sent) + e.requests && b.storage == e.storage && b.location == e.location
        && tasks == (if Ok(e.reply) then RemoveId(old(tasks), task.id) else old(tasks))
      ensures title == old(title) && description == old(description) && search == old(search)
      ensures filter == old(filter) && currentPage == old(currentPage) && totalPages == old(totalPages)
      ensures editingId == old(editingId)
      ensures editTitle == old(editTitle) && editDescription == old(editDescription)
    {
      var token := GetItem(b.storage, "accessToken");
      var res := AppApi.ApiRequest(b, server, baseUrl, TaskPath(task.id), BareInit("DELETE", token));
      ApplyDeleted(res, task.id);
    }

    method ApplyDeleted(res: Response, id: int)
      modifies this
      ensures Ok(res) ==> tasks == RemoveId(old(tasks), id)
      ensures !Ok(res) ==> tasks == old(tasks)
      ensures title == old(title) && description == old(description) && search == old(search)
      ensures filter == old(filter) && currentPage == old(currentPage) && totalPages == old(totalPages)
      ensures editingId == old(editingId)
      ensures editTitle == old(editTitle) && editDescription == old(editDescription)
    {
      if Ok(res) {
        tasks := RemoveId(tasks, id);
      }
    }

    /** Logout: only the two tokens leave storage; the page then goes to `/`. */
    method Logout(b: Browser)
      modifies b
      ensures b.storage == old(b.storage) - {"accessToken", "refreshToken"}
      ensures b.location == "/" && b.sent == old(b.sent)
    {
      b.storage := b.storage - {"accessToken", "refreshToken"};
      b.location := "/";
    }

    method Prev()
      modifies this
      ensures currentPage == PrevPage(old(currentPage))
      ensures tasks == old(tasks) && totalPages == old(totalPages)
      ensures title == old(title) && description == old(description) && search == old(search) && filter == old(filter)
      ensures editingId == old(editingId) && editTitle == old(editTitle) && editDescription == old(editDescription)
    {
      if currentPage == 1 {
        return;
      }
      currentPage := currentPage - 1;
    }

    /** Next as the page has it: disabled only when `currentPage === totalPages`. */
    method Next()
      modifies this
      ensures currentPage == NextPageAsWritten(old(currentPage), old(totalPages))
      ensures tasks == old(tasks) && totalPages == old(totalPages)
      ensures title == old(title) && description == old(description) && search == old(search) && filter == old(filter)
      ensures editingId == old(editingId) && editTitle == old(editTitle) && editDescription == old(editDescription)
    {
      if currentPage == totalPages {
        return;
      }
      currentPage := currentPage + 1;
    }
  }
}
