/**
 * The list transforms inside the `setTasks` callbacks of
 * frontend/app/dashboard/page.tsx: the de-duplicating prepend after a
 * create, replace-by-id after an edit, replace-then-sort after a toggle,
 * delete-by-id, and the status/search view filter.
 */
module TaskList {
  import opened Wrappers
  import opened Text

  /** The client's `Task` interface; `description?` is optional. */
  datatype ClientTask = ClientTask(id: int, title: string, description: Option<string>, status: string)

  const Pending := "pending"
  const Completed := "completed"

  /** `Array.prototype.filter`. */
  function Filter<T(!new)>(s: seq<T>, keep: T -> bool): (r: seq<T>)
    ensures |r| <= |s|
    ensures forall x :: x in r <==> x in s && keep(x)
  {
    if s == [] then []
    else
      var rest := Filter(s[1..], keep);
      assert forall x :: x in s <==> x == s[0] || x in s[1..];
      if keep(s[0]) then [s[0]] + rest else rest
  }

  /** `r` is `s` with some elements dropped and the rest kept in order. */
  ghost predicate IsSubsequence<T>(r: seq<T>, s: seq<T>)
    decreases |s|
  {
    if s == [] then r == []
    else (r != [] && r[0] == s[0] && IsSubsequence(r[1..], s[1..])) || IsSubsequence(r, s[1..])
  }

  /** Filtering keeps the surviving elements in their order. */
  lemma {:induction false} FilterIsSubsequence<T(!new)>(s: seq<T>, keep: T -> bool)
    ensures IsSubsequence(Filter(s, keep), s)
  {
    if s != [] {
      FilterIsSubsequence(s[1..], keep);
      if keep(s[0]) {
        assert Filter(s, keep)[1..] == Filter(s[1..], keep);
      }
    }
  }

  lemma {:induction false} SubsequenceTransitive<T>(a: seq<T>, b: seq<T>, c: seq<T>)
    requires IsSubsequence(a, b) && IsSubsequence(b, c)
    ensures IsSubsequence(a, c)
    decreases |c|
  {
    if c == [] {
    } else if IsSubsequence(b, c[1..]) {
      SubsequenceTransitive(a, b, c[1..]);
    } else {
      assert b != [] && b[0] == c[0] && IsSubsequence(b[1..], c[1..]);
      if a != [] && a[0] == b[0] && IsSubsequence(a[1..], b[1..]) {
        SubsequenceTransitive(a[1..], b[1..], c[1..]);
      } else {
        assert IsSubsequence(a, b[1..]);
        SubsequenceTransitive(a, b[1..], c[1..]);
      }
    }
  }

  /** `prev.some((t) => t.id === id)`. */
  predicate HasId(s: seq<ClientTask>, id: int)
  {
    exists i :: 0 <= i < |s| && s[i].id == id
  }

  /** No two entries share an id (React's list keys). */
  ghost predicate DistinctIds(s: seq<ClientTask>)
  {
    forall i, j :: 0 <= i < j < |s| ==> s[i].id != s[j].id
  }

  /**
   * After a create: the list is left alone when a task with that id is
   * already shown; otherwise the new task goes in front.
   */
  function InsertUnique(prev: seq<ClientTask>, task: ClientTask): (r: seq<ClientTask>)
    ensures HasId(prev, task.id) ==> r == prev
    ensures !HasId(prev, task.id) ==> r == [task] + prev
    ensures DistinctIds(prev) ==> DistinctIds(r)
    ensures HasId(r, task.id)
  {
    if HasId(prev, task.id) then prev
    else
      var r := [task] + prev;
      assert r[0] == task;
      r
  }

  /** Inserting the same task twice is the same as inserting it once. */
  lemma InsertUniqueIdempotent(prev: seq<ClientTask>, task: ClientTask)
    ensures InsertUnique(InsertUnique(prev, task), task) == InsertUnique(prev, task)
  {
  }

  /** `prev.map((t) => t.id === id ? task : t)`. */
  function ReplaceById(prev: seq<ClientTask>, id: int, task: ClientTask): (r: seq<ClientTask>)
    ensures |r| == |prev|
    ensures forall i :: 0 <= i < |prev| && prev[i].id == id ==> r[i] == task
    ensures forall i :: 0 <= i < |prev| && prev[i].id != id ==> r[i] == prev[i]
  {
    if prev == [] then []
    else [if prev[0].id == id then task else prev[0]] + ReplaceById(prev[1..], id, task)
  }

  /** Replacing an entry by a task with the same id keeps the ids distinct. */
  lemma ReplaceKeepsIdsDistinct(prev: seq<ClientTask>, task: ClientTask)
    requires DistinctIds(prev)
    ensures DistinctIds(ReplaceById(prev, task.id, task))
    ensures HasId(ReplaceById(prev, task.id, task), task.id) <==> HasId(prev, task.id)
  {
    var r := ReplaceById(prev, task.id, task);
    forall i, j | 0 <= i < j < |r| ensures r[i].id != r[j].id {
      assert r[i].id == prev[i].id && r[j].id == prev[j].id;
    }
    if HasId(prev, task.id) {
      var i :| 0 <= i < |prev| && prev[i].id == task.id;
      assert r[i].id == task.id;
    }
    if HasId(r, task.id) {
      var i :| 0 <= i < |r| && r[i].id == task.id;
      assert prev[i].id == task.id;
    }
  }

  /** The comparator of the toggle's `sort`: "pending" before anything else. */
  function Compare(a: ClientTask, b: ClientTask): (c: int)
    ensures c == 0 <==> a.status == b.status
    ensures c < 0 <==> a.status != b.status && a.status == Pending
  {
    if a.status == b.status then 0
    else if a.status == Pending then -1
    else 1
  }

  /** Puts `x` before the first element it does not sort after, keeping equal elements in order. */
  function InsertByStatus(x: ClientTask, s: seq<ClientTask>): (r: seq<ClientTask>)
    ensures multiset(r) == multiset(s) + multiset{x}
  {
    if s == [] then [x]
    else if Compare(x, s[0]) <= 0 then [x] + s
    else
      assert s == [s[0]] + s[1..];
      [s[0]] + InsertByStatus(x, s[1..])
  }

  /**
   * `updated.sort(comparator)`: a stable sort (as ECMAScript 2019 requires
   * of `Array.prototype.sort`), written as an insertion sort.
   */
  function SortByStatus(s: seq<ClientTask>): (r: seq<ClientTask>)
    ensures multiset(r) == multiset(s)
  {
    if s == [] then []
    else
      assert s == [s[0]] + s[1..];
      InsertByStatus(s[0], SortByStatus(s[1..]))
  }

  predicate IsPending(t: ClientTask) { t.status == Pending }

  predicate IsNotPending(t: ClientTask) { t.status != Pending }

  /** Every status is "pending" or "completed", the two values the task handlers write by default and by toggling. */
  ghost predicate KnownStatuses(s: seq<ClientTask>)
  {
    forall i :: 0 <= i < |s| ==> s[i].status == Pending || s[i].status == Completed
  }

  /** Inserting into a pending block followed by a completed block. */
  lemma {:induction false} InsertIntoSplit(x: ClientTask, p: seq<ClientTask>, c: seq<ClientTask>)
    requires x.status == Pending || x.status == Completed
    requires forall i :: 0 <= i < |p| ==> p[i].status == Pending
    requires forall i :: 0 <= i < |c| ==> c[i].status == Completed
    ensures InsertByStatus(x, p + c) == if x.status == Pending then [x] + p + c else p + ([x] + c)
  {
    if p == [] {
      assert p + c == c;
    } else if x.status == Pending {
      assert (p + c)[0] == p[0];
    } else {
      assert (p + c)[0] == p[0];
      assert (p + c)[1..] == p[1..] + c;
      InsertIntoSplit(x, p[1..], c);
      assert p == [p[0]] + p[1..];
    }
  }

  /** With known statuses, the non-pending tasks are the completed ones. */
  lemma FilterBlocks(s: seq<ClientTask>)
    requires KnownStatuses(s)
    ensures forall i :: 0 <= i < |Filter(s, IsPending)| ==> Filter(s, IsPending)[i].status == Pending
    ensures forall i :: 0 <= i < |Filter(s, IsNotPending)| ==> Filter(s, IsNotPending)[i].status == Completed
  {
    var p := Filter(s, IsPending);
    var c := Filter(s, IsNotPending);
    forall i | 0 <= i < |p| ensures p[i].status == Pending {
      assert p[i] in p;
    }
    forall i | 0 <= i < |c| ensures c[i].status == Completed {
      assert c[i] in c;
      var k :| 0 <= k < |s| && s[k] == c[i];
    }
  }

  /**
   * With every status "pending" or "completed", the stable sort puts the
   * pending tasks first and the completed ones after, each group in its
   * original order.
   */
  lemma {:induction false} SortSplitsByStatus(s: seq<ClientTask>)
    requires KnownStatuses(s)
    ensures SortByStatus(s) == Filter(s, IsPending) + Filter(s, IsNotPending)
  {
    if s != [] {
      KnownStatusesTail(s);
      SortSplitsByStatus(s[1..]);
      SortStep(s[0], s[1..]);
      assert s == [s[0]] + s[1..];
    }
  }

  lemma KnownStatusesTail(s: seq<ClientTask>)
    requires s != [] && KnownStatuses(s)
    ensures KnownStatuses(s[1..]) && (s[0].status == Pending || s[0].status == Completed)
  {
    forall i | 0 <= i < |s[1..]| ensures s[1..][i].status == Pending || s[1..][i].status == Completed {
      assert s[1..][i] == s[i + 1];
    }
  }

  /** One step of the insertion sort, from a split tail to a split list. */
  lemma SortStep(x: ClientTask, t: seq<ClientTask>)
    requires x.status == Pending || x.status == Completed
    requires KnownStatuses(t)
    requires SortByStatus(t) == Filter(t, IsPending) + Filter(t, IsNotPending)
    ensures SortByStatus([x] + t) == Filter([x] + t, IsPending) + Filter([x] + t, IsNotPending)
  {
    FilterBlocks(t);
    var p := Filter(t, IsPending);
    var c := Filter(t, IsNotPending);
    InsertIntoSplit(x, p, c);
    if x.status == Pending {
      SortStepPending(x, t, p, c);
    } else {
      SortStepCompleted(x, t, p, c);
    }
  }

  /** One step of the insertion sort: a pending head goes in front of the pending block. */
  lemma SortStepPending(x: ClientTask, t: seq<ClientTask>, p: seq<ClientTask>, c: seq<ClientTask>)
    requires x.status == Pending
    requires p == Filter(t, IsPending) && c == Filter(t, IsNotPending)
    requires SortByStatus(t) == p + c
    requires InsertByStatus(x, p + c) == [x] + p + c
    ensures SortByStatus([x] + t) == Filter([x] + t, IsPending) + Filter([x] + t, IsNotPending)
  {
    SortHead(x, t);
    FilterHead(x, t, IsPending);
    FilterHead(x, t, IsNotPending);
  }

  /** One step of the insertion sort: a completed head goes in front of the completed block. */
  lemma SortStepCompleted(x: ClientTask, t: seq<ClientTask>, p: seq<ClientTask>, c: seq<ClientTask>)
    requires x.status != Pending
    requires p == Filter(t, IsPending) && c == Filter(t, IsNotPending)
    requires SortByStatus(t) == p + c
    requires InsertByStatus(x, p + c) == p + ([x] + c)
    ensures SortByStatus([x] + t) == Filter([x] + t, IsPending) + Filter([x] + t, IsNotPending)
  {
    SortHead(x, t);
    FilterHead(x, t, IsPending);
    FilterHead(x, t, IsNotPending);
  }

  lemma SortHead(x: ClientTask, t: seq<ClientTask>)
    ensures SortByStatus([x] + t) == InsertByStatus(x, SortByStatus(t))
  {
    assert ([x] + t)[0] == x && ([x] + t)[1..] == t;
  }

  lemma FilterHead<T(!new)>(x: T, t: seq<T>, keep: T -> bool)
    ensures Filter([x] + t, keep) == if keep(x) then [x] + Filter(t, keep) else Filter(t, keep)
  {
    assert ([x] + t)[0] == x && ([x] + t)[1..] == t;
  }

  /** Every pending task precedes every other task. */
  ghost predicate PendingFirst(s: seq<ClientTask>)
  {
    forall i, j :: 0 <= i < j < |s| && s[j].status == Pending ==> s[i].status == Pending
  }

  /**
   * After a toggle: the server's copy replaces the entry with that id, then
   * the list is sorted pending-first.
   */
  function ToggleUpdate(prev: seq<ClientTask>, id: int, task: ClientTask): (r: seq<ClientTask>)
    ensures multiset(r) == multiset(ReplaceById(prev, id, task))
  {
    SortByStatus(ReplaceById(prev, id, task))
  }

  /**
   * With known statuses, the toggle's result is a permutation of the replaced
   * list in which pending tasks come first, and each group keeps its order.
   */
  lemma ToggleUpdateOrder(prev: seq<ClientTask>, id: int, task: ClientTask)
    requires KnownStatuses(prev) && (task.status == Pending || task.status == Completed)
    ensures var replaced := ReplaceById(prev, id, task);
      && ToggleUpdate(prev, id, task) == Filter(replaced, IsPending) + Filter(replaced, IsNotPending)
      && PendingFirst(ToggleUpdate(prev, id, task))
      && IsSubsequence(Filter(replaced, IsPending), replaced)
      && IsSubsequence(Filter(replaced, IsNotPending), replaced)
  {
    var replaced := ReplaceById(prev, id, task);
    SortSplitsByStatus(replaced);
    FilterIsSubsequence(replaced, IsPending);
    FilterIsSubsequence(replaced, IsNotPending);
    var p := Filter(replaced, IsPending);
    var c := Filter(replaced, IsNotPending);
    forall i | 0 <= i < |p| ensures p[i].status == Pending {
      assert p[i] in p;
    }
    forall i | 0 <= i < |c| ensures c[i].status != Pending {
      assert c[i] in c;
    }
    BlocksArePendingFirst(p, c);
  }

  /** A pending block followed by a block of other statuses is pending-first. */
  lemma BlocksArePendingFirst(p: seq<ClientTask>, c: seq<ClientTask>)
    requires forall i :: 0 <= i < |p| ==> p[i].status == Pending
    requires forall i :: 0 <= i < |c| ==> c[i].status != Pending
    ensures PendingFirst(p + c)
  {
    var r := p + c;
    forall i, j | 0 <= i < j < |r| && r[j].status == Pending ensures r[i].status == Pending {
      assert r[i] == p[i];
    }
  }

  /** After a delete: `prev.filter((t) => t.id !== id)`. */
  function RemoveId(prev: seq<ClientTask>, id: int): (r: seq<ClientTask>)
    ensures forall t :: t in r <==> t in prev && t.id != id
    ensures !HasId(r, id)
  {
    var r := Filter(prev, (t: ClientTask) => t.id != id);
    assert forall i :: 0 <= i < |r| ==> r[i] in r;
    r
  }

  /** Deleting keeps the remaining tasks in their order, and an absent id changes nothing. */
  lemma {:induction false} RemoveIdKeepsOrder(prev: seq<ClientTask>, id: int)
    ensures IsSubsequence(RemoveId(prev, id), prev)
    ensures !HasId(prev, id) ==> RemoveId(prev, id) == prev
  {
    FilterIsSubsequence(prev, (t: ClientTask) => t.id != id);
    if !HasId(prev, id) {
      FilterKeepsAll(prev, (t: ClientTask) => t.id != id);
    }
  }

  /** A filter that keeps every element returns the sequence itself. */
  lemma {:induction false} FilterKeepsAll<T(!new)>(s: seq<T>, keep: T -> bool)
    requires forall i :: 0 <= i < |s| ==> keep(s[i])
    ensures Filter(s, keep) == s
  {
    if s != [] {
      assert keep(s[0]);
      forall i | 0 <= i < |s[1..]| ensures keep(s[1..][i]) {
        assert s[1..][i] == s[i + 1];
      }
      FilterKeepsAll(s[1..], keep);
      assert s == [s[0]] + s[1..];
    }
  }

  /** The status filter: "all" passes every task, any other value needs that status. */
  predicate PassesStatus(t: ClientTask, filter: string)
  {
    filter == "all" || t.status == filter
  }

  /** The search: the lower-cased title contains the lower-cased search text. */
  predicate PassesSearch(t: ClientTask, search: string)
  {
    ContainsIgnoringCase(t.title, search)
  }

  /** The rendered list: the status filter, then the search filter. */
  function Visible(tasks: seq<ClientTask>, filter: string, search: string): (r: seq<ClientTask>)
    ensures forall t :: t in r <==> t in tasks && PassesStatus(t, filter) && PassesSearch(t, search)
  {
    Filter(Filter(tasks, t => PassesStatus(t, filter)), t => PassesSearch(t, search))
  }

  /** The rendered list keeps the order of `tasks`. */
  lemma VisibleIsSubsequence(tasks: seq<ClientTask>, filter: string, search: string)
    ensures IsSubsequence(Visible(tasks, filter, search), tasks)
  {
    var byStatus := Filter(tasks, t => PassesStatus(t, filter));
    FilterIsSubsequence(tasks, t => PassesStatus(t, filter));
    FilterIsSubsequence(byStatus, t => PassesSearch(t, search));
    SubsequenceTransitive(Visible(tasks, filter, search), byStatus, tasks);
  }

  /** With filter "all" and an empty search, every task is shown. */
  lemma {:induction false} UnfilteredShowsAll(tasks: seq<ClientTask>)
    ensures Visible(tasks, "all", "") == tasks
  {
    FilterKeepsAll(tasks, t => PassesStatus(t, "all"));
    forall i | 0 <= i < |tasks| ensures PassesSearch(tasks[i], "") {
      EmptySearchMatchesAll(tasks[i].title);
    }
    FilterKeepsAll(tasks, t => PassesSearch(t, ""));
  }
}
