/**
 * The task rows of backend/controllers/task.ts and the `getTasks` query:
 * the `where` filter (owner, optional status, optional case-insensitive
 * title search), `orderBy: { createdAt: "desc" }`, `skip`/`take` paging and
 * the `totalPages` arithmetic.
 */
module Tasks {
  import opened Wrappers
  import opened Text

  datatype Task = Task(
    id: nat, title: string, description: Option<string>, status: string, userId: nat, createdAt: int)

  const Pending := "pending"
  const Completed := "completed"

  /** Ids are unique across the table. */
  ghost predicate UniqueIds(rows: seq<Task>)
  {
    forall i, j :: 0 <= i < j < |rows| ==> rows[i].id != rows[j].id
  }

  /**
   * Prisma's `findUnique({ where: { id } })`: the position of the row with
   * that id, if any.
   */
  function IndexOf(rows: seq<Task>, id: int): (r: Option<nat>)
    ensures r.Some? ==> r.value < |rows| && rows[r.value].id == id
    ensures r.None? ==> forall i :: 0 <= i < |rows| ==> rows[i].id != id
  {
    if rows == [] then None
    else if rows[0].id == id then Some(0)
    else match IndexOf(rows[1..], id)
      case None => None
      case Some(k) => Some(k + 1)
  }

  /** The query parameters after their defaults: `page = "1"`, `limit = "5"`; "" means absent. */
  datatype Query = Query(page: Option<int>, limit: Option<int>, status: string, search: string)

  function PageNumber(q: Query): int { if q.page.Some? then q.page.value else 1 }

  function LimitNumber(q: Query): int { if q.limit.Some? then q.limit.value else 5 }

  /** The numeric range this model covers: `page >= 1`, `limit >= 1`. */
  predicate WellFormed(q: Query)
  {
    PageNumber(q) >= 1 && LimitNumber(q) >= 1
  }

  /** The `where` clause: owned by the caller, then the optional status and search filters. */
  predicate Selected(t: Task, caller: nat, status: string, search: string)
  {
    && t.userId == caller
    && (status != "" ==> t.status == status)
    && (search != "" ==> ContainsIgnoringCase(t.title, search))
  }

  /** `r` is `s` with some elements left out, the rest in their order in `s`. */
  ghost predicate IsSubsequence(r: seq<Task>, s: seq<Task>)
    decreases |s|
  {
    r == [] || (s != [] && ((r[0] == s[0] && IsSubsequence(r[1..], s[1..])) || IsSubsequence(r, s[1..])))
  }

  /** The rows the `where` clause selects, in table order. */
  function Where(rows: seq<Task>, caller: nat, status: string, search: string): (r: seq<Task>)
    ensures forall t :: t in r <==> t in rows && Selected(t, caller, status, search)
    ensures IsSubsequence(r, rows)
  {
    if rows == [] then []
    else
      var rest := Where(rows[1..], caller, status, search);
      assert rows == [rows[0]] + rows[1..];
      if Selected(rows[0], caller, status, search) then
        assert ([rows[0]] + rest)[1..] == rest;
        [rows[0]] + rest
      else rest
  }

  /** `Where` keeps every selected row as often as the table holds it, and no other row. */
  lemma {:induction false} WhereCounts(rows: seq<Task>, caller: nat, status: string, search: string)
    ensures forall t ::
      multiset(Where(rows, caller, status, search))[t]
        == if Selected(t, caller, status, search) then multiset(rows)[t] else 0
  {
    if rows != [] {
      WhereCounts(rows[1..], caller, status, search);
      assert rows == [rows[0]] + rows[1..];
      assert multiset(rows) == multiset{rows[0]} + multiset(rows[1..]);
    }
  }

  ghost predicate NewestFirst(s: seq<Task>)
  {
    forall i, j :: 0 <= i < j < |s| ==> s[i].createdAt >= s[j].createdAt
  }

  /** Putting a row at least as new as every element in front keeps the order. */
  lemma PrependKeepsOrder(x: Task, s: seq<Task>)
    requires NewestFirst(s)
    requires forall y :: y in s ==> y.createdAt <= x.createdAt
    ensures NewestFirst([x] + s)
  {
    var r := [x] + s;
    forall i, j | 0 <= i < j < |r| ensures r[i].createdAt >= r[j].createdAt {
      if i == 0 {
        assert r[j] == s[j - 1];
      } else {
        assert r[i] == s[i - 1] && r[j] == s[j - 1];
      }
    }
  }

  /** Inserts `t` in front of the first row that is not newer than `t`. */
  function InsertByCreatedAt(t: Task, s: seq<Task>): (r: seq<Task>)
    ensures multiset(r) == multiset(s) + multiset{t}
  {
    if s == [] then [t]
    else if t.createdAt >= s[0].createdAt then [t] + s
    else
      assert s == [s[0]] + s[1..];
      [s[0]] + InsertByCreatedAt(t, s[1..])
  }

  /** Insertion keeps a newest-first sequence newest-first. */
  lemma {:induction false} InsertKeepsOrder(t: Task, s: seq<Task>)
    requires NewestFirst(s)
    ensures NewestFirst(InsertByCreatedAt(t, s))
  {
    if s == [] {
    } else if t.createdAt >= s[0].createdAt {
      forall y | y in s ensures y.createdAt <= t.createdAt {
        var k :| 0 <= k < |s| && s[k] == y;
        assert k == 0 || s[0].createdAt >= s[k].createdAt;
      }
      PrependKeepsOrder(t, s);
    } else {
      var rest := InsertByCreatedAt(t, s[1..]);
      assert NewestFirst(s[1..]);
      InsertKeepsOrder(t, s[1..]);
      assert s == [s[0]] + s[1..];
      forall y | y in rest ensures y.createdAt <= s[0].createdAt {
        assert y in multiset(rest);
        if y != t {
          assert y in multiset(s[1..]);
          var k :| 0 <= k < |s[1..]| && s[1..][k] == y;
          assert s[k + 1] == y;
        }
      }
      PrependKeepsOrder(s[0], rest);
    }
  }

  /** `orderBy: { createdAt: "desc" }`, keeping table order among equal timestamps. */
  function SortNewestFirst(s: seq<Task>): (r: seq<Task>)
    ensures multiset(r) == multiset(s)
    ensures NewestFirst(r)
  {
    if s == [] then []
    else
      assert s == [s[0]] + s[1..];
      var sorted := SortNewestFirst(s[1..]);
      InsertKeepsOrder(s[0], sorted);
      InsertByCreatedAt(s[0], sorted)
  }

  /** The rows of `s` created at time `c`, in their order in `s`. */
  function CreatedAt(s: seq<Task>, c: int): seq<Task>
  {
    if s == [] then []
    else (if s[0].createdAt == c then [s[0]] else []) + CreatedAt(s[1..], c)
  }

  /** Insertion puts `t` in front of every row with the same timestamp. */
  lemma {:induction false} InsertBeforeTies(t: Task, s: seq<Task>, c: int)
    ensures CreatedAt(InsertByCreatedAt(t, s), c)
      == (if t.createdAt == c then [t] else []) + CreatedAt(s, c)
  {
    if s == [] || t.createdAt >= s[0].createdAt {
      assert ([t] + s)[1..] == s;
    } else {
      var r := [s[0]] + InsertByCreatedAt(t, s[1..]);
      assert r[1..] == InsertByCreatedAt(t, s[1..]);
      InsertBeforeTies(t, s[1..], c);
    }
  }

  /** The sort is stable: rows with equal `createdAt` stay in table order. */
  lemma {:induction false} SortKeepsTieOrder(s: seq<Task>, c: int)
    ensures CreatedAt(SortNewestFirst(s), c) == CreatedAt(s, c)
  {
    if s != [] {
      SortKeepsTieOrder(s[1..], c);
      InsertBeforeTies(s[0], SortNewestFirst(s[1..]), c);
    }
  }

  /** `Math.ceil(n / d)` for `d >= 1`, in integer arithmetic. */
  function CeilDiv(n: nat, d: nat): (q: nat)
    requires d >= 1
    ensures q * d >= n
    ensures q == 0 || (q - 1) * d < n
  {
    (n + d - 1) / d
  }

  datatype Listing = Listing(page: int, limit: int, totalTasks: nat, totalPages: nat, tasks: seq<Task>)

  /** The selected rows in the order the listing uses. */
  function Ordered(rows: seq<Task>, caller: nat, q: Query): (r: seq<Task>)
    ensures |r| == |Where(rows, caller, q.status, q.search)|
    ensures NewestFirst(r)
    ensures forall t :: t in r <==> t in rows && Selected(t, caller, q.status, q.search)
  {
    var selected := Where(rows, caller, q.status, q.search);
    var r := SortNewestFirst(selected);
    assert |r| == |multiset(r)| == |multiset(selected)| == |selected|;
    assert forall t :: t in r <==> t in multiset(selected);
    r
  }

  /** The bounds `skip` and `skip + take` clamped to the length of `s`. */
  function Window(s: seq<Task>, skip: int, take: int): (r: seq<Task>)
    requires skip >= 0 && take >= 0
    ensures |r| <= take
    ensures forall t :: t in r ==> t in s
    ensures NewestFirst(s) ==> NewestFirst(r)
    ensures forall k :: skip <= k < skip + take && k < |s| ==> s[k] in r
    ensures |r| == if skip >= |s| then 0 else if skip + take <= |s| then take else |s| - skip
    ensures forall i :: 0 <= i < |r| ==> skip + i < |s| && r[i] == s[skip + i]
  {
    var from := if skip < |s| then skip else |s|;
    var to := if skip + take < |s| then skip + take else |s|;
    var r := s[from..to];
    assert forall k :: skip <= k < skip + take && k < |s| ==> r[k - from] == s[k];
    r
  }

  /** `skip = (page - 1) * limit`. */
  function Skip(page: int, limit: int): (n: nat)
    requires page >= 1 && limit >= 1
  {
    MulMonotone(0, page - 1, limit);
    (page - 1) * limit
  }

  /** `getTasks` for the authenticated `caller`. */
  function GetTasks(rows: seq<Task>, caller: nat, q: Query): (r: Listing)
    requires WellFormed(q)
    ensures r.page == PageNumber(q) && r.limit == LimitNumber(q)
    ensures |r.tasks| <= r.limit
    ensures forall t :: t in r.tasks ==> t in rows && Selected(t, caller, q.status, q.search)
    ensures NewestFirst(r.tasks)
    ensures r.totalTasks == |Where(rows, caller, q.status, q.search)|
    ensures r.totalPages * r.limit >= r.totalTasks
    ensures r.totalPages == 0 || (r.totalPages - 1) * r.limit < r.totalTasks
    ensures r.tasks == Window(Ordered(rows, caller, q), Skip(r.page, r.limit), r.limit)
  {
    var page := PageNumber(q);
    var limit := LimitNumber(q);
    var total := |Where(rows, caller, q.status, q.search)|;
    Listing(page, limit, total, CeilDiv(total, limit), Window(Ordered(rows, caller, q), Skip(page, limit), limit))
  }

  /** `a <= b` and `c >= 0` give `a * c <= b * c`. */
  lemma MulMonotone(a: int, b: int, c: int)
    requires a <= b && c >= 0
    ensures a * c <= b * c
  {
    assert b * c - a * c == (b - a) * c;
  }

  /** Quotient and remainder bounds of Euclidean division by a positive divisor. */
  lemma DivBounds(k: nat, d: nat)
    requires d >= 1
    ensures (k / d) * d <= k < (k / d) * d + d
  {
  }

  /**
   * In a sequence cut into windows of `limit` elements, element `k` lies on
   * page `k / limit + 1`, which is at most `total` when `total` pages
   * cover the sequence.
   */
  lemma PageOfIndex(s: seq<Task>, k: nat, limit: nat, total: nat) returns (p: int)
    requires k < |s| && limit >= 1 && total * limit >= |s|
    ensures 1 <= p <= total
    ensures s[k] in Window(s, Skip(p, limit), limit)
  {
    var d := k / limit;
    DivBounds(k, limit);
    assert Skip(d + 1, limit) == d * limit;
    if d >= total {
      MulMonotone(total, d, limit);
    }
    p := d + 1;
  }

  /** Every selected row is listed on some page between 1 and `totalPages`. */
  lemma {:induction false} EverySelectedRowIsListed(rows: seq<Task>, caller: nat, q: Query, t: Task)
    requires WellFormed(q)
    requires t in rows && Selected(t, caller, q.status, q.search)
    ensures exists p ::
      && 1 <= p <= GetTasks(rows, caller, q).totalPages
      && t in GetTasks(rows, caller, q.(page := Some(p))).tasks
  {
    var limit := LimitNumber(q);
    var ordered := Ordered(rows, caller, q);
    var r := GetTasks(rows, caller, q);
    assert r.totalPages * limit >= |ordered|;
    assert t in ordered;
    var k :| 0 <= k < |ordered| && ordered[k] == t;
    var p := PageOfIndex(ordered, k, limit, r.totalPages);
    var q' := q.(page := Some(p));
    assert Ordered(rows, caller, q') == ordered;
    assert PageNumber(q') == p && LimitNumber(q') == limit;
    assert WellFormed(q');
  }

  /** A page past `totalPages` lists nothing. */
  lemma PagePastLastIsEmpty(rows: seq<Task>, caller: nat, q: Query)
    requires WellFormed(q)
    requires PageNumber(q) > GetTasks(rows, caller, q).totalPages
    ensures GetTasks(rows, caller, q).tasks == []
  {
    var r := GetTasks(rows, caller, q);
    var ordered := Ordered(rows, caller, q);
    MulMonotone(r.totalPages, PageNumber(q) - 1, r.limit);
    assert Skip(PageNumber(q), r.limit) >= |ordered|;
    assert |Window(ordered, Skip(r.page, r.limit), r.limit)| == 0;
  }

  /** `toggleTaskStatus`: "pending" becomes "completed"; every other status becomes "pending". */
  function Toggled(status: string): (s: string)
    ensures s == Pending || s == Completed
    ensures s == Completed <==> status == Pending
  {
    if status == Pending then Completed else Pending
  }

  /** Toggling twice restores a "pending" or "completed" status. */
  lemma ToggleIsInvolution(status: string)
    requires status == Pending || status == Completed
    ensures Toggled(Toggled(status)) == status
  {
  }

  /**
   * The `data` of `updateTask`: only the fields that are not `undefined`
   * (`None`) change. A `description` of `Some(None)` is an explicit `null`,
   * which clears the description.
   */
  function Patch(t: Task, title: Option<string>, description: Option<Option<string>>, status: Option<string>): (u: Task)
    ensures u.id == t.id && u.userId == t.userId && u.createdAt == t.createdAt
    ensures title.None? ==> u.title == t.title
    ensures title.Some? ==> u.title == title.value
    ensures description.None? ==> u.description == t.description
    ensures description.Some? ==> u.description == description.value
    ensures status.None? ==> u.status == t.status
    ensures status.Some? ==> u.status == status.value
  {
    t.(title := if title.Some? then title.value else t.title,
       description := if description.Some? then description.value else t.description,
       status := if status.Some? then status.value else t.status)
  }

  /** A patch naming no field leaves the task as it is. */
  lemma EmptyPatchIsIdentity(t: Task)
    ensures Patch(t, None, None, None) == t
  {
  }

  /**
   * `prisma.task.delete({ where: { id } })`: the rows without the one that
   * has this id, in their order.
   */
  function Without(rows: seq<Task>, id: int): (r: seq<Task>)
    ensures |r| <= |rows|
    ensures forall t :: t in r <==> t in rows && t.id != id
    ensures UniqueIds(rows) ==> UniqueIds(r)
  {
    if rows == [] then []
    else if rows[0].id == id then Without(rows[1..], id)
    else
      var rest := Without(rows[1..], id);
      assert forall t :: t in rows[1..] ==> t in rows;
      [rows[0]] + rest
  }

  /** Deleting an id no row has changes nothing. */
  lemma {:induction false} WithoutAbsent(rows: seq<Task>, id: int)
    requires forall i :: 0 <= i < |rows| ==> rows[i].id != id
    ensures Without(rows, id) == rows
  {
    if rows != [] {
      assert rows[0].id != id;
      forall i | 0 <= i < |rows[1..]| ensures rows[1..][i].id != id {
        assert rows[1..][i] == rows[i + 1];
      }
      WithoutAbsent(rows[1..], id);
      assert rows == [rows[0]] + rows[1..];
    }
  }

  /** In a table with unique ids, deleting a present id removes exactly one row. */
  lemma {:induction false} WithoutRemovesOne(rows: seq<Task>, id: int, k: nat)
    requires UniqueIds(rows)
    requires k < |rows| && rows[k].id == id
    ensures |Without(rows, id)| == |rows| - 1
  {
    if k == 0 {
      forall i | 0 <= i < |rows[1..]| ensures rows[1..][i].id != id {
        assert rows[1..][i] == rows[i + 1];
      }
      WithoutAbsent(rows[1..], id);
    } else {
      assert UniqueIds(rows[1..]);
      assert rows[1..][k - 1] == rows[k];
      WithoutRemovesOne(rows[1..], id, k - 1);
    }
  }

}
