/** server/routes/approvals.js: the multi-step approval workflow, each
    handler written as the sequence of interpreter calls it issues.

    Every statement text the handlers pass is taken apart by hand below
    into the `Stmt` the scanners of module Patterns produce for it; the
    comment above each constant gives the reasoning. The request user is
    the value `user` (`req.user.id`), the URL parameter `:id` is text, and
    the clock is `now`. */
module Approvals {
  import opened Js
  import opened Database

  // =====================================================================
  // The statements, taken apart

  /** `SELECT * FROM approvals WHERE id = ?` (lines 117, 166, 183, 222,
      247): the generic id lookup. */
  const ApprovalById: Stmt := ById("approvals")

  /** The step lookup of lines 125-130 (and 191-196, 250-255). The first
      keyword is `FROM approval_steps`. The where expression cannot match:
      its lazy capture would have to cross the newline after
      `status = 'pending'` to reach `ORDER`, and `$` is only the end of the
      text. The lower-cased text has `where approval_id = ?`. There is no
      parenthesis and no `set`. */
  const StepLookup: Stmt :=
    Stmt(Some("approval_steps"), SelectVerb, false, true, None, Some("approval_id"), [], None)

  /** The count of lines 144-147: `FROM approval_steps`, `count(*)`
      present, the where expression again stopped by a newline, the
      equality head `where approval_id = ?`, the group `(*)`. */
  const PendingCount: Stmt :=
    Stmt(Some("approval_steps"), SelectVerb, true, true, None, Some("approval_id"), ["*"], None)

  /** Line 100: `… FROM approvals WHERE id = (SELECT MAX(id) FROM
      approvals)`. The where expression runs to the end of the text; the
      equality head needs `?` after `=` and finds `(`; the first group
      stops at the first `)`. */
  const NewestApproval: Stmt :=
    Stmt(Some("approvals"), SelectVerb, false, true, Some("id = (SELECT MAX(id) FROM approvals)"), None, ["SELECT MAX(id"], None)

  /** The column list of the approval insert, line 83. */
  const ApprovalColumns: seq<string> :=
    ["asset_id", "campaign_id", "workflow_type", "status", "current_step",
     "total_steps", "sla_deadline", "priority", "submitted_by"]

  /** Lines 82-85: `INTO approvals`, the first group is the column list,
      no `where`; `set` occurs only inside `asset_id` (followed by `_`). */
  const InsertApproval: Stmt :=
    Stmt(Some("approvals"), InsertVerb, false, false, None, None, ApprovalColumns, None)

  /** The column list of the step insert, line 92. */
  const StepColumns: seq<string> := ["approval_id", "step_number", "approver_id", "status"]

  /** Lines 91-94: `INTO approval_steps`, the first group is the column
      list. */
  const InsertStep: Stmt :=
    Stmt(Some("approval_steps"), InsertVerb, false, false, None, None, StepColumns, None)

  /** The SET list of line 139 (and 260): only `comments = ?` is a
      placeholder. */
  const StepApproveSets: seq<Assign> :=
    [Assign("status", false), Assign("comments", true), Assign("reviewed_at", false)]

  /** Lines 137-141: `UPDATE approval_steps`; the set expression captures
      the SET line up to the whitespace before `WHERE`; the where
      expression is stopped by the final newline; the head is
      `where id = ?`. */
  const StepApprove: Stmt :=
    Stmt(Some("approval_steps"), UpdateVerb, false, true, None, Some("id"), [], Some(StepApproveSets))

  /** The SET list of line 205: `comments = ?` and `rejection_reason = ?`
      are placeholders. */
  const StepRejectSets: seq<Assign> :=
    [Assign("status", false), Assign("comments", true), Assign("rejection_reason", true), Assign("reviewed_at", false)]

  /** Lines 203-207, read as `StepApprove`. */
  const StepReject: Stmt :=
    Stmt(Some("approval_steps"), UpdateVerb, false, true, None, Some("id"), [], Some(StepRejectSets))

  /** The SET lists of lines 153 and 212: no placeholder. */
  const CloseSets: seq<Assign> := [Assign("status", false), Assign("completed_at", false)]

  /** Lines 151-155 and 210-214: `UPDATE approvals`, the where expression
      stopped by a newline, the head `where id = ?`. */
  const CloseApproval: Stmt :=
    Stmt(Some("approvals"), UpdateVerb, false, true, None, Some("id"), [], Some(CloseSets))

  /** Lines 158 and 218: `UPDATE assets SET status = '…' WHERE id = ?`.
      The first `set` is inside `assets` and is followed by `s`, so the set
      expression starts at `SET`; the where expression runs to the end. */
  const CloseAsset: Stmt :=
    Stmt(Some("assets"), UpdateVerb, false, true, Some("id = ?"), Some("id"), [], Some(CloseAssetSets))

  /** The SET list of lines 158 and 218: no placeholder. */
  const CloseAssetSets: seq<Assign> := [Assign("status", false)]

  /** Line 162: `UPDATE approvals SET current_step = current_step + 1
      WHERE id = ?`; the right-hand side has no `?`. */
  const AdvanceApproval: Stmt :=
    Stmt(Some("approvals"), UpdateVerb, false, true, Some("id = ?"), Some("id"), [], Some(AdvanceSets))

  /** The SET list of line 162: no placeholder. */
  const AdvanceSets: seq<Assign> := [Assign("current_step", false)]

  /** Each statement reaches the branch of `execute` or `queryOne` the
      handlers below call directly. */
  lemma StatementsDispatch(s: Store, params: seq<Value>, now: int)
    ensures ExecuteStmt(s, InsertApproval, params, now) == Insert(s, "approvals", ApprovalColumns, params, now)
    ensures ExecuteStmt(s, InsertStep, params, now) == Insert(s, "approval_steps", StepColumns, params, now)
    ensures ExecuteStmt(s, StepApprove, params, now) == Update(s, "approval_steps", Some(StepApproveSets), params, now)
    ensures ExecuteStmt(s, StepReject, params, now) == Update(s, "approval_steps", Some(StepRejectSets), params, now)
    ensures ExecuteStmt(s, CloseApproval, params, now) == Update(s, "approvals", Some(CloseSets), params, now)
    ensures ExecuteStmt(s, CloseAsset, params, now) == Update(s, "assets", Some(CloseAssetSets), params, now)
    ensures ExecuteStmt(s, AdvanceApproval, params, now) == Update(s, "approvals", Some(AdvanceSets), params, now)
    ensures QueryOneStmt(s, NewestApproval, []) == FirstIn(s, "approvals")
    ensures |params| > 0 ==>
      && QueryOneStmt(s, ApprovalById, params) == LookupIn(s, "approvals", "id", params[0])
      && QueryOneStmt(s, StepLookup, params) == LookupIn(s, "approval_steps", "approval_id", params[0])
      && QueryOneStmt(s, PendingCount, params) == CountAll(s, "approval_steps")
  {}

  // =====================================================================
  // Replies

  datatype BulkResult = Approved(id: Value) | Errored(id: Value)

  datatype QueueEntry = QueueEntry(approval: Record, steps: seq<Record>)

  /** The response a handler sends first: an error status, an approval
      (or `null`) with a status, or one of the listings. */
  datatype Reply =
    | Refused(code: nat)
    | ApprovalReply(code: nat, approval: Option<Record>)
    | BulkReply(results: seq<BulkResult>)
    | QueueReply(entries: seq<QueueEntry>)
    | HistoryReply(steps: seq<Record>)

  /** A `queryOne` result as a JSON value: a record or `null`. */
  function RowOf(o: One): Option<Record> {
    if o.Row? then Some(o.record) else None
  }

  // =====================================================================
  // POST / (create)

  /** The request body of the create handler. `approvers` is None when
      absent; `slaHours` 0 stands for every falsy value. */
  datatype CreateBody = CreateBody(
    assetId: Value,
    campaignId: Value,
    workflowType: Value,
    approvers: Option<seq<Value>>,
    slaHours: int,
    priority: Value)

  /** A destructuring default: it replaces `undefined` only. */
  function Default(v: Value, d: string): (r: Value)
    ensures r != Undefined
    ensures v != Undefined ==> r == v
    ensures v == Undefined ==> r == Str(d)
  {
    if v == Undefined then Str(d) else v
  }

  /** The SLA deadline: `sla_hours` hours from now when truthy, else
      `null`. */
  function Deadline(slaHours: int, now: int): (r: Value)
    ensures slaHours == 0 <==> r == Null
    ensures r != Null ==> r.Time?
    ensures r.Time? ==> r.ms == now + slaHours * HourMs
  {
    if slaHours != 0 then Time(now + slaHours * HourMs) else Null
  }

  /** The parameters of the approval insert, line 85. */
  function ApprovalParams(body: CreateBody, user: Value, now: int): seq<Value>
    requires body.approvers.Some?
  {
    [Or(body.assetId, Null), Or(body.campaignId, Null), Default(body.workflowType, "sequential"),
     Num(|body.approvers.value|), Deadline(body.slaHours, now), Default(body.priority, "normal"), user]
  }

  /** The loop of lines 90-95 from approver `k` on; false when an insert
      throws, which ends the loop with earlier inserts kept. */
  function InsertSteps(s: Store, approvalId: Value, approvers: seq<Value>, k: nat, now: int): (Store, bool)
    requires k <= |approvers|
    decreases |approvers| - k
  {
    if k == |approvers| then (s, true)
    else
      var (s1, o) := Insert(s, "approval_steps", StepColumns, [approvalId, Num(k), approvers[k]], now);
      if o.Failed? then (s1, false) else InsertSteps(s1, approvalId, approvers, k + 1, now)
  }

  /** The transaction callback of lines 72-98. */
  function CreateWork(s: Store, body: CreateBody, user: Value, now: int): (Store, bool)
    requires body.approvers.Some?
  {
    var (s1, o) := Insert(s, "approvals", ApprovalColumns, ApprovalParams(body, user, now), now);
    match o
    case Changes(_, id) => InsertSteps(s1, id, body.approvers.value, 0, now)
    case _ => (s1, false)
  }

  /** `POST /`: refuse an empty approver list, insert the approval and one
      step per approver, and reply with the record the MAX(id) lookup
      returns, which having no parameters is the first stored approval. */
  function Create(s: Store, body: CreateBody, user: Value, now: int): (r: (Store, Reply))
    ensures body.approvers.None? || |body.approvers.value| == 0 ==> r == (s, Refused(400))
    ensures r.1.ApprovalReply? ==>
      && r.1.code == 201
      && r.1.approval == (if "approvals" in r.0.tables && |r.0.tables["approvals"]| > 0
                          then Some(r.0.tables["approvals"][0]) else None)
    ensures r.1.Refused? ==> r.1.code == 400 || r.1.code == 500
  {
    if body.approvers.None? || |body.approvers.value| == 0 then (s, Refused(400))
    else
      Created(Transaction(s, (s0: Store) requires body.approvers.Some? => CreateWork(s0, body, user, now)))
  }

  /** The response of create once the transaction has run: 500 when a
      statement threw, else 201 with the first stored approval. The store
      is the one the transaction left. */
  function Created(work: (Store, bool)): (r: (Store, Reply))
    ensures r.0 == work.0
    ensures r.1 == Refused(500) <==> !work.1
  {
    if !work.1 then (work.0, Refused(500))
    else (work.0, ApprovalReply(201, RowOf(FirstIn(work.0, "approvals"))))
  }

  /** The approval record an insert under id `id` stores. */
  function ApprovalRecord(id: int, body: CreateBody, user: Value, now: int): Record
    requires body.approvers.Some?
  {
    NewRecord(Num(id), ApprovalColumns, ApprovalParams(body, user, now), now)
  }

  /** No column of the approval insert is named twice, and none is a date
      column or the id. */
  lemma ApprovalColumnsDistinct()
    ensures forall i :: 0 <= i < |ApprovalColumns| ==> ApprovalColumns[i] !in ApprovalColumns[i + 1..]
    ensures "id" !in ApprovalColumns && "created_at" !in ApprovalColumns && "updated_at" !in ApprovalColumns
  {
    var cs := ApprovalColumns;
    assert cs[0] !in cs[1..];
    assert cs[1] !in cs[2..];
    assert cs[2] !in cs[3..];
    assert cs[3] !in cs[4..];
    assert cs[4] !in cs[5..];
    assert cs[5] !in cs[6..];
    assert cs[6] !in cs[7..];
    assert cs[7] !in cs[8..];
    assert cs[8] !in cs[9..];
  }

  /** What the approval insert stores, column by column: the parameters
      bind by position, so the literal `'pending', 0` of the VALUES list
      shifts every later parameter one column to the left of its name, and
      the last two columns get no parameter. */
  lemma ApprovalRecordFields(id: int, body: CreateBody, user: Value, now: int)
    requires body.approvers.Some?
    ensures var a := ApprovalRecord(id, body, user, now);
      && Field(a, "id") == Num(id)
      && Field(a, "asset_id") == Or(body.assetId, Null)
      && Field(a, "campaign_id") == Or(body.campaignId, Null)
      && Field(a, "workflow_type") == Default(body.workflowType, "sequential")
      && Field(a, "status") == Num(|body.approvers.value|)
      && Field(a, "current_step") == Deadline(body.slaHours, now)
      && Field(a, "total_steps") == Default(body.priority, "normal")
      && Field(a, "sla_deadline") == (if user == Undefined then Null else user)
      && Field(a, "priority") == Null
      && Field(a, "submitted_by") == Null
      && Field(a, "created_at") == Time(now)
  {
    var cs := ApprovalColumns;
    var params := ApprovalParams(body, user, now);
    ApprovalColumnsDistinct();
    NewRecordStamps(Num(id), cs, params, now);
    NewRecordField(Num(id), cs, params, now, 0);
    NewRecordField(Num(id), cs, params, now, 1);
    NewRecordField(Num(id), cs, params, now, 2);
    NewRecordField(Num(id), cs, params, now, 3);
    NewRecordField(Num(id), cs, params, now, 4);
    NewRecordField(Num(id), cs, params, now, 5);
    NewRecordField(Num(id), cs, params, now, 6);
    NewRecordField(Num(id), cs, params, now, 7);
    NewRecordField(Num(id), cs, params, now, 8);
  }
  /** What a create writes into a step record: its id, the approval it
      belongs to, its number, its approver, and a `null` status, since the
      literal `'pending'` takes no parameter. */
  predicate IsStep(r: Record, id: int, approvalId: Value, number: int, approver: Value) {
    && Field(r, "id") == Num(id)
    && Field(r, "approval_id") == (if approvalId == Undefined then Null else approvalId)
    && Field(r, "step_number") == Num(number)
    && Field(r, "approver_id") == (if approver == Undefined then Null else approver)
    && Field(r, "status") == Null
  }

  lemma StepColumnsDistinct()
    ensures forall i :: 0 <= i < |StepColumns| ==> StepColumns[i] !in StepColumns[i + 1..]
    ensures "id" !in StepColumns && "created_at" !in StepColumns && "updated_at" !in StepColumns
  {
    var cs := StepColumns;
    assert cs[0] !in cs[1..];
    assert cs[1] !in cs[2..];
    assert cs[2] !in cs[3..];
    assert cs[3] !in cs[4..];
  }

  /** The step insert stores the fields `IsStep` names. */
  lemma StepRecordFields(id: int, approvalId: Value, number: int, approver: Value, now: int)
    ensures IsStep(NewRecord(Num(id), StepColumns, [approvalId, Num(number), approver], now), id, approvalId, number, approver)
  {
    var params := [approvalId, Num(number), approver];
    StepColumnsDistinct();
    NewRecordStamps(Num(id), StepColumns, params, now);
    NewRecordField(Num(id), StepColumns, params, now, 0);
    NewRecordField(Num(id), StepColumns, params, now, 1);
    NewRecordField(Num(id), StepColumns, params, now, 2);
    NewRecordField(Num(id), StepColumns, params, now, 3);
  }

  /** A second write to a counter hides the first. */
  lemma OverwriteCounter(m: map<string, int>, t: string, a: int, b: int)
    ensures m[t := a][t := b] == m[t := b]
  {}

  /** The step loop from approver `k` on, on a store with the steps
      collection and its counter, completes, touches no other collection,
      and moves the steps counter by one per remaining approver. */
  lemma {:induction false} InsertStepsShape(s: Store, approvalId: Value, approvers: seq<Value>, k: nat, now: int)
    requires k <= |approvers| && "approval_steps" in s.tables && "approval_steps" in s.next
    ensures var r := InsertSteps(s, approvalId, approvers, k, now);
      && r.1
      && Elsewhere(s, r.0, "approval_steps")
      && r.0.next == s.next["approval_steps" := s.next["approval_steps"] + (|approvers| - k)]
    decreases |approvers| - k
  {
    var t := "approval_steps";
    var base := s.next[t];
    if k < |approvers| {
      var s1 := Insert(s, t, StepColumns, [approvalId, Num(k), approvers[k]], now).0;
      assert Elsewhere(s, s1, t);
      InsertStepsShape(s1, approvalId, approvers, k + 1, now);
      var s' := InsertSteps(s1, approvalId, approvers, k + 1, now).0;
      ElsewhereTrans(s, s1, s', t);
      OverwriteCounter(s.next, t, base + 1, base + (|approvers| - k));
    } else {
      assert s.next[t := base + 0] == s.next;
    }
  }

  /** The step loop keeps the store well-formed. */
  lemma {:induction false} InsertStepsWellFormed(s: Store, approvalId: Value, approvers: seq<Value>, k: nat, now: int)
    requires k <= |approvers| && WellFormed(s)
    ensures WellFormed(InsertSteps(s, approvalId, approvers, k, now).0)
    decreases |approvers| - k
  {
    if k < |approvers| && "approval_steps" in s.tables {
      var params := [approvalId, Num(k), approvers[k]];
      StepColumnsDistinct();
      InsertKeepsWellFormed(s, "approval_steps", StepColumns, params, now);
      InsertStepsWellFormed(Insert(s, "approval_steps", StepColumns, params, now).0, approvalId, approvers, k + 1, now);
    }
  }

  /** `rows` are the steps the loop stores for approvers `k` on: one per
      approver, in the order given, under consecutive ids from `id0`. */
  predicate StepsFrom(rows: seq<Record>, id0: int, approvalId: Value, approvers: seq<Value>, k: nat) {
    && k + |rows| == |approvers|
    && forall j :: 0 <= j < |rows| ==> IsStep(rows[j], id0 + j, approvalId, k + j, approvers[k + j])
  }

  /** The step for approver `k` followed by the steps for the approvers
      after it are the steps from `k`. */
  lemma StepsFromCons(step: Record, rows: seq<Record>, id0: int, approvalId: Value, approvers: seq<Value>, k: nat)
    requires k < |approvers| && IsStep(step, id0, approvalId, k, approvers[k])
    requires StepsFrom(rows, id0 + 1, approvalId, approvers, k + 1)
    ensures StepsFrom([step] + rows, id0, approvalId, approvers, k)
  {
    var all := [step] + rows;
    forall j | 0 <= j < |all|
      ensures IsStep(all[j], id0 + j, approvalId, k + j, approvers[k + j])
    {
      if j > 0 {
        assert all[j] == rows[j - 1];
      }
    }
  }

  /** `rows1` is `rows0` with the steps from approver `k` on appended,
      under consecutive ids from `id0`. */
  predicate Extends(rows0: seq<Record>, rows1: seq<Record>, id0: int, approvalId: Value, approvers: seq<Value>, k: nat) {
    && |rows0| <= |rows1|
    && rows1[..|rows0|] == rows0
    && StepsFrom(rows1[|rows0|..], id0, approvalId, approvers, k)
  }

  /** `rows1` is `rows0` with the step for approver `k` appended under id
      `id0`. */
  predicate AppendsStep(rows0: seq<Record>, rows1: seq<Record>, id0: int, approvalId: Value, approvers: seq<Value>, k: nat) {
    && k < |approvers|
    && |rows1| == |rows0| + 1
    && rows1[..|rows0|] == rows0
    && IsStep(rows1[|rows0|], id0, approvalId, k, approvers[k])
  }

  /** One step appended, then the steps after it, make the steps from
      `k`. */
  lemma StepsGrow(rows0: seq<Record>, rows1: seq<Record>, rows2: seq<Record>, id0: int, approvalId: Value, approvers: seq<Value>, k: nat)
    requires AppendsStep(rows0, rows1, id0, approvalId, approvers, k)
    requires Extends(rows1, rows2, id0 + 1, approvalId, approvers, k + 1)
    ensures Extends(rows0, rows2, id0, approvalId, approvers, k)
  {
    assert rows2[..|rows0|] == rows1[..|rows0|];
    assert rows2[|rows0|..] == [rows1[|rows0|]] + rows2[|rows1|..];
    StepsFromCons(rows1[|rows0|], rows2[|rows1|..], id0, approvalId, approvers, k);
  }

  /** `StepsGrow`, read off three stores: the step for approver `k`
      appended from `s` to `s1`, then the steps after it from `s1` to
      `s2`. */
  lemma StoresGrow(s: Store, s1: Store, s2: Store, approvalId: Value, approvers: seq<Value>, k: nat)
    requires "approval_steps" in s.tables && "approval_steps" in s.next
    requires "approval_steps" in s1.tables && "approval_steps" in s1.next && "approval_steps" in s2.tables
    requires s1.next["approval_steps"] == s.next["approval_steps"] + 1
    requires AppendsStep(s.tables["approval_steps"], s1.tables["approval_steps"], s.next["approval_steps"], approvalId, approvers, k)
    requires Extends(s1.tables["approval_steps"], s2.tables["approval_steps"], s1.next["approval_steps"], approvalId, approvers, k + 1)
    ensures Extends(s.tables["approval_steps"], s2.tables["approval_steps"], s.next["approval_steps"], approvalId, approvers, k)
  {
    var t := "approval_steps";
    StepsGrow(s.tables[t], s1.tables[t], s2.tables[t], s.next[t], approvalId, approvers, k);
  }

  /** One turn of the step loop on a store with the steps collection and
      its counter: the counter moves by one and the step for approver `k`
      is appended under the counter's old value. */
  lemma StepInserted(s: Store, approvalId: Value, approvers: seq<Value>, k: nat, now: int)
    requires k < |approvers| && "approval_steps" in s.tables && "approval_steps" in s.next
    ensures var s1 := Insert(s, "approval_steps", StepColumns, [approvalId, Num(k), approvers[k]], now).0;
      && "approval_steps" in s1.tables && "approval_steps" in s1.next
      && s1.next["approval_steps"] == s.next["approval_steps"] + 1
      && AppendsStep(s.tables["approval_steps"], s1.tables["approval_steps"], s.next["approval_steps"], approvalId, approvers, k)
  {
    var t := "approval_steps";
    var params := [approvalId, Num(k), approvers[k]];
    var s1 := Insert(s, t, StepColumns, params, now).0;
    assert s1.tables[t] == s.tables[t] + [NewRecord(Num(s.next[t]), StepColumns, params, now)];
    StepRecordFields(s.next[t], approvalId, k, approvers[k], now);
  }

  /** With the steps collection present, the step for approver `k` is
      inserted and the loop goes on from `k + 1`. */
  lemma InsertStepsUnfold(s: Store, approvalId: Value, approvers: seq<Value>, k: nat, now: int)
    requires k < |approvers| && "approval_steps" in s.tables
    ensures var s1 := Insert(s, "approval_steps", StepColumns, [approvalId, Num(k), approvers[k]], now).0;
      InsertSteps(s, approvalId, approvers, k, now) == InsertSteps(s1, approvalId, approvers, k + 1, now)
  {
    var o := Insert(s, "approval_steps", StepColumns, [approvalId, Num(k), approvers[k]], now).1;
    assert !o.Failed?;
  }

  /** The step loop keeps every earlier step and appends the steps from
      approver `k` on, under consecutive ids from the steps counter. */
  lemma {:induction false} InsertStepsRows(s: Store, approvalId: Value, approvers: seq<Value>, k: nat, now: int)
    requires k <= |approvers| && "approval_steps" in s.tables && "approval_steps" in s.next
    ensures var s' := InsertSteps(s, approvalId, approvers, k, now).0;
      && "approval_steps" in s'.tables
      && Extends(s.tables["approval_steps"], s'.tables["approval_steps"], s.next["approval_steps"], approvalId, approvers, k)
    decreases |approvers| - k
  {
    var t := "approval_steps";
    if k < |approvers| {
      var s1 := Insert(s, t, StepColumns, [approvalId, Num(k), approvers[k]], now).0;
      var s2 := InsertSteps(s1, approvalId, approvers, k + 1, now).0;
      StepInserted(s, approvalId, approvers, k, now);
      InsertStepsRows(s1, approvalId, approvers, k + 1, now);
      StoresGrow(s, s1, s2, approvalId, approvers, k);
      InsertStepsUnfold(s, approvalId, approvers, k, now);
    } else {
      assert s.tables[t][..|s.tables[t]|] == s.tables[t];
    }
  }

  /** On a store with both collections, a create with approvers inserts
      the approval, runs the step loop from 0 under the id it was handed,
      and replies 201 with the first stored approval. */
  lemma CreateUnfolds(s: Store, body: CreateBody, user: Value, now: int)
    requires "approvals" in s.tables && "approvals" in s.next
    requires "approval_steps" in s.tables && "approval_steps" in s.next
    requires body.approvers.Some? && |body.approvers.value| > 0
    ensures var s1 := Insert(s, "approvals", ApprovalColumns, ApprovalParams(body, user, now), now).0;
      var s2 := InsertSteps(s1, Num(s.next["approvals"]), body.approvers.value, 0, now).0;
      && Create(s, body, user, now).0 == s2
      && Create(s, body, user, now).1 == ApprovalReply(201, RowOf(FirstIn(s2, "approvals")))
  {
    var (s1, o) := Insert(s, "approvals", ApprovalColumns, ApprovalParams(body, user, now), now);
    assert o == Changes(1, Num(s.next["approvals"]));
    InsertStepsShape(s1, Num(s.next["approvals"]), body.approvers.value, 0, now);
    assert CreateWork(s, body, user, now) == InsertSteps(s1, Num(s.next["approvals"]), body.approvers.value, 0, now);
  }

  /** A create on a store with both collections and their counters
      appends the approval under the next approvals id, moves the approvals
      counter by one and the steps counter by one per approver, touches no
      other collection, and replies 201 with the first stored approval. */
  lemma CreateShape(s: Store, body: CreateBody, user: Value, now: int)
    requires "approvals" in s.tables && "approvals" in s.next
    requires "approval_steps" in s.tables && "approval_steps" in s.next
    requires body.approvers.Some? && |body.approvers.value| > 0
    ensures var (s', reply) := Create(s, body, user, now);
      var id := s.next["approvals"];
      && s'.tables.Keys == s.tables.Keys
      && (forall t :: t in s.tables && t != "approvals" && t != "approval_steps" ==> s'.tables[t] == s.tables[t])
      && s'.tables["approvals"] == s.tables["approvals"] + [ApprovalRecord(id, body, user, now)]
      && s'.next == s.next["approvals" := id + 1]["approval_steps" := s.next["approval_steps"] + |body.approvers.value|]
      && reply == ApprovalReply(201, Some(s'.tables["approvals"][0]))
  {
    var s1 := Insert(s, "approvals", ApprovalColumns, ApprovalParams(body, user, now), now).0;
    var s2 := InsertSteps(s1, Num(s.next["approvals"]), body.approvers.value, 0, now).0;
    CreateUnfolds(s, body, user, now);
    CreatedStore(s, body, user, now);
  }

  /** `transaction` undoes nothing when its callback throws. On a store
      without an `approval_steps` collection the first step insert
      throws, and create replies 500; the approval inserted before it
      stays stored and the approvals counter stays moved. */
  lemma CreateThrowKeepsApproval(s: Store, body: CreateBody, user: Value, now: int)
    requires "approvals" in s.tables && "approvals" in s.next && "approval_steps" !in s.tables
    requires body.approvers.Some? && |body.approvers.value| > 0
    ensures var (s', reply) := Create(s, body, user, now);
      var id := s.next["approvals"];
      && reply == Refused(500)
      && s'.tables == s.tables["approvals" := s.tables["approvals"] + [ApprovalRecord(id, body, user, now)]]
      && "approvals" in s'.next && s'.next["approvals"] == id + 1
  {
    var id := s.next["approvals"];
    var (s1, o) := Insert(s, "approvals", ApprovalColumns, ApprovalParams(body, user, now), now);
    assert o == Changes(1, Num(id));
    var approvers := body.approvers.value;
    var (s2, o2) := Insert(s1, "approval_steps", StepColumns, [Num(id), Num(0), approvers[0]], now);
    assert o2.Failed? && s2.tables == s1.tables;
    assert InsertSteps(s1, Num(id), approvers, 0, now) == (s2, false);
    assert CreateWork(s, body, user, now) == (s2, false);
  }

  /** The store the approval insert and the step loop leave, as
      `CreateShape` describes it. */
  lemma CreatedStore(s: Store, body: CreateBody, user: Value, now: int)
    requires "approvals" in s.tables && "approvals" in s.next
    requires "approval_steps" in s.tables && "approval_steps" in s.next
    requires body.approvers.Some? && |body.approvers.value| > 0
    ensures var s1 := Insert(s, "approvals", ApprovalColumns, ApprovalParams(body, user, now), now).0;
      var s2 := InsertSteps(s1, Num(s.next["approvals"]), body.approvers.value, 0, now).0;
      var id := s.next["approvals"];
      && s2.tables.Keys == s.tables.Keys
      && (forall t :: t in s.tables && t != "approvals" && t != "approval_steps" ==> s2.tables[t] == s.tables[t])
      && s2.tables["approvals"] == s.tables["approvals"] + [ApprovalRecord(id, body, user, now)]
      && s2.next == s.next["approvals" := id + 1]["approval_steps" := s.next["approval_steps"] + |body.approvers.value|]
  {
    var id := s.next["approvals"];
    var s1 := Insert(s, "approvals", ApprovalColumns, ApprovalParams(body, user, now), now).0;
    StepsAfterApproval(s, s1, ApprovalRecord(id, body, user, now), Num(id), body.approvers.value, now);
  }

  /** The step loop run after the approval insert: it leaves the approval
      appended and moves the steps counter alone. */
  lemma StepsAfterApproval(s: Store, s1: Store, rec: Record, approvalId: Value, approvers: seq<Value>, now: int)
    requires "approvals" in s.tables && "approvals" in s.next
    requires "approval_steps" in s.tables && "approval_steps" in s.next
    requires s1.tables == s.tables["approvals" := s.tables["approvals"] + [rec]]
    requires s1.next == s.next["approvals" := s.next["approvals"] + 1]
    ensures var s2 := InsertSteps(s1, approvalId, approvers, 0, now).0;
      && s2.tables.Keys == s.tables.Keys
      && (forall t :: t in s.tables && t != "approvals" && t != "approval_steps" ==> s2.tables[t] == s.tables[t])
      && s2.tables["approvals"] == s.tables["approvals"] + [rec]
      && s2.next == s.next["approvals" := s.next["approvals"] + 1]["approval_steps" := s.next["approval_steps"] + |approvers|]
  {
    InsertStepsShape(s1, approvalId, approvers, 0, now);
    var s2 := InsertSteps(s1, approvalId, approvers, 0, now).0;
    CountersMove(s.next, s1.next, s2.next, s.next["approvals"] + 1, |approvers|);
  }

  /** The approvals counter set to `id`, then the steps counter moved by
      `n`. */
  lemma CountersMove(m0: map<string, int>, m1: map<string, int>, m2: map<string, int>, id: int, n: int)
    requires "approval_steps" in m0
    requires m1 == m0["approvals" := id]
    requires m2 == m1["approval_steps" := m1["approval_steps"] + (n - 0)]
    ensures m2 == m0["approvals" := id]["approval_steps" := m0["approval_steps"] + n]
  {
  }

  /** A create keeps a well-formed store well-formed. */
  lemma CreateWellFormed(s: Store, body: CreateBody, user: Value, now: int)
    requires WellFormed(s) && "approvals" in s.tables && "approval_steps" in s.tables
    requires body.approvers.Some? && |body.approvers.value| > 0
    ensures WellFormed(Create(s, body, user, now).0)
  {
    var params := ApprovalParams(body, user, now);
    ApprovalColumnsDistinct();
    InsertKeepsWellFormed(s, "approvals", ApprovalColumns, params, now);
    var s1 := Insert(s, "approvals", ApprovalColumns, params, now).0;
    CreateUnfolds(s, body, user, now);
    InsertStepsWellFormed(s1, Num(s.next["approvals"]), body.approvers.value, 0, now);
  }

  /** A create keeps every earlier step and appends one step per approver,
      in the order given, under consecutive step ids, numbered from 0 and
      linked to the new approval's id. */
  lemma CreateSteps(s: Store, body: CreateBody, user: Value, now: int)
    requires "approvals" in s.tables && "approvals" in s.next
    requires "approval_steps" in s.tables && "approval_steps" in s.next
    requires body.approvers.Some? && |body.approvers.value| > 0
    ensures var s' := Create(s, body, user, now).0;
      && "approval_steps" in s'.tables
      && Extends(s.tables["approval_steps"], s'.tables["approval_steps"],
                 s.next["approval_steps"], Num(s.next["approvals"]), body.approvers.value, 0)
  {
    var params := ApprovalParams(body, user, now);
    var s1 := Insert(s, "approvals", ApprovalColumns, params, now).0;
    assert s1.tables["approval_steps"] == s.tables["approval_steps"];
    assert s1.next["approval_steps"] == s.next["approval_steps"];
    CreateUnfolds(s, body, user, now);
    InsertStepsRows(s1, Num(s.next["approvals"]), body.approvers.value, 0, now);
  }

  // =====================================================================
  // POST /:id/approve and POST /:id/reject

  /** How the transaction callback of approve or reject ends: it ran to
      the end, it sent 403 and returned early, or a statement threw. */
  datatype Flow = Done | Forbidden | Broke

  /** Close the approval (lines 151-155 and 210-214) and, when it names
      an asset, close the asset too (lines 157-159 and 217-219). The two
      handlers write different status literals, which no update writes. */
  function Close(s: Store, id: string, approval: Record, now: int): (Store, Flow) {
    var (s1, o1) := Update(s, "approvals", Some(CloseSets), [Str(id)], now);
    if o1.Failed? then (s1, Broke)
    else if Truthy(Field(approval, "asset_id")) then
      var (s2, o2) := Update(s1, "assets", Some(CloseAssetSets), [Field(approval, "asset_id")], now);
      (s2, if o2.Failed? then Broke else Done)
    else (s1, Done)
  }

  /** Move the approval to its next step (lines 160-162). */
  function Advance(s: Store, id: string, now: int): (Store, Flow) {
    var (s1, o1) := Update(s, "approvals", Some(AdvanceSets), [Str(id)], now);
    (s1, if o1.Failed? then Broke else Done)
  }

  /** Lines 144-163, after the step update: count the steps, then close
      the approval and its asset when the count is 0, else advance the
      approval. The count query has no usable filter (see `PendingCount`),
      so it counts every step of every approval; reading `.count` of
      `null` throws. */
  function Settle(s: Store, id: string, approval: Record, now: int): (Store, Flow) {
    var pending := CountAll(s, "approval_steps");
    if pending.Nothing? then (s, Broke)
    else if StrictEquals(FieldOf(pending, "count"), Num(0)) then Close(s, id, approval, now)
    else Advance(s, id, now)
  }

  /** The transaction callback of lines 123-164. The step lookup is handed
      `[id, user]`, but its equality branch reads the first parameter only
      (`StatementsDispatch`): the step found is the first step of the
      approval, whoever its approver and whatever its status. */
  function ApproveWork(s: Store, id: string, comments: Value, approval: Record, now: int): (Store, Flow) {
    var step := LookupIn(s, "approval_steps", "approval_id", Str(id));
    if !step.Row? then (s, Forbidden)
    else
      var (s1, o1) := Update(s, "approval_steps", Some(StepApproveSets), [Or(comments, Null), Field(step.record, "id")], now);
      if o1.Failed? then (s1, Broke) else Settle(s1, id, approval, now)
  }

  /** The first response of approve or reject once the transaction has
      run: 403 or 500 as the callback ended, else 200 with the approval
      read again. The store is the one the transaction left. */
  function Respond(id: string, work: (Store, Flow)): (r: (Store, Reply))
    ensures r.0 == work.0
    ensures r.1 == Refused(403) <==> work.1 == Forbidden
    ensures r.1 == Refused(500) <==> work.1 == Broke
  {
    match work.1
    case Forbidden => (work.0, Refused(403))
    case Broke => (work.0, Refused(500))
    case Done => (work.0, ApprovalReply(200, RowOf(LookupIn(work.0, "approvals", "id", Str(id)))))
  }

  /** `POST /:id/approve` (lines 113-173). The reply is the first response
      sent: 404 without an approval, 403 when the callback sends it (the
      handler then carries on and its second response fails), 500 when a
      statement throws, else 200 with the approval read again. The user
      is not a parameter: nothing the handler runs reads it. */
  function Approve(s: Store, id: string, comments: Value, now: int): (r: (Store, Reply))
    ensures r.1 == Refused(404) <==> !Found(s, "approvals", "id", Str(id))
    ensures r.1 == Refused(404) || r.1 == Refused(403) ==> r.0 == s
    ensures r.1.Refused? ==> r.1.code == 404 || r.1.code == 403 || r.1.code == 500
    ensures r.1.ApprovalReply? ==> r.1.code == 200
  {
    var found := LookupIn(s, "approvals", "id", Str(id));
    if !found.Row? then (s, Refused(404))
    else
      Respond(id, Transaction(s, (s0: Store) => ApproveWork(s0, id, comments, found.record, now)))
  }

  /** The transaction callback of lines 189-220: update the step, close
      the approval, and reject its asset when it has one. */
  function RejectWork(s: Store, id: string, comments: Value, reason: Value, approval: Record, now: int): (Store, Flow) {
    var step := LookupIn(s, "approval_steps", "approval_id", Str(id));
    if !step.Row? then (s, Forbidden)
    else
      var (s1, o1) := Update(s, "approval_steps", Some(StepRejectSets), [Or(comments, Null), Or(reason, Null), Field(step.record, "id")], now);
      if o1.Failed? then (s1, Broke) else Close(s1, id, approval, now)
  }

  /** `POST /:id/reject` (lines 179-229), replying as `Approve` does. */
  function Reject(s: Store, id: string, comments: Value, reason: Value, now: int): (r: (Store, Reply))
    ensures r.1 == Refused(404) <==> !Found(s, "approvals", "id", Str(id))
    ensures r.1 == Refused(404) || r.1 == Refused(403) ==> r.0 == s
    ensures r.1.Refused? ==> r.1.code == 404 || r.1.code == 403 || r.1.code == 500
    ensures r.1.ApprovalReply? ==> r.1.code == 200
  {
    var found := LookupIn(s, "approvals", "id", Str(id));
    if !found.Row? then (s, Refused(404))
    else
      Respond(id, Transaction(s, (s0: Store) => RejectWork(s0, id, comments, reason, found.record, now)))
  }

  // =====================================================================
  // What approve and reject change

  /** The status, date and counter assignments are literals: they write
      nothing. */
  lemma LiteralSetsWriteNothing(c: string)
    ensures !Writes(CloseSets, c) && !Writes(CloseAssetSets, c) && !Writes(AdvanceSets, c)
  {
    WritesPlaceholders(CloseSets, c);
    WritesPlaceholders(CloseAssetSets, c);
    WritesPlaceholders(AdvanceSets, c);
  }

  /** The step updates write `comments`, and reject also
      `rejection_reason`; their status and date assignments write
      nothing. */
  lemma StepSetsWrite(c: string)
    ensures Writes(StepApproveSets, c) <==> c == "comments"
    ensures Writes(StepRejectSets, c) <==> c == "comments" || c == "rejection_reason"
  {
    WritesPlaceholders(StepApproveSets, c);
    WritesPlaceholders(StepRejectSets, c);
    assert Placeholders(StepApproveSets) == ["comments"];
    assert Placeholders(StepRejectSets) == ["comments", "rejection_reason"];
  }

  /** Closing changes no column but `updated_at`. */
  lemma CloseKeepsColumns(s: Store, id: string, approval: Record, now: int, c: string)
    requires c != "updated_at"
    ensures SameColumn(s, Close(s, id, approval, now).0, c)
  {
    LiteralSetsWriteNothing(c);
    var (s1, o1) := Update(s, "approvals", Some(CloseSets), [Str(id)], now);
    UpdateKeepsColumn(s, "approvals", Some(CloseSets), [Str(id)], now, c);
    if !o1.Failed? && Truthy(Field(approval, "asset_id")) {
      var s2 := Update(s1, "assets", Some(CloseAssetSets), [Field(approval, "asset_id")], now).0;
      UpdateKeepsColumn(s1, "assets", Some(CloseAssetSets), [Field(approval, "asset_id")], now, c);
      SameColumnTrans(s, s1, s2, c);
    }
  }

  /** The close-or-advance step changes no column but `updated_at`: in
      particular no status, `current_step` or `completed_at`, since those
      assignments are literals. */
  lemma SettleKeepsColumns(s: Store, id: string, approval: Record, now: int, c: string)
    requires c != "updated_at"
    ensures SameColumn(s, Settle(s, id, approval, now).0, c)
  {
    var pending := CountAll(s, "approval_steps");
    if !pending.Nothing? {
      if StrictEquals(FieldOf(pending, "count"), Num(0)) {
        CloseKeepsColumns(s, id, approval, now, c);
      } else {
        AdvanceKeepsColumns(s, id, now, c);
      }
    }
  }

  /** Advancing changes no column but `updated_at`. */
  lemma AdvanceKeepsColumns(s: Store, id: string, now: int, c: string)
    requires c != "updated_at"
    ensures SameColumn(s, Advance(s, id, now).0, c)
  {
    LiteralSetsWriteNothing(c);
    UpdateKeepsColumn(s, "approvals", Some(AdvanceSets), [Str(id)], now, c);
  }

  /** The approve callback changes no column but `comments` and
      `updated_at`. */
  lemma ApproveWorkKeepsColumns(s: Store, id: string, comments: Value, approval: Record, now: int, c: string)
    requires c != "comments" && c != "updated_at"
    ensures SameColumn(s, ApproveWork(s, id, comments, approval, now).0, c)
  {
    var step := LookupIn(s, "approval_steps", "approval_id", Str(id));
    if step.Row? {
      StepSetsWrite(c);
      var params := [Or(comments, Null), Field(step.record, "id")];
      var (s1, o1) := Update(s, "approval_steps", Some(StepApproveSets), params, now);
      UpdateKeepsColumn(s, "approval_steps", Some(StepApproveSets), params, now, c);
      if !o1.Failed? {
        SettleKeepsColumns(s1, id, approval, now, c);
        SameColumnTrans(s, s1, Settle(s1, id, approval, now).0, c);
      }
    }
  }

  /** An approve changes no column but `comments` and `updated_at`: in
      particular no status, `current_step` or `completed_at` of any
      approval, step or asset. */
  lemma ApproveKeepsColumns(s: Store, id: string, comments: Value, now: int, c: string)
    requires c != "comments" && c != "updated_at"
    ensures SameColumn(s, Approve(s, id, comments, now).0, c)
  {
    var found := LookupIn(s, "approvals", "id", Str(id));
    if found.Row? {
      ApproveWorkKeepsColumns(s, id, comments, found.record, now, c);
      assert Approve(s, id, comments, now).0 == ApproveWork(s, id, comments, found.record, now).0;
    }
  }

  /** The reject callback changes no column but `comments`,
      `rejection_reason` and `updated_at`. */
  lemma RejectWorkKeepsColumns(s: Store, id: string, comments: Value, reason: Value, approval: Record, now: int, c: string)
    requires c != "comments" && c != "rejection_reason" && c != "updated_at"
    ensures SameColumn(s, RejectWork(s, id, comments, reason, approval, now).0, c)
  {
    var step := LookupIn(s, "approval_steps", "approval_id", Str(id));
    if step.Row? {
      StepSetsWrite(c);
      var params := [Or(comments, Null), Or(reason, Null), Field(step.record, "id")];
      var (s1, o1) := Update(s, "approval_steps", Some(StepRejectSets), params, now);
      UpdateKeepsColumn(s, "approval_steps", Some(StepRejectSets), params, now, c);
      if !o1.Failed? {
        CloseKeepsColumns(s1, id, approval, now, c);
        SameColumnTrans(s, s1, Close(s1, id, approval, now).0, c);
      }
    }
  }

  /** A reject changes no column but `comments`, `rejection_reason` and
      `updated_at`. */
  lemma RejectKeepsColumns(s: Store, id: string, comments: Value, reason: Value, now: int, c: string)
    requires c != "comments" && c != "rejection_reason" && c != "updated_at"
    ensures SameColumn(s, Reject(s, id, comments, reason, now).0, c)
  {
    var found := LookupIn(s, "approvals", "id", Str(id));
    if found.Row? {
      RejectWorkKeepsColumns(s, id, comments, reason, found.record, now, c);
      assert Reject(s, id, comments, reason, now).0 == RejectWork(s, id, comments, reason, found.record, now).0;
    }
  }

  /** The step update of reject sets `comments` to `comments || null`,
      `rejection_reason` to `rejection_reason || null` and `updated_at`
      to now, and nothing else: its status and date assignments are
      literals. */
  lemma RejectedStep(r: Record, comments: Value, reason: Value, id: Value, now: int)
    ensures var r' := Assigned(r, StepRejectSets, [Or(comments, Null), Or(reason, Null), id], 0)["updated_at" := Time(now)];
      && Field(r', "comments") == Or(comments, Null)
      && Field(r', "rejection_reason") == Or(reason, Null)
      && Field(r', "updated_at") == Time(now)
      && forall c :: c != "comments" && c != "rejection_reason" && c != "updated_at" ==> Field(r', c) == Field(r, c)
  {
    var params := [Or(comments, Null), Or(reason, Null), id];
    var rec := Assigned(r, StepRejectSets, params, 0);
    assert Holes(StepRejectSets[..1]) == 0;
    var head := StepRejectSets[..2];
    assert head[1..] == [Assign("comments", true)];
    assert Holes(head[1..]) == 1 + Holes(head[1..][1..]);
    assert Holes(head) == 1;
    AssignedWrites(r, StepRejectSets, params, 0, 1);
    AssignedWrites(r, StepRejectSets, params, 0, 2);
    forall c | c != "comments" && c != "rejection_reason" && c != "updated_at"
      ensures Field(rec["updated_at" := Time(now)], c) == Field(r, c)
    {
      StepSetsWrite(c);
      AssignedKeeps(r, StepRejectSets, params, 0, c);
    }
  }

  /** On a well-formed store, when the approval exists and step `k` is the
      first step linked to the URL id, a reject rewrites step `k` with the
      comments and the rejection reason (each `|| null`) and the current
      time, keeps its other fields, and leaves every other step as it
      was. Closing the approval and its asset touches no step. */
  lemma RejectWritesStep(s: Store, id: string, comments: Value, reason: Value, now: int, k: nat)
    requires WellFormed(s) && Found(s, "approvals", "id", Str(id)) && "approval_steps" in s.tables
    requires k < |s.tables["approval_steps"]| && Matches("approval_id", Str(id))(s.tables["approval_steps"][k])
    requires forall j :: 0 <= j < k ==> !Matches("approval_id", Str(id))(s.tables["approval_steps"][j])
    ensures var s' := Reject(s, id, comments, reason, now).0;
      var rows := s.tables["approval_steps"];
      && "approval_steps" in s'.tables
      && |s'.tables["approval_steps"]| == |rows|
      && (forall i :: 0 <= i < |rows| && i != k ==> s'.tables["approval_steps"][i] == rows[i])
      && Field(s'.tables["approval_steps"][k], "comments") == Or(comments, Null)
      && Field(s'.tables["approval_steps"][k], "rejection_reason") == Or(reason, Null)
      && Field(s'.tables["approval_steps"][k], "updated_at") == Time(now)
      && (forall c :: c != "comments" && c != "rejection_reason" && c != "updated_at" ==>
            Field(s'.tables["approval_steps"][k], c) == Field(rows[k], c))
  {
    var t := "approval_steps";
    var rows := s.tables[t];
    var found := LookupIn(s, "approvals", "id", Str(id));
    var params := [Or(comments, Null), Or(reason, Null), Field(rows[k], "id")];
    var s1 := Update(s, t, Some(StepRejectSets), params, now).0;
    RejectWorkUnfolds(s, id, comments, reason, found.record, now, k);
    assert Reject(s, id, comments, reason, now).0 == RejectWork(s, id, comments, reason, found.record, now).0;
    var s' := Close(s1, id, found.record, now).0;
    CloseKeepsSteps(s1, id, found.record, now);
    RejectedRows(rows, s'.tables[t], k, comments, reason, Field(rows[k], "id"), now);
  }

  /** Step `k` rewritten by the reject step update, described field by
      field. */
  lemma RejectedRows(rows: seq<Record>, rows': seq<Record>, k: nat, comments: Value, reason: Value, id: Value, now: int)
    requires k < |rows|
    requires rows' == rows[k := Assigned(rows[k], StepRejectSets, [Or(comments, Null), Or(reason, Null), id], 0)["updated_at" := Time(now)]]
    ensures |rows'| == |rows|
    ensures forall i :: 0 <= i < |rows| && i != k ==> rows'[i] == rows[i]
    ensures Field(rows'[k], "comments") == Or(comments, Null)
    ensures Field(rows'[k], "rejection_reason") == Or(reason, Null)
    ensures Field(rows'[k], "updated_at") == Time(now)
    ensures forall c :: c != "comments" && c != "rejection_reason" && c != "updated_at" ==> Field(rows'[k], c) == Field(rows[k], c)
  {
    RejectedStep(rows[k], comments, reason, id, now);
  }

  /** Under the same conditions, the reject callback is the update of step
      `k` alone, followed by closing the approval. */
  lemma RejectWorkUnfolds(s: Store, id: string, comments: Value, reason: Value, approval: Record, now: int, k: nat)
    requires WellFormed(s) && "approval_steps" in s.tables
    requires k < |s.tables["approval_steps"]| && Matches("approval_id", Str(id))(s.tables["approval_steps"][k])
    requires forall j :: 0 <= j < k ==> !Matches("approval_id", Str(id))(s.tables["approval_steps"][j])
    ensures var rows := s.tables["approval_steps"];
      var params := [Or(comments, Null), Or(reason, Null), Field(rows[k], "id")];
      var s1 := Update(s, "approval_steps", Some(StepRejectSets), params, now).0;
      && "approval_steps" in s1.tables
      && s1.tables["approval_steps"] == rows[k := Assigned(rows[k], StepRejectSets, params, 0)["updated_at" := Time(now)]]
      && RejectWork(s, id, comments, reason, approval, now).0 == Close(s1, id, approval, now).0
  {
    var t := "approval_steps";
    var rows := s.tables[t];
    FindFirst(rows, Matches("approval_id", Str(id)), k);
    assert LookupIn(s, t, "approval_id", Str(id)) == Row(rows[k]);
    var params := [Or(comments, Null), Or(reason, Null), Field(rows[k], "id")];
    FindById(rows, k);
    assert Param(params, |params| - 1) == Field(rows[k], "id");
    UpdateEffect(s, t, StepRejectSets, params, now, k);
  }

  /** Closing the approval and its asset leaves the steps as they were. */
  lemma CloseKeepsSteps(s: Store, id: string, approval: Record, now: int)
    requires "approval_steps" in s.tables
    ensures var s' := Close(s, id, approval, now).0;
      "approval_steps" in s'.tables && s'.tables["approval_steps"] == s.tables["approval_steps"]
  {
    var (s1, o1) := Update(s, "approvals", Some(CloseSets), [Str(id)], now);
    UpdateElsewhere(s, "approvals", Some(CloseSets), [Str(id)], now);
    if !o1.Failed? && Truthy(Field(approval, "asset_id")) {
      UpdateElsewhere(s1, "assets", Some(CloseAssetSets), [Field(approval, "asset_id")], now);
    }
  }

  // =====================================================================
  // Text ids never reach a step

  /** No step links to its approval by a text value. */
  predicate NoTextLinks(s: Store) {
    "approval_steps" in s.tables ==>
      forall i :: 0 <= i < |s.tables["approval_steps"]| ==> !Field(s.tables["approval_steps"][i], "approval_id").Str?
  }

  /** Keeping the `approval_id` column keeps the links. */
  lemma SameLinks(s: Store, s': Store)
    requires NoTextLinks(s) && SameColumn(s, s', "approval_id")
    ensures NoTextLinks(s')
  {
    if "approval_steps" in s'.tables {
      var rows := s.tables["approval_steps"];
      assert forall i :: 0 <= i < |rows| ==> Field(s'.tables["approval_steps"][i], "approval_id") == Field(rows[i], "approval_id");
    }
  }

  /** With no text link in the store, the step lookup by a text id finds
      nothing. */
  lemma TextStepMissing(s: Store, id: string)
    requires NoTextLinks(s)
    ensures LookupIn(s, "approval_steps", "approval_id", Str(id)).Nothing?
  {
    if "approval_steps" in s.tables {
      var rows := s.tables["approval_steps"];
      forall i | 0 <= i < |rows| ensures !Matches("approval_id", Str(id))(rows[i]) {
        assert !Field(rows[i], "approval_id").Str?;
      }
    }
  }

  /** Approve without a step to find replies 403 (or 404) and changes
      nothing. */
  lemma ApproveWithoutStep(s: Store, id: string, comments: Value, now: int)
    requires LookupIn(s, "approval_steps", "approval_id", Str(id)).Nothing?
    ensures Approve(s, id, comments, now).0 == s
    ensures Approve(s, id, comments, now).1 in {Refused(403), Refused(404)}
  {
    var found := LookupIn(s, "approvals", "id", Str(id));
    if found.Row? {
      assert ApproveWork(s, id, comments, found.record, now) == (s, Forbidden);
    }
  }

  /** Reject without a step to find replies 403 (or 404) and changes
      nothing. */
  lemma RejectWithoutStep(s: Store, id: string, comments: Value, reason: Value, now: int)
    requires LookupIn(s, "approval_steps", "approval_id", Str(id)).Nothing?
    ensures Reject(s, id, comments, reason, now).0 == s
    ensures Reject(s, id, comments, reason, now).1 in {Refused(403), Refused(404)}
  {
    var found := LookupIn(s, "approvals", "id", Str(id));
    if found.Row? {
      assert RejectWork(s, id, comments, reason, found.record, now) == (s, Forbidden);
    }
  }

  /** The URL parameter is text and the step lookup compares it, unparsed,
      with `approval_id` by strict equality; with no text link in the
      store, approve never finds a step: it replies 403 (or 404) and
      changes nothing. */
  lemma ApproveTextIdForbidden(s: Store, id: string, comments: Value, now: int)
    requires NoTextLinks(s)
    ensures Approve(s, id, comments, now).0 == s
    ensures Approve(s, id, comments, now).1 in {Refused(403), Refused(404)}
  {
    TextStepMissing(s, id);
    ApproveWithoutStep(s, id, comments, now);
  }

  /** The same holds for reject. */
  lemma RejectTextIdForbidden(s: Store, id: string, comments: Value, reason: Value, now: int)
    requires NoTextLinks(s)
    ensures Reject(s, id, comments, reason, now).0 == s
    ensures Reject(s, id, comments, reason, now).1 in {Refused(403), Refused(404)}
  {
    TextStepMissing(s, id);
    RejectWithoutStep(s, id, comments, reason, now);
  }

  /** The step loop links every step it adds by `approvalId`, so it adds
      no text link when that is not text. */
  lemma {:induction false} InsertStepsKeepLinks(s: Store, approvalId: Value, approvers: seq<Value>, k: nat, now: int)
    requires k <= |approvers| && !approvalId.Str? && NoTextLinks(s)
    ensures NoTextLinks(InsertSteps(s, approvalId, approvers, k, now).0)
    decreases |approvers| - k
  {
    if k < |approvers| && "approval_steps" in s.tables {
      var t := "approval_steps";
      var params := [approvalId, Num(k), approvers[k]];
      var id := if t in s.next then Num(s.next[t]) else NaN;
      var s1 := Insert(s, t, StepColumns, params, now).0;
      StepColumnsDistinct();
      NewRecordField(id, StepColumns, params, now, 0);
      assert s1.tables[t] == s.tables[t] + [NewRecord(id, StepColumns, params, now)];
      InsertStepsKeepLinks(s1, approvalId, approvers, k + 1, now);
    }
  }

  /** A create adds no text link: the steps link by the id the approval
      insert handed out, a number (or NaN without a counter). */
  lemma CreateKeepsLinks(s: Store, body: CreateBody, user: Value, now: int)
    requires NoTextLinks(s)
    ensures NoTextLinks(Create(s, body, user, now).0)
  {
    if body.approvers.Some? && |body.approvers.value| > 0 {
      var (s1, o) := Insert(s, "approvals", ApprovalColumns, ApprovalParams(body, user, now), now);
      assert NoTextLinks(s1);
      if o.Changes? {
        assert !o.lastId.Str?;
        InsertStepsKeepLinks(s1, o.lastId, body.approvers.value, 0, now);
        assert CreateWork(s, body, user, now) == InsertSteps(s1, o.lastId, body.approvers.value, 0, now);
      } else {
        assert CreateWork(s, body, user, now) == (s1, false);
      }
      assert Create(s, body, user, now).0 == CreateWork(s, body, user, now).0;
    }
  }

  // =====================================================================
  // POST /bulk-approve

  /** One id of the loop of lines 245-270: nothing when the approval or a
      step is missing, else the step update and `approved`, or `error` when
      the update throws. The ids come from the JSON body, so they can be
      numbers, and then the step lookup does match. */
  function BulkOne(s: Store, id: Value, comments: Value, now: int): (r: (Store, Option<BulkResult>))
    ensures r.1.Some? <==> Found(s, "approvals", "id", id) && Found(s, "approval_steps", "approval_id", id)
    ensures r.1.None? ==> r.0 == s
    ensures r.1.Some? ==> r.1.value == Approved(id)
  {
    var found := LookupIn(s, "approvals", "id", id);
    if !found.Row? then (s, None)
    else
      var step := LookupIn(s, "approval_steps", "approval_id", id);
      if !step.Row? then (s, None)
      else
        var (s1, o) := Update(s, "approval_steps", Some(StepApproveSets), [Or(comments, Null), Field(step.record, "id")], now);
        (s1, Some(if o.Failed? then Errored(id) else Approved(id)))
  }

  /** The `forEach` over the ids, from the first on. */
  function BulkLoop(s: Store, ids: seq<Value>, comments: Value, now: int): (r: (Store, seq<BulkResult>))
    ensures |r.1| <= |ids|
    decreases |ids|
  {
    if |ids| == 0 then (s, [])
    else
      var (s1, one) := BulkOne(s, ids[0], comments, now);
      var (s2, rest) := BulkLoop(s1, ids[1..], comments, now);
      (s2, (if one.Some? then [one.value] else []) + rest)
  }

  /** `POST /bulk-approve` (lines 235-277): 400 without a non-empty id
      array, else one result per id that reached a step. */
  function BulkApprove(s: Store, ids: Option<seq<Value>>, comments: Value, now: int): (r: (Store, Reply))
    ensures r.1 == Refused(400) <==> ids.None? || |ids.value| == 0
    ensures r.1 == Refused(400) ==> r.0 == s
    ensures !r.1.Refused? ==> r.1.BulkReply? && |r.1.results| <= |ids.value|
  {
    if ids.None? || |ids.value| == 0 then (s, Refused(400))
    else
      var (s1, results) := BulkLoop(s, ids.value, comments, now);
      (s1, BulkReply(results))
  }

  /** `results` approves a subsequence of `ids`, in their order. */
  predicate Picks(results: seq<BulkResult>, ids: seq<Value>)
    decreases |ids|
  {
    if |results| == 0 then true
    else if |ids| == 0 then false
    else (results[0] == Approved(ids[0]) && Picks(results[1..], ids[1..])) || Picks(results, ids[1..])
  }

  /** The bulk loop reports `approved` for some of the ids, in the order
      given, and never `error`. */
  lemma {:induction false} BulkLoopPicks(s: Store, ids: seq<Value>, comments: Value, now: int)
    ensures Picks(BulkLoop(s, ids, comments, now).1, ids)
    decreases |ids|
  {
    if |ids| > 0 {
      var (s1, one) := BulkOne(s, ids[0], comments, now);
      BulkLoopPicks(s1, ids[1..], comments, now);
      var rest := BulkLoop(s1, ids[1..], comments, now).1;
      if one.Some? {
        assert ([one.value] + rest)[1..] == rest;
      } else {
        assert BulkLoop(s, ids, comments, now).1 == rest;
        if |rest| > 0 {}
      }
    }
  }

  /** The bulk loop changes no column but `comments` and `updated_at`. */
  lemma {:induction false} BulkLoopKeepsColumns(s: Store, ids: seq<Value>, comments: Value, now: int, c: string)
    requires c != "comments" && c != "updated_at"
    ensures SameColumn(s, BulkLoop(s, ids, comments, now).0, c)
    decreases |ids|
  {
    if |ids| > 0 {
      var (s1, one) := BulkOne(s, ids[0], comments, now);
      var step := LookupIn(s, "approval_steps", "approval_id", ids[0]);
      if step.Row? {
        StepSetsWrite(c);
        UpdateKeepsColumn(s, "approval_steps", Some(StepApproveSets), [Or(comments, Null), Field(step.record, "id")], now, c);
      }
      assert SameColumn(s, s1, c);
      BulkLoopKeepsColumns(s1, ids[1..], comments, now, c);
      SameColumnTrans(s, s1, BulkLoop(s1, ids[1..], comments, now).0, c);
    }
  }

  /** The bulk loop touches no collection but `approval_steps`: no
      approval, asset or other record changes. */
  lemma {:induction false} BulkLoopElsewhere(s: Store, ids: seq<Value>, comments: Value, now: int)
    ensures Elsewhere(s, BulkLoop(s, ids, comments, now).0, "approval_steps")
    decreases |ids|
  {
    if |ids| > 0 {
      var (s1, one) := BulkOne(s, ids[0], comments, now);
      var step := LookupIn(s, "approval_steps", "approval_id", ids[0]);
      if one.Some? {
        UpdateElsewhere(s, "approval_steps", Some(StepApproveSets), [Or(comments, Null), Field(step.record, "id")], now);
      }
      assert Elsewhere(s, s1, "approval_steps");
      BulkLoopElsewhere(s1, ids[1..], comments, now);
      ElsewhereTrans(s, s1, BulkLoop(s1, ids[1..], comments, now).0, "approval_steps");
    }
  }

  /** On a well-formed store, when the approval exists, the bulk step for
      `id` rewrites exactly the first step linked to `id`: its comments
      become `comments || null`, its `updated_at` the current time, every
      other field stays; no other record or collection changes. */
  lemma BulkOneEffect(s: Store, id: Value, comments: Value, now: int, k: nat)
    requires WellFormed(s) && Found(s, "approvals", "id", id) && "approval_steps" in s.tables
    requires k < |s.tables["approval_steps"]| && Matches("approval_id", id)(s.tables["approval_steps"][k])
    requires forall j :: 0 <= j < k ==> !Matches("approval_id", id)(s.tables["approval_steps"][j])
    ensures var s' := BulkOne(s, id, comments, now).0;
      var rows := s.tables["approval_steps"];
      && s'.tables.Keys == s.tables.Keys
      && (forall t :: t in s.tables && t != "approval_steps" ==> s'.tables[t] == s.tables[t])
      && |s'.tables["approval_steps"]| == |rows|
      && (forall i :: 0 <= i < |rows| && i != k ==> s'.tables["approval_steps"][i] == rows[i])
      && Field(s'.tables["approval_steps"][k], "comments") == Or(comments, Null)
      && Field(s'.tables["approval_steps"][k], "updated_at") == Time(now)
      && (forall c :: c != "comments" && c != "updated_at" ==>
            Field(s'.tables["approval_steps"][k], c) == Field(rows[k], c))
  {
    var rows := s.tables["approval_steps"];
    var params := [Or(comments, Null), Field(rows[k], "id")];
    var step := Assigned(rows[k], StepApproveSets, params, 0)["updated_at" := Time(now)];
    BulkOneUnfolds(s, id, comments, now, k);
    ApprovedStep(rows[k], comments, Field(rows[k], "id"), now);
    StepRewritten(s, BulkOne(s, id, comments, now).0, k, step, comments, now);
  }

  /** A store whose only change is step `k` rewritten as approve rewrites
      it, described field by field. */
  lemma StepRewritten(s: Store, s': Store, k: nat, step: Record, comments: Value, now: int)
    requires "approval_steps" in s.tables && k < |s.tables["approval_steps"]|
    requires s'.tables == s.tables["approval_steps" := s.tables["approval_steps"][k := step]]
    requires Field(step, "comments") == Or(comments, Null) && Field(step, "updated_at") == Time(now)
    requires forall c :: c != "comments" && c != "updated_at" ==> Field(step, c) == Field(s.tables["approval_steps"][k], c)
    ensures var rows := s.tables["approval_steps"];
      && s'.tables.Keys == s.tables.Keys
      && (forall t :: t in s.tables && t != "approval_steps" ==> s'.tables[t] == s.tables[t])
      && |s'.tables["approval_steps"]| == |rows|
      && (forall i :: 0 <= i < |rows| && i != k ==> s'.tables["approval_steps"][i] == rows[i])
      && Field(s'.tables["approval_steps"][k], "comments") == Or(comments, Null)
      && Field(s'.tables["approval_steps"][k], "updated_at") == Time(now)
      && (forall c :: c != "comments" && c != "updated_at" ==>
            Field(s'.tables["approval_steps"][k], c) == Field(rows[k], c))
  {
  }

  /** Under the same conditions, the bulk step is the update of step `k`
      alone. */
  lemma BulkOneUnfolds(s: Store, id: Value, comments: Value, now: int, k: nat)
    requires WellFormed(s) && Found(s, "approvals", "id", id) && "approval_steps" in s.tables
    requires k < |s.tables["approval_steps"]| && Matches("approval_id", id)(s.tables["approval_steps"][k])
    requires forall j :: 0 <= j < k ==> !Matches("approval_id", id)(s.tables["approval_steps"][j])
    ensures var rows := s.tables["approval_steps"];
      var params := [Or(comments, Null), Field(rows[k], "id")];
      BulkOne(s, id, comments, now).0.tables
        == s.tables["approval_steps" := rows[k := Assigned(rows[k], StepApproveSets, params, 0)["updated_at" := Time(now)]]]
  {
    var t := "approval_steps";
    var rows := s.tables[t];
    FindFirst(rows, Matches("approval_id", id), k);
    var params := [Or(comments, Null), Field(rows[k], "id")];
    FindById(rows, k);
    assert Param(params, |params| - 1) == Field(rows[k], "id");
    UpdateEffect(s, t, StepApproveSets, params, now, k);
    assert BulkOne(s, id, comments, now).0 == Update(s, t, Some(StepApproveSets), params, now).0;
  }

  /** The step update of approve and bulk approve sets `comments` to
      `comments || null` and `updated_at` to now, and nothing else. */
  lemma ApprovedStep(r: Record, comments: Value, id: Value, now: int)
    ensures var r' := Assigned(r, StepApproveSets, [Or(comments, Null), id], 0)["updated_at" := Time(now)];
      && Field(r', "comments") == Or(comments, Null)
      && Field(r', "updated_at") == Time(now)
      && forall c :: c != "comments" && c != "updated_at" ==> Field(r', c) == Field(r, c)
  {
    var params := [Or(comments, Null), id];
    var rec := Assigned(r, StepApproveSets, params, 0);
    assert Holes(StepApproveSets[..1]) == 0;
    AssignedWrites(r, StepApproveSets, params, 0, 1);
    forall c | c != "comments" && c != "updated_at"
      ensures Field(rec["updated_at" := Time(now)], c) == Field(r, c)
    {
      StepSetsWrite(c);
      AssignedKeeps(r, StepApproveSets, params, 0, c);
    }
  }

  /** A bulk approve on a non-empty id list answers with `approved` for a
      subsequence of the ids, in their order, changes no column but
      `comments` and `updated_at`, and leaves every collection but
      `approval_steps`, the approvals included, as it was. */
  lemma BulkApproveEffect(s: Store, ids: seq<Value>, comments: Value, now: int, c: string)
    requires |ids| > 0 && c != "comments" && c != "updated_at"
    ensures var (s', reply) := BulkApprove(s, Some(ids), comments, now);
      && reply.BulkReply?
      && Picks(reply.results, ids)
      && SameColumn(s, s', c)
      && Elsewhere(s, s', "approval_steps")
  {
    BulkLoopPicks(s, ids, comments, now);
    BulkLoopKeepsColumns(s, ids, comments, now, c);
    BulkLoopElsewhere(s, ids, comments, now);
  }

  /** No handler of this file ever links a step by text, so the text id of
      the approve and reject routes never finds a step. */
  lemma LinksInvariant(s: Store, body: CreateBody, user: Value, id: string, ids: Option<seq<Value>>, comments: Value, reason: Value, now: int)
    requires NoTextLinks(s)
    ensures NoTextLinks(Create(s, body, user, now).0)
    ensures NoTextLinks(Approve(s, id, comments, now).0)
    ensures NoTextLinks(Reject(s, id, comments, reason, now).0)
    ensures NoTextLinks(BulkApprove(s, ids, comments, now).0)
  {
    CreateKeepsLinks(s, body, user, now);
    ApproveTextIdForbidden(s, id, comments, now);
    RejectTextIdForbidden(s, id, comments, reason, now);
    if ids.Some? && |ids.value| > 0 {
      BulkLoopKeepsColumns(s, ids.value, comments, now, "approval_id");
      SameLinks(s, BulkApprove(s, ids, comments, now).0);
    }
  }

  // =====================================================================
  // GET /queue and GET /:id/history

  /** `GET /queue` (lines 10-58). `queryAll` reads only the table name,
      the first `FROM approvals`, which the optional filters appended
      after it cannot change; so every approval is listed in stored
      order, whatever the filters, and each gets the steps of every
      approval, since the steps query also reads only its table name. */
  function Queue(s: Store): (r: Reply)
    ensures r.QueueReply?
    ensures "approvals" !in s.tables ==> r.entries == []
    ensures "approvals" in s.tables ==>
      && |r.entries| == |s.tables["approvals"]|
      && forall i :: 0 <= i < |r.entries| ==>
           && r.entries[i].approval == s.tables["approvals"][i]
           && r.entries[i].steps == (if "approval_steps" in s.tables then s.tables["approval_steps"] else [])
  {
    var approvals := QueryAllTable(s, Some("approvals"));
    var steps := QueryAllTable(s, Some("approval_steps"));
    QueueReply(seq(|approvals|, i requires 0 <= i < |approvals| => QueueEntry(approvals[i], steps)))
  }

  /** `GET /:id/history` (lines 283-298): every step of every approval,
      whatever the id. */
  function History(s: Store, id: string): (r: Reply)
    ensures r.HistoryReply?
    ensures "approval_steps" in s.tables ==> r.steps == s.tables["approval_steps"]
    ensures "approval_steps" !in s.tables ==> r.steps == []
  {
    HistoryReply(QueryAllTable(s, Some("approval_steps")))
  }
}
