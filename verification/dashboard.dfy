/** server/services/dashboardService.js: the dashboard counts and the
    recent-activity feed, as clients of `queryOne` and `queryAll`.

    Every count statement is taken apart by hand into the `Stmt` the
    scanners of module Patterns produce for it. None of them passes a
    filter to the count branch: the literal-valued ones carry no
    parameter, and the SLA one has a where expression the regular
    expression cannot match. */
module Dashboard {
  import opened Js
  import opened Database

  // =====================================================================
  // The statements, taken apart

  /** `SELECT COUNT(*) as count FROM t`: `count(*)` present, no `where`,
      the first group is `*`. */
  function Total(t: string): Stmt {
    Stmt(Some(t), SelectVerb, true, false, None, None, ["*"], None)
  }

  /** `SELECT COUNT(*) as count FROM t WHERE c = 'v'`: the where
      expression runs to the end of the text; the equality head needs `?`
      after `=` and finds a quote. */
  function Literal(t: string, clause: string): Stmt {
    Stmt(Some(t), SelectVerb, true, true, Some(clause), None, ["*"], None)
  }

  /** Lines 35-38: `FROM approvals`, `count(*)` present; the where
      expression is stopped by the newline after `< ?` (no `s` flag, and
      `$` is only the end of the text); the equality head finds a quote. */
  const SlaCount: Stmt := Stmt(Some("approvals"), SelectVerb, true, true, None, None, ["*"], None)

  // =====================================================================
  // getDashboardStats

  datatype CampaignStats = CampaignStats(total: Value, active: Value, draft: Value, completed: Value)
  datatype AssetStats = AssetStats(total: Value, images: Value, videos: Value, pending: Value)
  datatype ApprovalStats = ApprovalStats(pending: Value, approved: Value, rejected: Value, slaWarnings: Value)
  datatype UserStats = UserStats(total: Value, active: Value)
  datatype Stats = Stats(campaigns: CampaignStats, assets: AssetStats, approvals: ApprovalStats, users: UserStats)

  /** `queryOne(sql, params)?.count || 0` */
  function Stat(s: Store, st: Stmt, params: seq<Value>): (r: Value)
    ensures st.hasCount ==> r.Num? && r.n >= 0
    ensures st.hasCount && (st.table.None? || st.table.value !in s.tables) ==> r == Num(0)
  {
    Or(FieldOf(QueryOneStmt(s, st, params), "count"), Num(0))
  }

  /** The number of records of collection `t`; 0 when it does not exist. */
  function Size(s: Store, t: string): nat {
    if t in s.tables then |s.tables[t]| else 0
  }

  /** A count the dashboard reports: a number, never negative. */
  predicate IsCount(v: Value) {
    v.Num? && v.n >= 0
  }

  /** `getDashboardStats(userId)` (lines 6-49). The user id is not
      consulted; `now` is the clock, and the SLA horizon is 24 hours
      later. Every figure is a count, even for a missing collection; what
      each count is, is stated by the `…StatsAreSizes` lemmas below. */
  function DashboardStats(s: Store, now: int): (r: Stats)
    ensures IsCount(r.campaigns.total) && IsCount(r.campaigns.active)
    ensures IsCount(r.campaigns.draft) && IsCount(r.campaigns.completed)
    ensures IsCount(r.assets.total) && IsCount(r.assets.images)
    ensures IsCount(r.assets.videos) && IsCount(r.assets.pending)
    ensures IsCount(r.approvals.pending) && IsCount(r.approvals.approved)
    ensures IsCount(r.approvals.rejected) && IsCount(r.approvals.slaWarnings)
    ensures IsCount(r.users.total) && IsCount(r.users.active)
  {
    var sla := Stat(s, SlaCount, [Time(now + 24 * HourMs)]);
    Stats(
      CampaignStats(
        Stat(s, Total("campaigns"), []),
        Stat(s, Literal("campaigns", "status = 'active'"), []),
        Stat(s, Literal("campaigns", "status = 'draft'"), []),
        Stat(s, Literal("campaigns", "status = 'completed'"), [])),
      AssetStats(
        Stat(s, Total("assets"), []),
        Stat(s, Literal("assets", "type = 'image'"), []),
        Stat(s, Literal("assets", "type = 'video'"), []),
        Stat(s, Literal("assets", "status = 'uploaded'"), [])),
      ApprovalStats(
        Stat(s, Literal("approvals", "status = 'pending'"), []),
        Stat(s, Literal("approvals", "status = 'approved'"), []),
        Stat(s, Literal("approvals", "status = 'rejected'"), []),
        sla),
      UserStats(
        Stat(s, Total("users"), []),
        Stat(s, Literal("users", "status = 'active'"), [])))
  }

  /** A count statement whose filter the count branch cannot apply (no
      usable where expression, or no parameter) counts the whole
      collection. */
  lemma StatIsSize(s: Store, st: Stmt, params: seq<Value>)
    requires st.hasCount && st.table.Some?
    requires !(st.hasWhere && st.whereClause.Some? && |params| > 0)
    ensures Stat(s, st, params) == Num(Size(s, st.table.value))
  {
    var o := QueryOneStmt(s, st, params);
    if st.table.value in s.tables {
      assert CountedRows(s.tables[st.table.value], st, params) == s.tables[st.table.value];
      assert o == Count(Size(s, st.table.value));
    }
  }

  /** Every campaign count is the number of campaigns: the status written
      as a literal is never compared. */
  lemma CampaignStatsAreSizes(s: Store, now: int)
    ensures var c := DashboardStats(s, now).campaigns;
      var n := Num(Size(s, "campaigns"));
      c.total == n && c.active == n && c.draft == n && c.completed == n
  {
    StatIsSize(s, Total("campaigns"), []);
    StatIsSize(s, Literal("campaigns", "status = 'active'"), []);
    StatIsSize(s, Literal("campaigns", "status = 'draft'"), []);
    StatIsSize(s, Literal("campaigns", "status = 'completed'"), []);
  }

  /** Every asset count is the number of assets. */
  lemma AssetStatsAreSizes(s: Store, now: int)
    ensures var a := DashboardStats(s, now).assets;
      var n := Num(Size(s, "assets"));
      a.total == n && a.images == n && a.videos == n && a.pending == n
  {
    StatIsSize(s, Total("assets"), []);
    StatIsSize(s, Literal("assets", "type = 'image'"), []);
    StatIsSize(s, Literal("assets", "type = 'video'"), []);
    StatIsSize(s, Literal("assets", "status = 'uploaded'"), []);
  }

  /** Every approval count, the SLA warnings included, is the number of
      approvals: the SLA statement has a parameter but no where expression
      the count branch can read. */
  lemma ApprovalStatsAreSizes(s: Store, now: int)
    ensures var a := DashboardStats(s, now).approvals;
      var n := Num(Size(s, "approvals"));
      a.pending == n && a.approved == n && a.rejected == n && a.slaWarnings == n
  {
    StatIsSize(s, Literal("approvals", "status = 'pending'"), []);
    StatIsSize(s, Literal("approvals", "status = 'approved'"), []);
    StatIsSize(s, Literal("approvals", "status = 'rejected'"), []);
    StatIsSize(s, SlaCount, [Time(now + 24 * HourMs)]);
  }

  /** Both user counts are the number of users. */
  lemma UserStatsAreSizes(s: Store, now: int)
    ensures var u := DashboardStats(s, now).users;
      var n := Num(Size(s, "users"));
      u.total == n && u.active == n
  {
    StatIsSize(s, Total("users"), []);
    StatIsSize(s, Literal("users", "status = 'active'"), []);
  }

  // =====================================================================
  // getRecentActivity

  /** `getRecentActivity(limit)` (lines 54-67): the whole activity log in
      stored order, newest last, whatever the limit; the `ORDER BY` and
      `LIMIT` text is never read. */
  function RecentActivity(s: Store, limit: Value): (r: seq<Record>)
    ensures "activity_log" in s.tables ==> r == s.tables["activity_log"]
    ensures "activity_log" !in s.tables ==> r == []
    ensures |r| == Size(s, "activity_log")
  {
    QueryAllTable(s, Some("activity_log"))
  }
}
