/** The audit views derived from the outbox: one row per maintainer action, one line per receipt. */
module OutboxAudit {
  import opened Claims
  import opened Outbox
  import opened OutboxRuns
  import opened Sorting

  datatype TargetKind = AllBroadcast | AllTargeted | Mixed

  datatype ActionRow = ActionRow(
    createdAt: Instant,
    action: ActionId,
    messageType: MessageType,
    policyId: PolicyId,
    policyName: string,
    policyScope: string,
    policyStatus: PolicyStatus,
    kind: TargetKind,
    inboxIds: set<InboxId>,
    targetAgents: set<AgentId>,
    deliveredAgents: set<AgentId>,
    outboxEntries: nat,
    sendEvents: nat)

  datatype SendLogRow = SendLogRow(sentAt: Instant, agent: AgentId, inboxId: InboxId, action: ActionId,
                                   policyId: PolicyId, messageType: MessageType)

  // ---- The send log ----

  function LogRow(e: Entry, m: DeliveredMark): SendLogRow {
    SendLogRow(m.sentAt, m.agent, e.inboxId, e.action, e.message.policy.id, e.message.kind)
  }

  function LogOf(e: Entry): seq<SendLogRow> {
    seq(|e.delivered|, i requires 0 <= i < |e.delivered| => LogRow(e, e.delivered[i]))
  }

  function SendLog(entries: seq<Entry>): seq<SendLogRow> {
    if entries == [] then [] else SendLog(entries[..|entries| - 1]) + LogOf(entries[|entries| - 1])
  }

  /** By the time of the receipt, then by agent. */
  function LogOrder(): (SendLogRow, SendLogRow) -> bool {
    (r: SendLogRow, s: SendLogRow) => r.sentAt < s.sentAt || (r.sentAt == s.sentAt && r.agent <= s.agent)
  }

  lemma LogOrderIsTotal()
    ensures TotalPreorder(LogOrder())
  {
  }

  method BuildSendLog(entries: seq<Entry>) returns (rows: seq<SendLogRow>)
    ensures multiset(rows) == multiset(SendLog(entries))
    ensures forall i, j :: 0 <= i < j < |rows| ==>
              rows[i].sentAt < rows[j].sentAt || (rows[i].sentAt == rows[j].sentAt && rows[i].agent <= rows[j].agent)
  {
    rows := [];
    for i := 0 to |entries|
      invariant rows == SendLog(entries[..i])
    {
      var e := entries[i];
      ghost var before := rows;
      for j := 0 to |e.delivered|
        invariant rows == before + LogOf(e)[..j]
      {
        rows := rows + [LogRow(e, e.delivered[j])];
      }
      assert LogOf(e)[..|e.delivered|] == LogOf(e);
      assert entries[..i + 1][..i] == entries[..i];
    }
    assert entries[..|entries|] == entries;
    LogOrderIsTotal();
    rows := Sort(LogOrder(), rows);
  }

  ghost predicate RowOfMark(row: SendLogRow, e: Entry, m: DeliveredMark) {
    && row.sentAt == m.sentAt && row.agent == m.agent
    && row.inboxId == e.inboxId && row.action == e.action
    && row.policyId == e.message.policy.id && row.messageType == e.message.kind
  }

  /** The log holds one row for each mark of each entry: the j-th mark of the i-th entry has a place of its own. */
  lemma {:induction false} SendLogAt(entries: seq<Entry>, i: nat, j: nat)
    requires i < |entries| && j < |entries[i].delivered|
    ensures var k := SendEvents(entries[..i]) + j;
            k < SendEvents(entries[..i + 1]) <= |SendLog(entries)| &&
            RowOfMark(SendLog(entries)[k], entries[i], entries[i].delivered[j])
  {
    var init := entries[..|entries| - 1];
    assert entries[..i + 1][..i] == entries[..i];
    SendLogLength(init);
    if i < |init| {
      assert init[..i] == entries[..i] && init[..i + 1] == entries[..i + 1];
      SendLogAt(init, i, j);
    } else {
      assert entries[..i + 1] == entries && entries[..i] == init;
    }
  }

  /** And no row besides. */
  lemma {:induction false} SendLogFrom(entries: seq<Entry>, k: nat) returns (i: nat, j: nat)
    requires k < |SendLog(entries)|
    ensures i < |entries| && j < |entries[i].delivered| && k == SendEvents(entries[..i]) + j
    ensures RowOfMark(SendLog(entries)[k], entries[i], entries[i].delivered[j])
  {
    var init := entries[..|entries| - 1];
    SendLogLength(init);
    if k < |SendLog(init)| {
      i, j := SendLogFrom(init, k);
      assert init[..i] == entries[..i];
    } else {
      i, j := |init|, k - |SendLog(init)|;
      assert entries[..i] == init;
    }
  }

  // ---- Action rows ----

  function OfAction(entries: seq<Entry>, a: ActionId): seq<Entry> {
    if entries == [] then [] else
      var last := |entries| - 1;
      var init := OfAction(entries[..last], a);
      if entries[last].action == a then init + [entries[last]] else init
  }

  lemma {:induction false} OfActionMembers(entries: seq<Entry>, a: ActionId, e: Entry)
    ensures e in OfAction(entries, a) <==> e in entries && e.action == a
  {
    if entries != [] {
      var last := |entries| - 1;
      OfActionMembers(entries[..last], a, e);
      assert entries == entries[..last] + [entries[last]];
    }
  }

  function SendEvents(entries: seq<Entry>): nat {
    if entries == [] then 0 else SendEvents(entries[..|entries| - 1]) + |entries[|entries| - 1].delivered|
  }

  predicate NotLater(e: Entry, f: Entry) {
    e.createdAt < f.createdAt || (e.createdAt == f.createdAt && e.inboxId <= f.inboxId)
  }

  function KindOf(entries: seq<Entry>): TargetKind {
    if forall e :: e in entries ==> e.target.Broadcast? then AllBroadcast
    else if forall e :: e in entries ==> e.target.Targeted? then AllTargeted
    else Mixed
  }

  /** The first entry of a group by creation time, then id. */
  function Earliest(group: seq<Entry>): Entry
    requires group != []
  {
    var last := |group| - 1;
    if last == 0 then group[0] else
      var e := Earliest(group[..last]);
      if NotLater(e, group[last]) then e else group[last]
  }

  function Receivers(group: seq<Entry>): set<AgentId> {
    set e, a | e in group && a in DeliveredAgents(e.delivered) :: a
  }

  function RowOf(group: seq<Entry>): ActionRow
    requires group != []
  {
    var first := Earliest(group);
    ActionRow(
      first.createdAt, first.action, first.message.kind, first.message.policy.id, first.message.policy.name,
      first.message.policy.scope, first.message.policy.status, KindOf(group),
      set e | e in group :: e.inboxId,
      set e | e in group && e.target.Targeted? :: e.target.agent,
      Receivers(group), |group|, SendEvents(group))
  }

  lemma {:induction false} EarliestIsFirst(group: seq<Entry>)
    requires group != []
    ensures Earliest(group) in group
    ensures forall e :: e in group ==> NotLater(Earliest(group), e)
  {
    var last := |group| - 1;
    if last > 0 {
      EarliestIsFirst(group[..last]);
      assert group == group[..last] + [group[last]];
    }
  }

  predicate TakenFrom(row: ActionRow, e: Entry) {
    row.action == e.action && row.createdAt == e.createdAt && row.messageType == e.message.kind &&
    row.policyId == e.message.policy.id && row.policyName == e.message.policy.name &&
    row.policyScope == e.message.policy.scope && row.policyStatus == e.message.policy.status
  }

  function Actions(rows: seq<ActionRow>): set<ActionId> {
    set row | row in rows :: row.action
  }

  /** No two rows are about the same action. */
  predicate OneEach(rows: seq<ActionRow>) {
    rows == [] ||
    (OneEach(rows[..|rows| - 1]) && rows[|rows| - 1].action !in Actions(rows[..|rows| - 1]))
  }

  lemma ActionsAppend(rows: seq<ActionRow>, row: ActionRow)
    ensures Actions(rows + [row]) == Actions(rows) + {row.action}
  {
  }

  /** Exactly one row per action that occurs, describing all of its entries. */
  ghost predicate Accounts(rows: seq<ActionRow>, entries: seq<Entry>) {
    && OneEach(rows)
    && (forall e :: e in entries ==> e.action in Actions(rows))
    && AllFit(rows, entries)
  }

  ghost predicate RowFits(row: ActionRow, entries: seq<Entry>) {
    OfAction(entries, row.action) != [] && row == RowOf(OfAction(entries, row.action))
  }

  ghost predicate AllFit(rows: seq<ActionRow>, entries: seq<Entry>) {
    forall row :: row in rows ==> RowFits(row, entries)
  }

  method GroupByAction(entries: seq<Entry>) returns (groups: map<ActionId, seq<Entry>>)
    ensures forall e :: e in entries ==> e.action in groups
    ensures forall a :: a in groups ==> groups[a] == OfAction(entries, a) && groups[a] != []
  {
    groups := map[];
    for i := 0 to |entries|
      invariant forall a :: OfAction(entries[..i], a) == if a in groups then groups[a] else []
      invariant forall a :: a in groups ==> groups[a] != []
    {
      var e := entries[i];
      assert entries[..i + 1][..i] == entries[..i];
      groups := groups[e.action := (if e.action in groups then groups[e.action] else []) + [e]];
    }
    assert entries[..|entries|] == entries;
    forall e | e in entries
      ensures e.action in groups
    {
      OfActionMembers(entries, e.action, e);
    }
  }

  method RowFor(group: seq<Entry>) returns (row: ActionRow)
    requires group != []
    ensures row == RowOf(group)
  {
    var first, events := group[0], |group[0].delivered|;
    var hasBroadcast, hasTargeted := group[0].target.Broadcast?, group[0].target.Targeted?;
    assert group[..1] == [group[0]];
    for i := 1 to |group|
      invariant first == Earliest(group[..i])
      invariant events == SendEvents(group[..i])
      invariant hasBroadcast <==> exists e :: e in group[..i] && e.target.Broadcast?
      invariant hasTargeted <==> exists e :: e in group[..i] && e.target.Targeted?
    {
      assert group[..i + 1] == group[..i] + [group[i]];
      if !NotLater(first, group[i]) {
        first := group[i];
      }
      events := events + |group[i].delivered|;
      hasBroadcast := hasBroadcast || group[i].target.Broadcast?;
      hasTargeted := hasTargeted || group[i].target.Targeted?;
    }
    assert group[..|group|] == group;
    var kind := if hasBroadcast && hasTargeted then Mixed else if hasBroadcast then AllBroadcast else AllTargeted;
    row := ActionRow(
      first.createdAt, first.action, first.message.kind, first.message.policy.id, first.message.policy.name,
      first.message.policy.scope, first.message.policy.status, kind,
      set e | e in group :: e.inboxId,
      set e | e in group && e.target.Targeted? :: e.target.agent,
      Receivers(group), |group|, events);
  }

  /** Newest first; actions of one time by id. */
  function RowOrder(): (ActionRow, ActionRow) -> bool {
    (r: ActionRow, s: ActionRow) => r.createdAt > s.createdAt || (r.createdAt == s.createdAt && r.action <= s.action)
  }

  lemma RowOrderIsTotal()
    ensures TotalPreorder(RowOrder())
  {
  }

  method BuildActionRows(entries: seq<Entry>) returns (rows: seq<ActionRow>)
    ensures Accounts(rows, entries)
    ensures forall i, j :: 0 <= i < j < |rows| ==>
              rows[i].createdAt > rows[j].createdAt ||
              (rows[i].createdAt == rows[j].createdAt && rows[i].action <= rows[j].action)
    ensures forall row :: row in rows ==> Describes(row, entries)
  {
    var groups := GroupByAction(entries);
    rows := [];
    var rest := groups.Keys;
    while rest != {}
      invariant OneEach(rows) && AllFit(rows, entries) && InOrder(RowOrder(), rows)
      invariant Actions(rows) !! rest && Actions(rows) + rest == groups.Keys
      decreases rest
    {
      var a :| a in rest;
      rows := AddRow(rows, groups[a], entries, a);
      rest := rest - {a};
    }
    forall row | row in rows
      ensures Describes(row, entries)
    {
      RowDescribes(row, entries);
    }
  }

  method AddRow(rows: seq<ActionRow>, group: seq<Entry>, ghost entries: seq<Entry>, ghost a: ActionId)
    returns (next: seq<ActionRow>)
    requires OneEach(rows) && AllFit(rows, entries) && InOrder(RowOrder(), rows) && a !in Actions(rows)
    requires group != [] && group == OfAction(entries, a)
    ensures OneEach(next) && AllFit(next, entries) && InOrder(RowOrder(), next)
    ensures Actions(next) == Actions(rows) + {a}
  {
    var row := RowFor(group);
    var at;
    RowOrderIsTotal();
    next, at := Insert(RowOrder(), rows, row);
    RowHasAction(entries, a);
    InsertedMembers(rows, at, row);
    InsertKeepsOneEach(rows, at, row);
  }

  lemma OneEachNext(rows: seq<ActionRow>, row: ActionRow)
    ensures OneEach(rows + [row]) <==> OneEach(rows) && row.action !in Actions(rows)
  {
    assert (rows + [row])[..|rows|] == rows;
  }

  lemma {:induction false} InsertKeepsOneEach(rows: seq<ActionRow>, at: nat, row: ActionRow)
    requires OneEach(rows) && row.action !in Actions(rows) && at <= |rows|
    ensures OneEach(Inserted(rows, at, row))
  {
    if at == |rows| {
      assert Inserted(rows, at, row) == rows + [row];
      OneEachNext(rows, row);
    } else {
      var init, last := rows[..|rows| - 1], rows[|rows| - 1];
      assert rows == init + [last];
      assert Inserted(rows, at, row) == Inserted(init, at, row) + [last];
      OneEachNext(init, last);
      ActionsAppend(init, last);
      InsertKeepsOneEach(init, at, row);
      InsertedMembers(init, at, row);
      OneEachNext(Inserted(init, at, row), last);
    }
  }

  lemma RowHasAction(entries: seq<Entry>, a: ActionId)
    requires OfAction(entries, a) != []
    ensures RowOf(OfAction(entries, a)).action == a
  {
    EarliestIsFirst(OfAction(entries, a));
    OfActionMembers(entries, a, Earliest(OfAction(entries, a)));
  }

  // ---- What a row says ----

  ghost predicate InGroup(row: ActionRow, entries: seq<Entry>, e: Entry) {
    e in entries && e.action == row.action
  }

  /** Policy and time come from the first entry of the group; the rest gathers the whole group. */
  ghost predicate Describes(row: ActionRow, entries: seq<Entry>) {
    && (exists first :: InGroup(row, entries, first) && TakenFromFirst(row, entries, first))
    && GathersAll(row, entries)
    && (row.kind == AllBroadcast <==> forall e :: InGroup(row, entries, e) ==> e.target == Broadcast)
    && (row.kind == AllTargeted <==> forall e :: InGroup(row, entries, e) ==> e.target != Broadcast)
  }

  ghost predicate GathersAll(row: ActionRow, entries: seq<Entry>) {
    && (forall id :: id in row.inboxIds <==> exists e :: InGroup(row, entries, e) && e.inboxId == id)
    && (forall a :: a in row.targetAgents <==> exists e :: InGroup(row, entries, e) && e.target == Targeted(a))
    && (forall a :: a in row.deliveredAgents <==> exists e :: InGroup(row, entries, e) && ReceivedBy(e, a))
  }

  ghost predicate ReceivedBy(e: Entry, a: AgentId) {
    exists m :: m in e.delivered && m.agent == a
  }

  ghost predicate TakenFromFirst(row: ActionRow, entries: seq<Entry>, first: Entry) {
    && row.createdAt == first.createdAt && row.messageType == first.message.kind
    && row.policyId == first.message.policy.id && row.policyName == first.message.policy.name
    && row.policyScope == first.message.policy.scope && row.policyStatus == first.message.policy.status
    && forall e :: InGroup(row, entries, e) ==>
         first.createdAt < e.createdAt || (first.createdAt == e.createdAt && first.inboxId <= e.inboxId)
  }

  lemma GroupMembers(row: ActionRow, entries: seq<Entry>)
    ensures forall e :: e in OfAction(entries, row.action) <==> InGroup(row, entries, e)
  {
    forall e
      ensures e in OfAction(entries, row.action) <==> InGroup(row, entries, e)
    {
      OfActionMembers(entries, row.action, e);
    }
  }

  lemma RowGathersAll(row: ActionRow, entries: seq<Entry>)
    requires RowFits(row, entries)
    ensures GathersAll(row, entries)
  {
    var group := OfAction(entries, row.action);
    GroupMembers(row, entries);
    forall a
      ensures a in row.targetAgents <==> exists e :: InGroup(row, entries, e) && e.target == Targeted(a)
    {
      if e :| InGroup(row, entries, e) && e.target == Targeted(a) {
        assert e in group && e.target.agent == a;
      }
    }
    forall a
      ensures a in row.deliveredAgents <==> exists e :: InGroup(row, entries, e) && ReceivedBy(e, a)
    {
      if e :| InGroup(row, entries, e) && ReceivedBy(e, a) {
        assert e in group && a in DeliveredAgents(e.delivered);
      }
    }
  }

  lemma RowDescribes(row: ActionRow, entries: seq<Entry>)
    requires RowFits(row, entries)
    ensures Describes(row, entries)
  {
    var group := OfAction(entries, row.action);
    GroupMembers(row, entries);
    RowGathersAll(row, entries);
    EarliestIsFirst(group);
    var first := Earliest(group);
    assert InGroup(row, entries, first) && TakenFromFirst(row, entries, first);
    assert forall e :: e in group ==> InGroup(row, entries, e);
  }

  // ---- Conservation ----

  function TotalEntries(rows: seq<ActionRow>): nat {
    if rows == [] then 0 else TotalEntries(rows[..|rows| - 1]) + rows[|rows| - 1].outboxEntries
  }

  function TotalEvents(rows: seq<ActionRow>): nat {
    if rows == [] then 0 else TotalEvents(rows[..|rows| - 1]) + rows[|rows| - 1].sendEvents
  }

  function Others(entries: seq<Entry>, a: ActionId): seq<Entry> {
    if entries == [] then [] else
      var last := |entries| - 1;
      var init := Others(entries[..last], a);
      if entries[last].action == a then init else init + [entries[last]]
  }

  lemma {:induction false} OthersMembers(entries: seq<Entry>, a: ActionId, e: Entry)
    ensures e in Others(entries, a) <==> e in entries && e.action != a
  {
    if entries != [] {
      var last := |entries| - 1;
      OthersMembers(entries[..last], a, e);
      assert entries == entries[..last] + [entries[last]];
    }
  }

  lemma {:induction false} SplitByAction(entries: seq<Entry>, a: ActionId)
    ensures |entries| == |OfAction(entries, a)| + |Others(entries, a)|
    ensures SendEvents(entries) == SendEvents(OfAction(entries, a)) + SendEvents(Others(entries, a))
  {
    if entries != [] {
      var last := |entries| - 1;
      SplitByAction(entries[..last], a);
      SendEventsAppend(OfAction(entries[..last], a), entries[last]);
      SendEventsAppend(Others(entries[..last], a), entries[last]);
    }
  }

  lemma SendEventsAppend(entries: seq<Entry>, e: Entry)
    ensures SendEvents(entries + [e]) == SendEvents(entries) + |e.delivered|
  {
    assert (entries + [e])[..|entries|] == entries;
  }

  lemma {:induction false} OthersKeepGroups(entries: seq<Entry>, a: ActionId, b: ActionId)
    requires a != b
    ensures OfAction(Others(entries, a), b) == OfAction(entries, b)
  {
    if entries != [] {
      var last := |entries| - 1;
      OthersKeepGroups(entries[..last], a, b);
      var others := Others(entries[..last], a);
      if entries[last].action != a {
        assert (others + [entries[last]])[..|others|] == others;
      }
    }
  }

  /** Without its last row, the report accounts for the entries of the other actions. */
  lemma DropLastRow(rows: seq<ActionRow>, entries: seq<Entry>)
    requires rows != [] && Accounts(rows, entries)
    ensures Accounts(rows[..|rows| - 1], Others(entries, rows[|rows| - 1].action))
  {
    var init, last := rows[..|rows| - 1], rows[|rows| - 1];
    var rest := Others(entries, last.action);
    assert rows == init + [last];
    ActionsAppend(init, last);
    forall e | e in rest
      ensures e.action in Actions(init)
    {
      OthersMembers(entries, last.action, e);
    }
    forall row | row in init
      ensures RowFits(row, rest)
    {
      assert row.action in Actions(init);
      assert row in rows && RowFits(row, entries);
      OthersKeepGroups(entries, last.action, row.action);
    }
  }

  /** Nothing is counted twice and nothing is lost: rows add up to the outbox and to the send log. */
  lemma {:induction false} RowsAddUp(rows: seq<ActionRow>, entries: seq<Entry>)
    requires Accounts(rows, entries)
    ensures TotalEntries(rows) == |entries|
    ensures TotalEvents(rows) == |SendLog(entries)|
    decreases |rows|
  {
    SendLogLength(entries);
    if rows == [] {
      NoRowsNoEntries(entries);
    } else {
      var last := rows[|rows| - 1];
      assert last in rows;
      DropLastRow(rows, entries);
      SplitByAction(entries, last.action);
      SendLogLength(Others(entries, last.action));
      RowsAddUp(rows[..|rows| - 1], Others(entries, last.action));
    }
  }

  lemma HasEntry(entries: seq<Entry>)
    ensures entries != [] ==> exists e :: e in entries
  {
    if entries != [] {
      assert entries[0] in entries;
    }
  }

  lemma NoRowsNoEntries(entries: seq<Entry>)
    requires forall e :: e in entries ==> e.action in Actions([])
    ensures entries == []
  {
    HasEntry(entries);
  }

  lemma {:induction false} SendLogLength(entries: seq<Entry>)
    ensures |SendLog(entries)| == SendEvents(entries)
  {
    if entries != [] {
      SendLogLength(entries[..|entries| - 1]);
    }
  }

  /** In every reachable state a row speaks for its whole group, and no action mixes target kinds. */
  lemma RowsSpeakForTheirGroups(l: Ledger, entries: seq<Entry>, row: ActionRow)
    requires Inv(l) && forall e :: e in entries ==> e.inboxId in l.outbox && l.outbox[e.inboxId] == e
    requires RowFits(row, entries)
    ensures row.kind != Mixed
    ensures forall e :: e in entries && e.action == row.action ==>
              TakenFrom(row, e) && (e.target.Broadcast? <==> row.kind == AllBroadcast)
  {
    var group := OfAction(entries, row.action);
    var first := Earliest(group);
    EarliestIsFirst(group);
    forall e
      ensures e in group <==> e in entries && e.action == row.action
    {
      OfActionMembers(entries, row.action, e);
    }
    forall e | e in group
      ensures TakenFrom(row, e) && (e.target.Broadcast? <==> first.target.Broadcast?)
    {
      assert SameCall(l.outbox[first.inboxId], l.outbox[e.inboxId]);
    }
  }
}
