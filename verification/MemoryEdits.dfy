/**
 Batches of edits to the agent's two memory files. A batch is applied in memory, duplicates are dropped at
 its end, and nothing is written unless both files fit.
 */
module MemoryEdits {
  import opened Claims
  import opened Sequences
  import opened MemoryText
  import Text

  datatype Target = Memory | User

  datatype Op =
    | Add(target: Target, entry: string)
    | Replace(target: Target, oldText: string, newText: string)
    | Remove(target: Target, oldText: string)
  {
    function NewText(): Option<string> {
      match this
      case Add(_, entry) => Some(entry)
      case Replace(_, _, text) => Some(text)
      case Remove(_, _) => None
    }
  }

  datatype Error =
    | CapacityExceeded(target: Target, current: nat, cap: nat, needFree: nat, entries: seq<string>)
    | AmbiguousSubstring(target: Target, matches: nat, needle: string)
    | ReservedDelimiter(target: Target)
    | EmptyEntry(target: Target)

  datatype Note = Added | AlreadyExists | Replaced | Removed

  datatype Store = Store(memory: seq<string>, user: seq<string>) {
    function Of(target: Target): seq<string> {
      if target == Memory then memory else user
    }

    function With(target: Target, entries: seq<string>): Store {
      if target == Memory then this.(memory := entries) else this.(user := entries)
    }

    ghost predicate Clean() {
      AllClean(memory) && AllClean(user)
    }
  }

  function Other(target: Target): Target {
    if target == Memory then User else Memory
  }

  // ---- Finding the entry an edit means ----

  predicate OccursAt(s: string, needle: string, i: nat) {
    i + |needle| <= |s| && s[i..i + |needle|] == needle
  }

  predicate Contains(s: string, needle: string) {
    exists i :: 0 <= i <= |s| && OccursAt(s, needle, i)
  }

  function MatchIndices(entries: seq<string>, needle: string): (r: seq<nat>)
    ensures forall k :: 0 <= k < |r| ==> r[k] < |entries|
  {
    if entries == [] then [] else
      var last := |entries| - 1;
      var init := MatchIndices(entries[..last], needle);
      if Contains(entries[last], needle) then init + [last] else init
  }

  function UniqueMatchIndex(entries: seq<string>, target: Target, text: string): (r: Result<nat, Error>)
    ensures r.Ok? ==> r.value < |entries|
  {
    var needle := Text.Trim(text);
    if needle == "" then Err(AmbiguousSubstring(target, 0, needle)) else
      var matches := MatchIndices(entries, needle);
      if matches != [] && forall k :: 0 <= k < |matches| ==> entries[matches[k]] == entries[matches[0]]
      then Ok(matches[0])
      else Err(AmbiguousSubstring(target, |matches|, needle))
  }

  /** Index i is where the needle first occurs, and it occurs in no entry reading otherwise. */
  ghost predicate Designates(entries: seq<string>, needle: string, i: nat) {
    && needle != ""
    && i < |entries| && Contains(entries[i], needle)
    && (forall k :: 0 <= k < i ==> !Contains(entries[k], needle))
    && (forall k :: 0 <= k < |entries| && Contains(entries[k], needle) ==> entries[k] == entries[i])
  }

  lemma {:induction false} MatchIndicesAreTheMatches(entries: seq<string>, needle: string)
    ensures forall i: nat :: i in MatchIndices(entries, needle) <==> i < |entries| && Contains(entries[i], needle)
    ensures Ascending(MatchIndices(entries, needle))
  {
    if entries != [] {
      var init := entries[..|entries| - 1];
      MatchIndicesAreTheMatches(init, needle);
      assert forall i :: 0 <= i < |init| ==> entries[i] == init[i];
    }
  }

  ghost predicate Ascending(xs: seq<nat>) {
    forall j, k :: 0 <= j < k < |xs| ==> xs[j] < xs[k]
  }

  /** An edit finds entry i exactly when its trimmed text designates it. */
  lemma MatchIsExact(entries: seq<string>, target: Target, text: string, i: nat)
    ensures UniqueMatchIndex(entries, target, text) == Ok(i) <==> Designates(entries, Text.Trim(text), i)
  {
    var needle := Text.Trim(text);
    var matches := MatchIndices(entries, needle);
    MatchIndicesAreTheMatches(entries, needle);
    if Designates(entries, needle, i) {
      assert i in matches;
      assert matches[0] in matches;
    }
    if UniqueMatchIndex(entries, target, text).Ok? {
      assert matches[0] in matches;
      assert forall k :: 0 <= k < |entries| && Contains(entries[k], needle) ==> k in matches;
    }
  }

  /** An edit finds nothing exactly when its text is blank, occurs nowhere, or occurs in two different entries. */
  lemma MatchFailsExactly(entries: seq<string>, target: Target, text: string)
    ensures UniqueMatchIndex(entries, target, text).Err? <==>
            || Text.Blank(text)
            || (forall k :: 0 <= k < |entries| ==> !Contains(entries[k], Text.Trim(text)))
            || (exists j, k :: 0 <= j < |entries| && 0 <= k < |entries| && entries[j] != entries[k] &&
                  Contains(entries[j], Text.Trim(text)) && Contains(entries[k], Text.Trim(text)))
    ensures UniqueMatchIndex(entries, target, text).Err? ==>
              UniqueMatchIndex(entries, target, text).error.AmbiguousSubstring?
  {
    var needle := Text.Trim(text);
    var matches := MatchIndices(entries, needle);
    MatchIndicesAreTheMatches(entries, needle);
    Text.TrimBlank(text);
    if matches != [] {
      assert matches[0] in matches;
    }
  }

  // ---- One edit, a batch ----

  function Without(entries: seq<string>, i: nat): seq<string>
    requires i < |entries|
  {
    entries[..i] + entries[i + 1..]
  }

  function ApplyOp(store: Store, op: Op): Result<(Store, Note), Error> {
    if op.NewText().Some? && SECTION in op.NewText().value then Err(ReservedDelimiter(op.target)) else
      var entries := store.Of(op.target);
      match op
      case Add(t, entry) =>
        var e := Text.Trim(entry);
        if e == "" then Err(EmptyEntry(t))
        else if e in entries then Ok((store, AlreadyExists))
        else Ok((store.With(t, entries + [e]), Added))
      case Replace(t, oldText, newText) =>
        var e := Text.Trim(newText);
        if e == "" then Err(EmptyEntry(t)) else
          (match UniqueMatchIndex(entries, t, oldText)
           case Err(error) => Err(error)
           case Ok(i) => Ok((store.With(t, entries[i := e]), Replaced)))
      case Remove(t, oldText) =>
        match UniqueMatchIndex(entries, t, oldText)
        case Err(error) => Err(error)
        case Ok(i) => Ok((store.With(t, Without(entries, i)), Removed))
  }

  datatype Progress = Progress(store: Store, target: Option<Target>, note: Option<Note>)

  function RunOps(start: Store, ops: seq<Op>): Result<Progress, Error> {
    if ops == [] then Ok(Progress(start, None, None)) else
      var last := ops[|ops| - 1];
      match RunOps(start, ops[..|ops| - 1])
      case Err(error) => Err(error)
      case Ok(p) =>
        match ApplyOp(p.store, last)
        case Err(error) => Err(error)
        case Ok((store, note)) => Ok(Progress(store, Some(last.target), Some(note)))
  }

  datatype Usage = Usage(chars: nat, cap: nat, percent: nat, entryCount: nat)

  function Min(a: nat, b: nat): nat {
    if a <= b then a else b
  }

  function UsageOf(entries: seq<string>, cap: nat): Usage {
    var chars := |RenderEntries(entries)|;
    Usage(chars, cap, Percent(chars, cap), |entries|)
  }

  function Percent(chars: nat, cap: nat): nat {
    if cap > 0 then Min(Min(chars * 100, MAX_COUNT) / cap, 100) else 0
  }

  datatype Report = Report(memory: Usage, user: Usage, target: Option<Target>, targetEntries: seq<string>, noOp: bool,
                           note: Option<Note>)

  datatype Outcome = Outcome(memory: string, user: string, report: Report) {
    function Of(target: Target): string {
      if target == Memory then memory else user
    }
  }

  function CheckCapacity(target: Target, entries: seq<string>, cap: nat): Option<Error> {
    var current := |RenderEntries(entries)|;
    if current > cap then Some(CapacityExceeded(target, current, cap, current - cap, entries)) else None
  }

  function Parsed(memory: string, user: string): Store {
    Store(ParseEntries(memory), ParseEntries(user))
  }

  /** What the batch leaves to be written and reported, once its edits have been made. */
  function Settle(original: Store, progress: Progress, memoryCap: nat, userCap: nat): Result<Outcome, Error> {
    var store := Store(Distinct(progress.store.memory), Distinct(progress.store.user));
    if CheckCapacity(Memory, store.memory, memoryCap).Some? then
      Err(CheckCapacity(Memory, store.memory, memoryCap).value)
    else if CheckCapacity(User, store.user, userCap).Some? then
      Err(CheckCapacity(User, store.user, userCap).value)
    else
      var memory, user := RenderEntries(store.memory), RenderEntries(store.user);
      var report := Report(
        UsageOf(store.memory, memoryCap),
        UsageOf(store.user, userCap),
        progress.target,
        if progress.target.Some? then store.Of(progress.target.value) else [],
        memory == RenderEntries(original.memory) && user == RenderEntries(original.user),
        progress.note);
      Ok(Outcome(memory, user, report))
  }

  function ApplyOpsToTexts(memory: string, user: string, memoryCap: nat, userCap: nat, ops: seq<Op>):
    Result<Outcome, Error>
  {
    match RunOps(Parsed(memory, user), ops)
    case Err(error) => Err(error)
    case Ok(progress) => Settle(Parsed(memory, user), progress, memoryCap, userCap)
  }

  lemma {:induction false} FirstErrorStops(start: Store, ops: seq<Op>, i: nat)
    requires i <= |ops| && RunOps(start, ops[..i]).Err?
    ensures RunOps(start, ops) == RunOps(start, ops[..i])
    decreases |ops|
  {
    if i == |ops| {
      assert ops[..i] == ops;
    } else {
      var init := ops[..|ops| - 1];
      assert init[..i] == ops[..i];
      FirstErrorStops(start, init, i);
    }
  }

  method Apply(memory: string, user: string, memoryCap: nat, userCap: nat, ops: seq<Op>)
    returns (r: Result<Outcome, Error>)
    ensures r == ApplyOpsToTexts(memory, user, memoryCap, userCap, ops)
  {
    var parsedMemory := Parse(memory);
    var parsedUser := Parse(user);
    var start := Store(parsedMemory, parsedUser);
    var progress := Progress(start, None, None);
    for i := 0 to |ops|
      invariant RunOps(start, ops[..i]) == Ok(progress)
    {
      assert ops[..i + 1][..i] == ops[..i];
      match ApplyOp(progress.store, ops[i])
      case Err(error) =>
        FirstErrorStops(start, ops, i + 1);
        return Err(error);
      case Ok((store, note)) =>
        progress := Progress(store, Some(ops[i].target), Some(note));
    }
    assert ops[..|ops|] == ops;
    var distinctMemory := RemoveDuplicates(progress.store.memory);
    var distinctUser := RemoveDuplicates(progress.store.user);
    if CheckCapacity(Memory, distinctMemory, memoryCap).Some? {
      return Err(CheckCapacity(Memory, distinctMemory, memoryCap).value);
    }
    if CheckCapacity(User, distinctUser, userCap).Some? {
      return Err(CheckCapacity(User, distinctUser, userCap).value);
    }
    r := Settle(start, progress, memoryCap, userCap);
  }

  // ---- What every batch keeps ----

  lemma OpKeepsClean(store: Store, op: Op)
    requires store.Clean()
    ensures ApplyOp(store, op).Ok? ==> ApplyOp(store, op).value.0.Clean()
  {
    if op.NewText().Some? && SECTION !in op.NewText().value {
      CleanTrim(op.NewText().value);
    }
  }

  lemma {:induction false} BatchKeepsClean(start: Store, ops: seq<Op>)
    requires start.Clean()
    ensures RunOps(start, ops).Ok? ==> RunOps(start, ops).value.store.Clean()
  {
    if ops != [] {
      var init := ops[..|ops| - 1];
      BatchKeepsClean(start, init);
      if RunOps(start, init).Ok? {
        OpKeepsClean(RunOps(start, init).value.store, ops[|ops| - 1]);
      }
    }
  }

  /** Edits of one file never touch the other. */
  lemma {:induction false} OtherTargetKept(start: Store, ops: seq<Op>, target: Target)
    requires forall i :: 0 <= i < |ops| ==> ops[i].target == target
    ensures RunOps(start, ops).Ok? ==> RunOps(start, ops).value.store.Of(Other(target)) == start.Of(Other(target))
  {
    if ops != [] {
      var init := ops[..|ops| - 1];
      OtherTargetKept(start, init, target);
      assert ops[|ops| - 1].target == target;
    }
  }

  lemma ParsedIsClean(memory: string, user: string)
    ensures Parsed(memory, user).Clean()
    ensures NoDuplicates(Parsed(memory, user).memory) && NoDuplicates(Parsed(memory, user).user)
  {
    ParsedIsNormal(memory);
    ParsedIsNormal(user);
  }

  /**
   Each text a batch leaves is within its cap and reads back as exactly the entries the edits arrived at,
   each once, where it first stood.
   */
  lemma WrittenReadsBack(memory: string, user: string, memoryCap: nat, userCap: nat, ops: seq<Op>)
    requires ApplyOpsToTexts(memory, user, memoryCap, userCap, ops).Ok?
    ensures var out := ApplyOpsToTexts(memory, user, memoryCap, userCap, ops).value;
            var progress := RunOps(Parsed(memory, user), ops);
            && progress.Ok?
            && ParseEntries(out.memory) == Distinct(progress.value.store.memory)
            && ParseEntries(out.user) == Distinct(progress.value.store.user)
            && out.memory == RenderEntries(ParseEntries(out.memory))
            && out.user == RenderEntries(ParseEntries(out.user))
            && |out.memory| <= memoryCap && |out.user| <= userCap
  {
    ParsedIsClean(memory, user);
    BatchKeepsClean(Parsed(memory, user), ops);
    var store := RunOps(Parsed(memory, user), ops).value.store;
    RenderParses(Distinct(store.memory));
    RenderParses(Distinct(store.user));
  }

  lemma EntriesWritten(memory: string, user: string, memoryCap: nat, userCap: nat, ops: seq<Op>, target: Target)
    requires ApplyOpsToTexts(memory, user, memoryCap, userCap, ops).Ok?
    ensures var out := ApplyOpsToTexts(memory, user, memoryCap, userCap, ops).value;
            var progress := RunOps(Parsed(memory, user), ops);
            progress.Ok? && ParseEntries(out.Of(target)) == Distinct(progress.value.store.Of(target))
  {
    WrittenReadsBack(memory, user, memoryCap, userCap, ops);
  }

  /** What the report counts is what a reader of the two texts would count. */
  lemma ReportCountsWhatWasWritten(memory: string, user: string, memoryCap: nat, userCap: nat, ops: seq<Op>)
    requires ApplyOpsToTexts(memory, user, memoryCap, userCap, ops).Ok?
    ensures var out := ApplyOpsToTexts(memory, user, memoryCap, userCap, ops).value;
            && out.report.memory.chars == |out.memory| && out.report.user.chars == |out.user|
            && out.report.memory.entryCount == |ParseEntries(out.memory)|
            && out.report.user.entryCount == |ParseEntries(out.user)|
  {
    EntriesWritten(memory, user, memoryCap, userCap, ops, Memory);
    EntriesWritten(memory, user, memoryCap, userCap, ops, User);
    var start := Parsed(memory, user);
    var out := ApplyOpsToTexts(memory, user, memoryCap, userCap, ops).value;
    SettledReport(start, RunOps(start, ops).value, memoryCap, userCap, out);
  }

  /** The entries it shows are those of the file that the last edit names, as a reader would find them. */
  lemma ReportShowsTheTarget(memory: string, user: string, memoryCap: nat, userCap: nat, ops: seq<Op>)
    requires ops != [] && ApplyOpsToTexts(memory, user, memoryCap, userCap, ops).Ok?
    ensures var out := ApplyOpsToTexts(memory, user, memoryCap, userCap, ops).value;
            && out.report.target == Some(ops[|ops| - 1].target)
            && out.report.targetEntries == ParseEntries(out.Of(ops[|ops| - 1].target))
  {
    var start := Parsed(memory, user);
    var out := ApplyOpsToTexts(memory, user, memoryCap, userCap, ops).value;
    TargetNamed(start, ops);
    EntriesWritten(memory, user, memoryCap, userCap, ops, ops[|ops| - 1].target);
    SettledReport(start, RunOps(start, ops).value, memoryCap, userCap, out);
  }

  /** The report says that nothing changed exactly when a reader finds the same entries as before. */
  lemma NoOpIsNoChange(memory: string, user: string, memoryCap: nat, userCap: nat, ops: seq<Op>)
    requires ApplyOpsToTexts(memory, user, memoryCap, userCap, ops).Ok?
    ensures var out := ApplyOpsToTexts(memory, user, memoryCap, userCap, ops).value;
            out.report.noOp <==> Parsed(out.memory, out.user) == Parsed(memory, user)
  {
    WrittenReadsBack(memory, user, memoryCap, userCap, ops);
    var start := Parsed(memory, user);
    var out := ApplyOpsToTexts(memory, user, memoryCap, userCap, ops).value;
    SettledReport(start, RunOps(start, ops).value, memoryCap, userCap, out);
    SameTextSameEntries(out.memory, memory);
    SameTextSameEntries(out.user, user);
  }

  lemma SettledReport(original: Store, progress: Progress, memoryCap: nat, userCap: nat, out: Outcome)
    requires Settle(original, progress, memoryCap, userCap) == Ok(out)
    ensures out.report.memory.chars == |out.memory| && out.report.user.chars == |out.user|
    ensures out.report.memory.entryCount == |Distinct(progress.store.memory)|
    ensures out.report.user.entryCount == |Distinct(progress.store.user)|
    ensures out.report.noOp <==>
            out.memory == RenderEntries(original.memory) && out.user == RenderEntries(original.user)
    ensures out.report.target == progress.target
    ensures progress.target.Some? ==> out.report.targetEntries == Distinct(progress.store.Of(progress.target.value))
  {
  }

  lemma TargetNamed(start: Store, ops: seq<Op>)
    requires ops != [] && RunOps(start, ops).Ok?
    ensures RunOps(start, ops).value.target == Some(ops[|ops| - 1].target)
  {
  }

  lemma SameTextSameEntries(text: string, other: string)
    ensures RenderEntries(ParseEntries(text)) == RenderEntries(ParseEntries(other)) <==>
            ParseEntries(text) == ParseEntries(other)
  {
    ParseRenderParse(text);
    ParseRenderParse(other);
  }

  /**
   The percentage never overstates and never passes one hundred. Unless the product saturates it is the exact
   one rounded down, and one hundred exactly from a full file on. A cap of zero counts as empty.
   */
  lemma PercentOfCap(chars: nat, cap: nat)
    ensures Percent(chars, cap) <= 100 && Percent(chars, cap) * cap <= 100 * chars
    ensures cap == 0 ==> Percent(chars, cap) == 0
    ensures 0 < cap && 100 * chars <= MAX_COUNT ==> (Percent(chars, cap) == 100 <==> chars >= cap)
    ensures chars < cap && 100 * chars <= MAX_COUNT ==> 100 * chars < (Percent(chars, cap) + 1) * cap
  {
    if cap > 0 {
      var scaled := Min(100 * chars, MAX_COUNT);
      var q, m := scaled / cap, scaled % cap;
      assert scaled == q * cap + m;
      assert (q + 1) * cap == q * cap + cap;
      Scaled(Percent(chars, cap), q, cap);
      if scaled == 100 * chars {
        if chars >= cap {
          AtMost(100, q, m, cap);
        } else {
          AtMost(q, 99, cap - 1, cap);
        }
      }
    }
  }

  lemma AtMost(a: int, b: int, m: nat, cap: nat)
    requires m < cap && a * cap <= b * cap + m
    ensures a <= b
  {
    assert (b + 1) * cap == b * cap + cap;
    if a > b {
      Scaled(b + 1, a, cap);
    }
  }

  lemma Scaled(a: int, b: int, cap: nat)
    requires a <= b
    ensures a * cap <= b * cap
  {
  }

  /** The files are edited through the snapshot shown to the agent, and it makes no difference. */
  lemma SnapshotMakesNoDifference(memory: string, user: string, memoryCap: nat, userCap: nat, ops: seq<Op>)
    ensures var memoryText, userText := RenderEntries(ParseEntries(memory)), RenderEntries(ParseEntries(user));
            ApplyOpsToTexts(memoryText, userText, memoryCap, userCap, ops) ==
            ApplyOpsToTexts(memory, user, memoryCap, userCap, ops)
  {
    ParseRenderParse(memory);
    ParseRenderParse(user);
  }

  /** A text that fits is left as it is, apart from its layout, by a batch that does not name it. */
  lemma UntouchedTextIsOnlyLaidOut(memory: string, user: string, memoryCap: nat, userCap: nat, ops: seq<Op>,
                                   target: Target)
    requires forall i :: 0 <= i < |ops| ==> ops[i].target == target
    requires ApplyOpsToTexts(memory, user, memoryCap, userCap, ops).Ok?
    ensures var out := ApplyOpsToTexts(memory, user, memoryCap, userCap, ops).value;
            out.Of(Other(target)) == RenderEntries(Parsed(memory, user).Of(Other(target)))
  {
    OtherTargetKept(Parsed(memory, user), ops, target);
    ParsedIsClean(memory, user);
    DistinctKeeps(Parsed(memory, user).Of(Other(target)));
    TextWritten(memory, user, memoryCap, userCap, ops, Other(target));
  }

  lemma TextWritten(memory: string, user: string, memoryCap: nat, userCap: nat, ops: seq<Op>, target: Target)
    requires ApplyOpsToTexts(memory, user, memoryCap, userCap, ops).Ok?
    ensures var out := ApplyOpsToTexts(memory, user, memoryCap, userCap, ops).value;
            var progress := RunOps(Parsed(memory, user), ops);
            progress.Ok? && out.Of(target) == RenderEntries(Distinct(progress.value.store.Of(target)))
  {
  }

  // ---- Single edits and their repetition ----

  lemma RunOne(start: Store, op: Op)
    ensures RunOps(start, [op]) == match ApplyOp(start, op)
                                   case Err(error) => Err(error)
                                   case Ok((store, note)) => Ok(Progress(store, Some(op.target), Some(note)))
  {
    assert [op][..0] == [];
  }

  /** Adding again what a batch has just added changes nothing and says so. */
  lemma AddingAgainIsNoOp(memory: string, user: string, memoryCap: nat, userCap: nat, ops: seq<Op>, op: Op)
    requires op.Add? && ApplyOpsToTexts(memory, user, memoryCap, userCap, ops + [op]).Ok?
    ensures var out := ApplyOpsToTexts(memory, user, memoryCap, userCap, ops + [op]).value;
            var again := ApplyOpsToTexts(out.memory, out.user, memoryCap, userCap, [op]);
            && again.Ok? && again.value.memory == out.memory && again.value.user == out.user
            && again.value.report.noOp && again.value.report.note == Some(AlreadyExists)
  {
    var all := ops + [op];
    WrittenReadsBack(memory, user, memoryCap, userCap, all);
    AddedIsThere(Parsed(memory, user), ops, op);
    var out := ApplyOpsToTexts(memory, user, memoryCap, userCap, all).value;
    var start := Parsed(out.memory, out.user);
    assert ApplyOp(start, op) == Ok((start, AlreadyExists));
    RunOne(start, op);
    SettledStore(start, Progress(start, Some(op.target), Some(AlreadyExists)), memoryCap, userCap);
  }

  lemma AddedIsThere(start: Store, ops: seq<Op>, op: Op)
    requires op.Add? && RunOps(start, ops + [op]).Ok?
    ensures Text.Trim(op.entry) != "" && SECTION !in op.entry
    ensures Text.Trim(op.entry) in RunOps(start, ops + [op]).value.store.Of(op.target)
  {
    assert (ops + [op])[..|ops|] == ops;
  }

  lemma SettledStore(start: Store, progress: Progress, memoryCap: nat, userCap: nat)
    requires progress.store == start && NoDuplicates(start.memory) && NoDuplicates(start.user)
    requires |RenderEntries(start.memory)| <= memoryCap && |RenderEntries(start.user)| <= userCap
    ensures var r := Settle(start, progress, memoryCap, userCap);
            && r.Ok? && r.value.memory == RenderEntries(start.memory) && r.value.user == RenderEntries(start.user)
            && r.value.report.noOp && r.value.report.note == progress.note
  {
    DistinctKeeps(start.memory);
    DistinctKeeps(start.user);
  }

  /** An addition goes to the end unless its trimmed text is an entry already. */
  lemma AdditionGoesLast(memory: string, user: string, memoryCap: nat, userCap: nat, op: Op)
    requires op.Add? && ApplyOpsToTexts(memory, user, memoryCap, userCap, [op]).Ok?
    ensures var out := ApplyOpsToTexts(memory, user, memoryCap, userCap, [op]).value;
            var entries, e := Parsed(memory, user).Of(op.target), Text.Trim(op.entry);
            ParseEntries(out.Of(op.target)) == if e in entries then entries else entries + [e]
  {
    var start := Parsed(memory, user);
    ParsedIsClean(memory, user);
    AdditionRuns(start, op);
    EntriesWritten(memory, user, memoryCap, userCap, [op], op.target);
    AddedOnce(start.Of(op.target), Text.Trim(op.entry));
  }

  lemma AddedOnce(entries: seq<string>, e: string)
    requires NoDuplicates(entries)
    ensures var next := if e in entries then entries else entries + [e]; Distinct(next) == next
  {
    DistinctKeeps(entries);
    DistinctNext(entries, e);
  }

  lemma AdditionRuns(start: Store, op: Op)
    requires op.Add? && RunOps(start, [op]).Ok?
    ensures var entries, e := start.Of(op.target), Text.Trim(op.entry);
            RunOps(start, [op]).value.store.Of(op.target) == if e in entries then entries else entries + [e]
  {
    RunOne(start, op);
  }

  /** What a file reads after entry i is replaced by e: no entry twice, each where it first stood. */
  ghost predicate ReplacedAt(entries: seq<string>, i: nat, e: string, r: seq<string>)
    requires i < |entries|
  {
    && ((forall j :: 0 <= j < |entries| && j != i ==> entries[j] != e) ==> r == entries[i := e])
    // An equal entry further down gives way to the new text.
    && (forall j :: i < j < |entries| && entries[j] == e ==> r == Without(entries[i := e], j))
    // An equal entry further up stays; the replaced one goes.
    && (forall j :: 0 <= j < i && entries[j] == e ==> r == Without(entries, i))
  }

  /** A replacement puts the new text where the designated entry stood, unless an equal entry stands before it. */
  lemma ReplacementTakesThePlace(memory: string, user: string, memoryCap: nat, userCap: nat, op: Op, i: nat)
    requires op.Replace? && ApplyOpsToTexts(memory, user, memoryCap, userCap, [op]).Ok?
    requires Designates(Parsed(memory, user).Of(op.target), Text.Trim(op.oldText), i)
    ensures var out := ApplyOpsToTexts(memory, user, memoryCap, userCap, [op]).value;
            ReplacedAt(Parsed(memory, user).Of(op.target), i, Text.Trim(op.newText), ParseEntries(out.Of(op.target)))
  {
    var start := Parsed(memory, user);
    ParsedIsClean(memory, user);
    ReplacementRuns(start, op, i);
    EntriesWritten(memory, user, memoryCap, userCap, [op], op.target);
    DistinctAfterReplacing(start.Of(op.target), i, Text.Trim(op.newText));
  }

  lemma ReplacementRuns(start: Store, op: Op, i: nat)
    requires op.Replace? && Designates(start.Of(op.target), Text.Trim(op.oldText), i) && RunOps(start, [op]).Ok?
    ensures RunOps(start, [op]).value.store.Of(op.target) == start.Of(op.target)[i := Text.Trim(op.newText)]
  {
    MatchIsExact(start.Of(op.target), op.target, op.oldText, i);
    RunOne(start, op);
  }

  lemma DistinctAfterReplacing(entries: seq<string>, i: nat, e: string)
    requires NoDuplicates(entries) && i < |entries|
    ensures ReplacedAt(entries, i, e, Distinct(entries[i := e]))
  {
    var r := entries[i := e];
    if j :| 0 <= j < |entries| && j != i && entries[j] == e {
      if i < j {
        WithoutKeepsNoDuplicates(entries, j);
        DistinctDropsSecond(r, i, j);
      } else {
        WithoutKeepsNoDuplicates(entries, i);
        assert Without(r, i) == Without(entries, i);
        DistinctDropsSecond(r, j, i);
      }
    } else {
      DistinctKeeps(r);
    }
  }

  lemma DistinctDropsSecond(entries: seq<string>, p: nat, q: nat)
    requires p < q < |entries| && entries[p] == entries[q] && NoDuplicates(Without(entries, q))
    ensures Distinct(entries) == Without(entries, q)
  {
    InPrefix(entries, p, q);
    DistinctSkips(entries[..q], entries[q], entries[q + 1..]);
    Around(entries, q);
  }

  lemma InPrefix(entries: seq<string>, p: nat, q: nat)
    requires p < q <= |entries|
    ensures entries[p] in entries[..q]
  {
    assert entries[..q][p] == entries[p];
  }

  lemma Around(entries: seq<string>, q: nat)
    requires q < |entries|
    ensures entries[..q] + [entries[q]] + entries[q + 1..] == entries
  {
  }

  lemma {:induction false} DistinctSkips(before: seq<string>, e: string, after: seq<string>)
    requires e in before && NoDuplicates(before + after)
    ensures Distinct(before + [e] + after) == before + after
  {
    if after == [] {
      assert before + [] == before && before + [e] + [] == before + [e];
      DistinctKeeps(before);
      DistinctNext(before, e);
    } else {
      var init, last := after[..|after| - 1], after[|after| - 1];
      assert before + after == before + init + [last];
      assert before + [e] + after == before + [e] + init + [last];
      NoDuplicatesBefore(before + init, last);
      DistinctSkips(before, e, init);
      DistinctNext(before + [e] + init, last);
    }
  }

  lemma NoDuplicatesBefore(entries: seq<string>, e: string)
    requires NoDuplicates(entries + [e])
    ensures NoDuplicates(entries) && e !in entries
  {
    var all := entries + [e];
    assert forall k :: 0 <= k < |entries| ==> all[k] == entries[k] && all[k] != all[|entries|];
  }

  /** A removal takes out the one entry its text designates and keeps the others in their order. */
  lemma RemovalTakesTheDesignated(memory: string, user: string, memoryCap: nat, userCap: nat, op: Op, i: nat)
    requires op.Remove? && ApplyOpsToTexts(memory, user, memoryCap, userCap, [op]).Ok?
    requires Designates(Parsed(memory, user).Of(op.target), Text.Trim(op.oldText), i)
    ensures var out := ApplyOpsToTexts(memory, user, memoryCap, userCap, [op]).value;
            var entries := Parsed(memory, user).Of(op.target);
            ParseEntries(out.Of(op.target)) == Without(entries, i)
  {
    var start := Parsed(memory, user);
    var entries := start.Of(op.target);
    ParsedIsClean(memory, user);
    RemovalRuns(start, op, i);
    EntriesWritten(memory, user, memoryCap, userCap, [op], op.target);
    WithoutKeepsNoDuplicates(entries, i);
    DistinctKeeps(Without(entries, i));
  }

  lemma RemovalRuns(start: Store, op: Op, i: nat)
    requires op.Remove? && Designates(start.Of(op.target), Text.Trim(op.oldText), i)
    ensures var entries := start.Of(op.target);
            RunOps(start, [op]) ==
            Ok(Progress(start.With(op.target, Without(entries, i)), Some(op.target), Some(Removed)))
  {
    MatchIsExact(start.Of(op.target), op.target, op.oldText, i);
    RunOne(start, op);
  }

  lemma WithoutKeepsNoDuplicates(entries: seq<string>, i: nat)
    requires NoDuplicates(entries) && i < |entries|
    ensures NoDuplicates(Without(entries, i))
    ensures entries[i] !in Without(entries, i)
  {
    var r := Without(entries, i);
    assert forall k :: 0 <= k < |r| ==> r[k] == entries[if k < i then k else k + 1];
  }

  /** After a removal its text occurs nowhere in the file, so repeating it fails. */
  lemma RemovingAgainFails(memory: string, user: string, memoryCap: nat, userCap: nat, op: Op)
    requires op.Remove? && ApplyOpsToTexts(memory, user, memoryCap, userCap, [op]).Ok?
    ensures var out := ApplyOpsToTexts(memory, user, memoryCap, userCap, [op]).value;
            ApplyOpsToTexts(out.memory, out.user, memoryCap, userCap, [op]) ==
            Err(AmbiguousSubstring(op.target, 0, Text.Trim(op.oldText)))
  {
    var start := Parsed(memory, user);
    var entries := start.Of(op.target);
    var needle := Text.Trim(op.oldText);
    var i := RemovalDesignates(start, op);
    RemovalTakesTheDesignated(memory, user, memoryCap, userCap, op, i);
    ParsedIsClean(memory, user);
    WithoutKeepsNoDuplicates(entries, i);
    NothingLeft(entries, i, needle);
    var out := ApplyOpsToTexts(memory, user, memoryCap, userCap, [op]).value;
    assert Parsed(out.memory, out.user).Of(op.target) == ParseEntries(out.Of(op.target));
    RemovalOfNothingFails(Parsed(out.memory, out.user), op);
  }

  lemma RemovalDesignates(start: Store, op: Op) returns (i: nat)
    requires op.Remove? && RunOps(start, [op]).Ok?
    ensures Designates(start.Of(op.target), Text.Trim(op.oldText), i)
  {
    RunOne(start, op);
    i := UniqueMatchIndex(start.Of(op.target), op.target, op.oldText).value;
    MatchIsExact(start.Of(op.target), op.target, op.oldText, i);
  }

  lemma RemovalOfNothingFails(start: Store, op: Op)
    requires op.Remove? && forall e :: e in start.Of(op.target) ==> !Contains(e, Text.Trim(op.oldText))
    ensures RunOps(start, [op]) == Err(AmbiguousSubstring(op.target, 0, Text.Trim(op.oldText)))
  {
    NoMatchIndices(start.Of(op.target), Text.Trim(op.oldText));
    RunOne(start, op);
  }

  lemma NothingLeft(entries: seq<string>, i: nat, needle: string)
    requires Designates(entries, needle, i) && entries[i] !in Without(entries, i)
    ensures forall e :: e in Without(entries, i) ==> !Contains(e, needle)
  {
  }

  lemma {:induction false} NoMatchIndices(entries: seq<string>, needle: string)
    requires forall e :: e in entries ==> !Contains(e, needle)
    ensures MatchIndices(entries, needle) == []
  {
    if entries != [] {
      assert entries[|entries| - 1] in entries;
      NoMatchIndices(entries[..|entries| - 1], needle);
    }
  }
}

/** The two files on disk, edited under their locks. */
module MemoryFiles {
  import opened MemoryText
  import opened MemoryEdits

  /** A file is left alone if what is to be written is only its own entries laid out. */
  function Rewritten(text: string, next: string): string {
    if next != RenderEntries(ParseEntries(text)) then next else text
  }

  lemma RewrittenReads(text: string, next: string)
    requires next == RenderEntries(ParseEntries(next))
    ensures ParseEntries(Rewritten(text, next)) == ParseEntries(next)
    ensures ParseEntries(next) == ParseEntries(text) ==> Rewritten(text, next) == text
    ensures Rewritten(text, next) != text ==> Rewritten(text, next) == next
  {
    ParseRenderParse(text);
  }

  class AgentMemory {
    var memory: string
    var user: string

    /** A failed batch leaves both files alone; so does one that changes no entry, whatever their layout. */
    method ApplyMemoryOps(memoryCap: nat, userCap: nat, ops: seq<Op>) returns (r: Result<Report, Error>)
      modifies this
      ensures var result := ApplyOpsToTexts(old(memory), old(user), memoryCap, userCap, ops);
              && r == (match result case Err(error) => Err(error) case Ok(out) => Ok(out.report))
              && (result.Err? ==> memory == old(memory) && user == old(user))
              && (result.Ok? ==> Parsed(memory, user) == Parsed(result.value.memory, result.value.user))
      ensures r.Ok? && ParseEntries(memory) == ParseEntries(old(memory)) ==> memory == old(memory)
      ensures r.Ok? && ParseEntries(user) == ParseEntries(old(user)) ==> user == old(user)
      ensures r.Ok? && memory != old(memory) ==> memory == RenderEntries(ParseEntries(memory)) && |memory| <= memoryCap
      ensures r.Ok? && user != old(user) ==> user == RenderEntries(ParseEntries(user)) && |user| <= userCap
    {
      var entries := Parse(memory);
      var userEntries := Parse(user);
      var memoryText := RenderEntries(entries);
      var userText := RenderEntries(userEntries);
      SnapshotMakesNoDifference(memory, user, memoryCap, userCap, ops);
      var applied := Apply(memoryText, userText, memoryCap, userCap, ops);
      match applied
      case Err(error) => return Err(error);
      case Ok(out) =>
        WrittenReadsBack(memory, user, memoryCap, userCap, ops);
        RewrittenReads(memory, out.memory);
        RewrittenReads(user, out.user);
        Write(memoryText, userText, out);
        return Ok(out.report);
    }

    method Write(memoryText: string, userText: string, out: Outcome)
      requires memoryText == RenderEntries(ParseEntries(memory)) && userText == RenderEntries(ParseEntries(user))
      modifies this
      ensures memory == Rewritten(old(memory), out.memory) && user == Rewritten(old(user), out.user)
    {
      if out.memory != memoryText {
        memory := out.memory;
      }
      if out.user != userText {
        user := out.user;
      }
    }
  }
}
