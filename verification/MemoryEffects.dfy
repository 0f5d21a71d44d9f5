/** What each edit of a memory file writes or why it is refused, and the figures a batch reports. */
module MemoryEffects {
  import opened Claims
  import opened Sequences
  import opened MemoryText
  import opened MemoryEdits
  import Text

  /** The needle stands somewhere in the text. */
  lemma ContainsMeans(s: string, needle: string)
    ensures Contains(s, needle) <==> exists before: string, after: string :: s == before + needle + after
  {
    if i :| 0 <= i <= |s| && OccursAt(s, needle, i) {
      assert s == s[..i] + needle + s[i + |needle|..];
    }
    if before: string, after: string :| s == before + needle + after {
      assert OccursAt(s, needle, |before|);
    }
  }

  // ---- Refusals ----

  /** The text an edit brings in, if it brings one. */
  function Incoming(op: Op): Option<string> {
    match op
    case Add(_, entry) => Some(entry)
    case Replace(_, _, newText) => Some(newText)
    case Remove(_, _) => None
  }

  ghost predicate HasSign(text: Option<string>) {
    text.Some? && exists k :: 0 <= k < |text.value| && text.value[k] == '\U{00A7}'
  }

  ghost predicate NothingIncoming(text: Option<string>) {
    text.Some? && Text.Blank(text.value)
  }

  /** The entries in which the needle stands; none are looked for with an empty needle. */
  ghost function Matching(entries: seq<string>, needle: string): set<nat> {
    set i | 0 <= i < |entries| && needle != "" && Contains(entries[i], needle)
  }

  lemma {:induction false} MatchesAreCounted(entries: seq<string>, needle: string)
    requires needle != ""
    ensures |MatchIndices(entries, needle)| == |Matching(entries, needle)|
  {
    if entries != [] {
      var init, last := entries[..|entries| - 1], |entries| - 1;
      MatchesAreCounted(init, needle);
      assert Matching(entries, needle) ==
             Matching(init, needle) + if Contains(entries[last], needle) then {last} else {};
    }
  }

  /** An edit is refused for a section sign first, then for being blank, then for not designating one entry. */
  lemma RefusedExactly(store: Store, op: Op)
    ensures ApplyOp(store, op) == Err(ReservedDelimiter(op.target)) <==> HasSign(Incoming(op))
    ensures ApplyOp(store, op) == Err(EmptyEntry(op.target)) <==>
            !HasSign(Incoming(op)) && NothingIncoming(Incoming(op))
    ensures ApplyOp(store, op).Err? && !HasSign(Incoming(op)) && !NothingIncoming(Incoming(op)) ==>
              !op.Add? && UniqueMatchIndex(store.Of(op.target), op.target, op.oldText).Err? &&
              var needle := Text.Trim(op.oldText);
              ApplyOp(store, op).error ==
              AmbiguousSubstring(op.target, |Matching(store.Of(op.target), needle)|, needle)
  {
    if Incoming(op).Some? {
      Text.TrimBlank(Incoming(op).value);
      assert SECTION in Incoming(op).value <==> HasSign(Incoming(op));
    }
    if !op.Add? {
      var entries, needle := store.Of(op.target), Text.Trim(op.oldText);
      if needle == "" {
        assert Matching(entries, needle) == {};
      } else {
        MatchesAreCounted(entries, needle);
      }
    }
  }

  // ---- What an edit writes ----

  /** The edited file; the other one is as it was. */
  ghost predicate Writes(store: Store, op: Op, g: Store, note: Note) {
    var xs, ys := store.Of(op.target), g.Of(op.target);
    && g.Of(Other(op.target)) == store.Of(Other(op.target))
    && match op
       case Add(_, entry) =>
         exists e: string :: Text.CoreOf(entry, e) &&
           if e in xs then ys == xs && note == AlreadyExists else ys == xs + [e] && note == Added
       case Replace(_, oldText, newText) =>
         note == Replaced &&
         exists e: string, i: nat ::
           Text.CoreOf(newText, e) && Designates(xs, Text.Trim(oldText), i) && ys == xs[i := e]
       case Remove(_, oldText) =>
         note == Removed &&
         exists i: nat :: Designates(xs, Text.Trim(oldText), i) && ys == xs[..i] + xs[i + 1..]
  }

  lemma TrimIsTheCore(s: string)
    requires Text.Trim(s) != ""
    ensures Text.CoreOf(s, Text.Trim(s))
  {
    var before, after := Text.TrimIsCore(s);
  }

  lemma EditWrites(store: Store, op: Op)
    requires ApplyOp(store, op).Ok?
    ensures Writes(store, op, ApplyOp(store, op).value.0, ApplyOp(store, op).value.1)
  {
    var xs := store.Of(op.target);
    match op
    case Add(_, entry) => TrimIsTheCore(entry);
    case Replace(t, oldText, newText) =>
      TrimIsTheCore(newText);
      MatchIsExact(xs, t, oldText, UniqueMatchIndex(xs, t, oldText).value);
    case Remove(t, oldText) =>
      MatchIsExact(xs, t, oldText, UniqueMatchIndex(xs, t, oldText).value);
  }

  // ---- What a batch reports ----

  /** The error names the file, what it would hold and how much too long that is. */
  ghost predicate TooLong(error: Error, target: Target, entries: seq<string>, cap: nat) {
    var length := |RenderEntries(entries)|;
    length > cap && error == CapacityExceeded(target, length, cap, length - cap, entries)
  }

  /** A batch fails with its first failing edit, or else because the one file and then the other is too long. */
  lemma BatchFailsExactly(memory: string, user: string, memoryCap: nat, userCap: nat, ops: seq<Op>)
    ensures var r, p := ApplyOpsToTexts(memory, user, memoryCap, userCap, ops), RunOps(Parsed(memory, user), ops);
            && (p.Err? ==> r == Err(p.error))
            && (p.Ok? ==>
                  var m, u := Distinct(p.value.store.memory), Distinct(p.value.store.user);
                  if |RenderEntries(m)| > memoryCap then r.Err? && TooLong(r.error, Memory, m, memoryCap)
                  else if |RenderEntries(u)| > userCap then r.Err? && TooLong(r.error, User, u, userCap)
                  else r.Ok?)
  {
  }

  /** The figures for one file: its length against the cap, in whole percent of it and never overstated. */
  ghost predicate Figures(usage: Usage, text: string, cap: nat) {
    && usage.chars == |text| && usage.cap == cap && usage.percent <= 100
    && usage.percent * cap <= 100 * |text|
    && (cap == 0 ==> usage.percent == 0)
    && (0 < cap && 100 * |text| <= 0xFFFF_FFFF_FFFF_FFFF && |text| < cap ==> 100 * |text| < (usage.percent + 1) * cap)
    && (0 < cap && 100 * |text| <= 0xFFFF_FFFF_FFFF_FFFF && |text| == cap ==> usage.percent == 100)
  }

  lemma FiguresAre(entries: seq<string>, cap: nat)
    ensures Figures(UsageOf(entries, cap), RenderEntries(entries), cap)
  {
    PercentOfCap(|RenderEntries(entries)|, cap);
  }

  lemma ReportFigures(memory: string, user: string, memoryCap: nat, userCap: nat, ops: seq<Op>)
    requires ApplyOpsToTexts(memory, user, memoryCap, userCap, ops).Ok?
    ensures var out := ApplyOpsToTexts(memory, user, memoryCap, userCap, ops).value;
            Figures(out.report.memory, out.memory, memoryCap) && Figures(out.report.user, out.user, userCap)
  {
    var store := RunOps(Parsed(memory, user), ops).value.store;
    FiguresAre(Distinct(store.memory), memoryCap);
    FiguresAre(Distinct(store.user), userCap);
  }

  /** The note is about the last edit of the batch, as that edit left it. */
  lemma ReportNotesTheLast(memory: string, user: string, memoryCap: nat, userCap: nat, ops: seq<Op>, op: Op)
    requires ApplyOpsToTexts(memory, user, memoryCap, userCap, ops + [op]).Ok?
    ensures var out := ApplyOpsToTexts(memory, user, memoryCap, userCap, ops + [op]).value;
            var p := RunOps(Parsed(memory, user), ops);
            p.Ok? && exists g: Store, note: Note ::
              Writes(p.value.store, op, g, note) && out.report.note == Some(note) &&
              RunOps(Parsed(memory, user), ops + [op]).value.store == g
  {
    assert (ops + [op])[..|ops|] == ops;
    EditWrites(RunOps(Parsed(memory, user), ops).value.store, op);
  }
}
