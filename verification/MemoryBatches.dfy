/**
 A batch of memory edits against the same edits made one call at a time. A call drops duplicates when it ends,
 a batch only after its last edit, so an edit within a batch may still see both of two equal entries.
 */
module MemoryBatches {
  import opened Claims
  import opened Sequences
  import opened MemoryText
  import opened MemoryEdits
  import Text

  // ---- Deduplication against replacing and removing ----

  /** No other entry reads like entry i. */
  ghost predicate Alone(entries: seq<string>, i: nat) {
    i < |entries| && forall k :: 0 <= k < |entries| && entries[k] == entries[i] ==> k == i
  }

  function Swap(entries: seq<string>, was: string, now: string): seq<string> {
    if entries == [] then [] else
      var last := entries[|entries| - 1];
      Swap(entries[..|entries| - 1], was, now) + [if last == was then now else last]
  }

  function Drop(entries: seq<string>, was: string): seq<string> {
    if entries == [] then [] else
      var last := entries[|entries| - 1];
      var init := Drop(entries[..|entries| - 1], was);
      if last == was then init else init + [last]
  }

  lemma {:induction false} SwapAt(entries: seq<string>, was: string, now: string)
    ensures |Swap(entries, was, now)| == |entries|
    ensures forall k :: 0 <= k < |entries| ==>
              Swap(entries, was, now)[k] == if entries[k] == was then now else entries[k]
  {
    if entries != [] {
      SwapAt(entries[..|entries| - 1], was, now);
    }
  }

  lemma ReplacingIsSwapping(entries: seq<string>, i: nat, now: string)
    requires Alone(entries, i)
    ensures entries[i := now] == Swap(entries, entries[i], now)
  {
    SwapAt(entries, entries[i], now);
  }

  lemma {:induction false} DropNothing(entries: seq<string>, was: string)
    requires was !in entries
    ensures Drop(entries, was) == entries
  {
    if entries != [] {
      assert entries[|entries| - 1] in entries;
      DropNothing(entries[..|entries| - 1], was);
    }
  }

  lemma {:induction false} RemovingIsDropping(entries: seq<string>, i: nat)
    requires Alone(entries, i)
    ensures Without(entries, i) == Drop(entries, entries[i])
  {
    var last := |entries| - 1;
    var init := entries[..last];
    if i == last {
      DropNothing(init, entries[i]);
    } else {
      assert Alone(init, i);
      RemovingIsDropping(init, i);
      assert entries[last] != entries[i];
      assert Without(entries, i) == Without(init, i) + [entries[last]];
    }
  }

  lemma DistinctTwice(entries: seq<string>)
    ensures Distinct(Distinct(entries)) == Distinct(entries)
  {
    DistinctKeeps(Distinct(entries));
  }

  /** Only the members and their order of appearance matter to an addition at the end. */
  lemma DistinctThenNext(xs: seq<string>, ys: seq<string>, e: string)
    requires Distinct(xs) == Distinct(ys)
    ensures Distinct(xs + [e]) == Distinct(ys + [e])
  {
    DistinctNext(xs, e);
    DistinctNext(ys, e);
  }

  lemma {:induction false} SwapDistinct(entries: seq<string>, was: string, now: string)
    ensures Distinct(Swap(entries, was, now)) == Distinct(Swap(Distinct(entries), was, now))
  {
    if entries != [] {
      var init, last := entries[..|entries| - 1], entries[|entries| - 1];
      SwapDistinct(init, was, now);
      assert entries == init + [last];
      SwapDistinctNext(init, last, was, now);
    }
  }

  lemma SwapDistinctNext(entries: seq<string>, e: string, was: string, now: string)
    requires Distinct(Swap(entries, was, now)) == Distinct(Swap(Distinct(entries), was, now))
    ensures Distinct(Swap(entries + [e], was, now)) == Distinct(Swap(Distinct(entries + [e]), was, now))
  {
    SwapNext(entries, e, was, now);
    DistinctNext(entries, e);
    if e !in Distinct(entries) {
      SwapNext(Distinct(entries), e, was, now);
      DistinctThenNext(Swap(entries, was, now), Swap(Distinct(entries), was, now), if e == was then now else e);
    }
  }

  lemma SwapNext(entries: seq<string>, e: string, was: string, now: string)
    ensures Swap(entries + [e], was, now) == Swap(entries, was, now) + [if e == was then now else e]
    ensures e in entries ==> Distinct(Swap(entries + [e], was, now)) == Distinct(Swap(entries, was, now))
  {
    assert (entries + [e])[..|entries|] == entries;
    var f := if e == was then now else e;
    if e in entries {
      var k :| 0 <= k < |entries| && entries[k] == e;
      SwapAt(entries, was, now);
      assert Swap(entries, was, now)[k] == f;
      DistinctNext(Swap(entries, was, now), f);
    }
  }

  lemma {:induction false} DropMembers(entries: seq<string>, was: string)
    ensures forall e :: e in Drop(entries, was) <==> e in entries && e != was
  {
    if entries != [] {
      var init, last := entries[..|entries| - 1], entries[|entries| - 1];
      assert entries == init + [last];
      DropMembers(init, was);
    }
  }

  lemma {:induction false} DropDistinct(entries: seq<string>, was: string)
    ensures Distinct(Drop(entries, was)) == Drop(Distinct(entries), was)
  {
    if entries != [] {
      var init, last := entries[..|entries| - 1], entries[|entries| - 1];
      DropDistinct(init, was);
      assert entries == init + [last];
      DropDistinctNext(init, last, was);
    }
  }

  lemma DropDistinctNext(entries: seq<string>, e: string, was: string)
    requires Distinct(Drop(entries, was)) == Drop(Distinct(entries), was)
    ensures Distinct(Drop(entries + [e], was)) == Drop(Distinct(entries + [e]), was)
  {
    DropNext(entries, e, was);
    DistinctNext(entries, e);
    if e !in Distinct(entries) {
      DropNext(Distinct(entries), e, was);
      DropMembers(entries, was);
      DistinctNext(Drop(entries, was), e);
    }
  }

  lemma DropNext(entries: seq<string>, e: string, was: string)
    ensures e == was ==> Drop(entries + [e], was) == Drop(entries, was)
    ensures e != was ==> Drop(entries + [e], was) == Drop(entries, was) + [e]
    ensures e in entries ==> Distinct(Drop(entries + [e], was)) == Distinct(Drop(entries, was))
  {
    assert (entries + [e])[..|entries|] == entries;
    if e in entries && e != was {
      DropMembers(entries, was);
      DistinctNext(Drop(entries, was), e);
    }
  }

  lemma DistinctIsAlone(entries: seq<string>, j: nat)
    requires NoDuplicates(entries) && j < |entries|
    ensures Alone(entries, j)
  {
  }

  /** Replacing commutes with deduplication exactly where no equal entry stays behind. */
  lemma ReplacingAgrees(entries: seq<string>, i: nat, j: nat, now: string)
    requires i < |entries| && j < |Distinct(entries)| && Distinct(entries)[j] == entries[i]
    ensures Distinct(entries[i := now]) == Distinct(Distinct(entries)[j := now]) <==>
            Alone(entries, i) || now == entries[i]
  {
    var known, was := Distinct(entries), entries[i];
    DistinctIsAlone(known, j);
    if Alone(entries, i) {
      ReplacingIsSwapping(entries, i, now);
      ReplacingIsSwapping(known, j, now);
      SwapDistinct(entries, was, now);
    } else if now == was {
      assert entries[i := now] == entries && known[j := now] == known;
      DistinctTwice(entries);
    } else {
      var k :| 0 <= k < |entries| && entries[k] == was && k != i;
      assert entries[i := now][k] == was;
      assert was in Distinct(entries[i := now]);
      assert was !in known[j := now];
    }
  }

  /** So does removing. */
  lemma RemovingAgrees(entries: seq<string>, i: nat, j: nat)
    requires i < |entries| && j < |Distinct(entries)| && Distinct(entries)[j] == entries[i]
    ensures Distinct(Without(entries, i)) == Distinct(Without(Distinct(entries), j)) <==> Alone(entries, i)
  {
    var known, was := Distinct(entries), entries[i];
    DistinctIsAlone(known, j);
    RemovingIsDropping(known, j);
    DropDistinct(known, was);
    DistinctTwice(entries);
    if Alone(entries, i) {
      RemovingIsDropping(entries, i);
      DropDistinct(entries, was);
    } else {
      CopyStays(entries, i);
      DropMembers(known, was);
      assert was in Distinct(Without(entries, i));
    }
  }

  lemma CopyStays(entries: seq<string>, i: nat)
    requires i < |entries| && !Alone(entries, i)
    ensures entries[i] in Without(entries, i)
  {
    var k :| 0 <= k < |entries| && entries[k] == entries[i] && k != i;
    assert Without(entries, i)[if k < i then k else k - 1] == entries[i];
  }

  // ---- One edit, before and after deduplication ----

  function Deduplicated(store: Store): Store {
    Store(Distinct(store.memory), Distinct(store.user))
  }

  /** The same failure, apart from how often a duplicated entry was counted. */
  predicate SameFailure(e: Error, f: Error) {
    if e.AmbiguousSubstring? && f.AmbiguousSubstring?
    then e.target == f.target && e.needle == f.needle && (e.matches == 0 <==> f.matches == 0)
    else e == f
  }

  /** An edit finds the same entry among the distinct ones, or fails alike. */
  lemma MatchAgrees(entries: seq<string>, target: Target, text: string)
    ensures var u, v := UniqueMatchIndex(entries, target, text), UniqueMatchIndex(Distinct(entries), target, text);
            && (u.Ok? <==> v.Ok?)
            && (u.Ok? ==> Distinct(entries)[v.value] == entries[u.value])
            && (u.Err? ==> SameFailure(u.error, v.error))
  {
    var known, needle := Distinct(entries), Text.Trim(text);
    SomeMatch(entries, needle);
    SomeMatch(known, needle);
    assert forall e :: OnlyMatch(entries, needle, e) <==> OnlyMatch(known, needle, e);
    MatchIsValue(entries, target, text);
    MatchIsValue(known, target, text);
    MatchError(entries, target, text);
    MatchError(known, target, text);
  }

  lemma MatchError(entries: seq<string>, target: Target, text: string)
    ensures var u, needle := UniqueMatchIndex(entries, target, text), Text.Trim(text);
            u.Err? ==>
              u.error == AmbiguousSubstring(target, if needle == "" then 0 else |MatchIndices(entries, needle)|, needle)
  {
  }

  lemma SomeMatch(entries: seq<string>, needle: string)
    ensures MatchIndices(entries, needle) == [] <==> forall e :: e in entries ==> !Contains(e, needle)
  {
    MatchIndicesAreTheMatches(entries, needle);
    if MatchIndices(entries, needle) != [] {
      var i := MatchIndices(entries, needle)[0];
      assert i in MatchIndices(entries, needle);
      assert entries[i] in entries;
    } else {
      forall e | e in entries ensures !Contains(e, needle) {
        var k :| 0 <= k < |entries| && entries[k] == e;
        assert k !in MatchIndices(entries, needle);
      }
    }
  }

  /** What is found depends on the members only: the one value that contains the needle. */
  ghost predicate OnlyMatch(entries: seq<string>, needle: string, e: string) {
    e in entries && Contains(e, needle) && forall d :: d in entries && Contains(d, needle) ==> d == e
  }

  lemma MatchIsValue(entries: seq<string>, target: Target, text: string)
    ensures var u := UniqueMatchIndex(entries, target, text);
            && (u.Ok? ==> OnlyMatch(entries, Text.Trim(text), entries[u.value]))
            && (Text.Trim(text) != "" && (exists e :: OnlyMatch(entries, Text.Trim(text), e)) ==> u.Ok?)
  {
    var u, needle := UniqueMatchIndex(entries, target, text), Text.Trim(text);
    MatchIndicesAreTheMatches(entries, needle);
    if u.Ok? {
      MatchIsExact(entries, target, text, u.value);
      assert entries[u.value] in entries;
    }
    if e :| OnlyMatch(entries, needle, e) {
      var k :| 0 <= k < |entries| && entries[k] == e;
      assert k in MatchIndices(entries, needle);
      var matches := MatchIndices(entries, needle);
      forall m | 0 <= m < |matches| ensures entries[matches[m]] == e {
        assert matches[m] in matches;
        assert entries[matches[m]] in entries;
      }
    }
  }

  /** The edit takes away one of several equal entries and leaves another behind. */
  ghost predicate TakesACopy(store: Store, op: Op) {
    ApplyOp(store, op).Ok? && !op.Add? &&
    var entries := store.Of(op.target);
    var i := UniqueMatchIndex(entries, op.target, op.oldText).value;
    !Alone(entries, i) && (op.Replace? ==> Text.Trim(op.newText) != entries[i])
  }

  /** The edit succeeds and fails alike on either store, and the outcomes agree exactly if it takes no copy. */
  ghost predicate StepOutcome(b: Store, op: Op) {
    var r, s := ApplyOp(b, op), ApplyOp(Deduplicated(b), op);
    && (r.Ok? <==> s.Ok?)
    && (r.Err? ==> SameFailure(r.error, s.error))
    && (r.Ok? ==> r.value.1 == s.value.1)
    && (r.Ok? ==> (Deduplicated(r.value.0) == Deduplicated(s.value.0) <==> !TakesACopy(b, op)))
  }

  lemma StepAgrees(b: Store, op: Op)
    ensures StepOutcome(b, op)
  {
    match op
    case Add(_, _) => AddAgrees(b, op);
    case Replace(_, _, _) => ReplaceAgrees(b, op);
    case Remove(_, _) => RemoveAgrees(b, op);
  }

  lemma AddAgrees(b: Store, op: Op)
    requires op.Add?
    ensures StepOutcome(b, op)
  {
    var entries, e := b.Of(op.target), Text.Trim(op.entry);
    DistinctTwice(b.memory);
    DistinctTwice(b.user);
    if e !in entries {
      DistinctThenNext(entries, Distinct(entries), e);
      WithAgrees(b, op.target, entries + [e], Distinct(entries) + [e]);
    }
  }

  lemma ReplaceAgrees(b: Store, op: Op)
    requires op.Replace?
    ensures StepOutcome(b, op)
  {
    if SECTION !in op.newText && Text.Trim(op.newText) != "" {
      ReplaceableAgrees(b, op, b.Of(op.target), Text.Trim(op.newText));
    }
  }

  lemma ReplaceableAgrees(b: Store, op: Op, entries: seq<string>, e: string)
    requires op.Replace? && entries == b.Of(op.target) && e == Text.Trim(op.newText)
    requires SECTION !in op.newText && e != ""
    ensures StepOutcome(b, op)
  {
    MatchAgrees(entries, op.target, op.oldText);
    var u := UniqueMatchIndex(entries, op.target, op.oldText);
    var v := UniqueMatchIndex(Distinct(entries), op.target, op.oldText);
    if u.Ok? {
      assert ApplyOp(b, op).value.0 == b.With(op.target, entries[u.value := e]);
      assert ApplyOp(Deduplicated(b), op).value.0 == Deduplicated(b).With(op.target, Distinct(entries)[v.value := e]);
      ReplacingAgrees(entries, u.value, v.value, e);
      WithAgrees(b, op.target, entries[u.value := e], Distinct(entries)[v.value := e]);
    }
  }

  lemma RemoveRuns(b: Store, op: Op, i: nat)
    requires op.Remove? && UniqueMatchIndex(b.Of(op.target), op.target, op.oldText) == Ok(i)
    ensures ApplyOp(b, op) == Ok((b.With(op.target, Without(b.Of(op.target), i)), Removed))
  {
  }

  lemma RemoveAgrees(b: Store, op: Op)
    requires op.Remove?
    ensures StepOutcome(b, op)
  {
    var entries := b.Of(op.target);
    MatchAgrees(entries, op.target, op.oldText);
    var u := UniqueMatchIndex(entries, op.target, op.oldText);
    var v := UniqueMatchIndex(Distinct(entries), op.target, op.oldText);
    if u.Ok? {
      var xs, ys := Without(entries, u.value), Without(Distinct(entries), v.value);
      RemoveRuns(b, op, u.value);
      RemoveRuns(Deduplicated(b), op, v.value);
      RemovingAgrees(entries, u.value, v.value);
      WithAgrees(b, op.target, xs, ys);
    }
  }

  lemma WithAgrees(b: Store, target: Target, xs: seq<string>, ys: seq<string>)
    ensures Deduplicated(b.With(target, xs)) == Deduplicated(Deduplicated(b).With(target, ys)) <==>
            Distinct(xs) == Distinct(ys)
  {
    DistinctTwice(b.memory);
    DistinctTwice(b.user);
  }

  // ---- Whole batches ----

  /** Duplicates are dropped after each edit. */
  function RunSingly(start: Store, ops: seq<Op>): Result<Progress, Error> {
    if ops == [] then Ok(Progress(Deduplicated(start), None, None)) else
      var last := ops[|ops| - 1];
      match RunSingly(start, ops[..|ops| - 1])
      case Err(error) => Err(error)
      case Ok(p) =>
        match ApplyOp(p.store, last)
        case Err(error) => Err(error)
        case Ok((store, note)) => Ok(Progress(Deduplicated(store), Some(last.target), Some(note)))
  }

  /** The batch ends, once it drops its duplicates, where the single edits do; or both fail alike. */
  ghost predicate Agree(batch: Result<Progress, Error>, singly: Result<Progress, Error>) {
    if batch.Ok? && singly.Ok? then singly.value == batch.value.(store := Deduplicated(batch.value.store))
    else batch.Err? && singly.Err? && SameFailure(batch.error, singly.error)
  }

  /** The batch up to some edit, and whether that edit takes a copy. */
  ghost predicate CopyTakenAt(start: Store, ops: seq<Op>, k: nat) {
    k < |ops| && RunOps(start, ops[..k]).Ok? && TakesACopy(RunOps(start, ops[..k]).value.store, ops[k])
  }

  ghost predicate AgreeUpTo(start: Store, ops: seq<Op>, k: nat) {
    k <= |ops| && Agree(RunOps(start, ops[..k]), RunSingly(start, ops[..k]))
  }

  lemma AgreeNext(start: Store, ops: seq<Op>, k: nat)
    requires k < |ops| && AgreeUpTo(start, ops, k)
    ensures AgreeUpTo(start, ops, k + 1) <==> !CopyTakenAt(start, ops, k)
  {
    assert ops[..k + 1][..k] == ops[..k] && ops[..k + 1][k] == ops[k];
    if RunOps(start, ops[..k]).Ok? {
      StepAgrees(RunOps(start, ops[..k]).value.store, ops[k]);
    }
  }

  lemma {:induction false} AgreeWhile(start: Store, ops: seq<Op>, k: nat)
    requires k <= |ops| && forall j :: 0 <= j < k ==> !CopyTakenAt(start, ops, j)
    ensures AgreeUpTo(start, ops, k)
  {
    if k == 0 {
      assert ops[..0] == [];
    } else {
      AgreeWhile(start, ops, k - 1);
      AgreeNext(start, ops, k - 1);
    }
  }

  /** A batch agrees with its edits made one by one, after each of them, exactly when no edit takes a copy. */
  lemma BatchAgreesExactly(start: Store, ops: seq<Op>)
    ensures (forall k :: 0 <= k <= |ops| ==> AgreeUpTo(start, ops, k)) <==>
            (forall k :: 0 <= k < |ops| ==> !CopyTakenAt(start, ops, k))
  {
    if forall k :: 0 <= k <= |ops| ==> AgreeUpTo(start, ops, k) {
      forall k | 0 <= k < |ops| ensures !CopyTakenAt(start, ops, k) {
        AgreeNext(start, ops, k);
      }
    }
    if forall k :: 0 <= k < |ops| ==> !CopyTakenAt(start, ops, k) {
      forall k | 0 <= k <= |ops| ensures AgreeUpTo(start, ops, k) {
        AgreeWhile(start, ops, k);
      }
    }
  }

  // ---- Calls on the texts ----

  /** The files after one call for each edit; the first call that fails is the last. */
  function Calls(memory: string, user: string, memoryCap: nat, userCap: nat, ops: seq<Op>):
    Result<(string, string), Error>
  {
    if ops == [] then Ok((memory, user)) else
      match Calls(memory, user, memoryCap, userCap, ops[..|ops| - 1])
      case Err(error) => Err(error)
      case Ok((m, u)) =>
        Texts(ApplyOpsToTexts(m, u, memoryCap, userCap, [ops[|ops| - 1]]))
  }

  predicate Fits(store: Store, memoryCap: nat, userCap: nat) {
    |RenderEntries(store.memory)| <= memoryCap && |RenderEntries(store.user)| <= userCap
  }

  /** The edits succeed one by one, and what each of them leaves fits. */
  predicate AllFit(start: Store, ops: seq<Op>, memoryCap: nat, userCap: nat) {
    ops == [] ||
    (AllFit(start, ops[..|ops| - 1], memoryCap, userCap) &&
     RunSingly(start, ops).Ok? && Fits(RunSingly(start, ops).value.store, memoryCap, userCap))
  }

  ghost predicate OneCallOutcome(r: Result<Outcome, Error>, s: Result<(Store, Note), Error>, memoryCap: nat,
                                 userCap: nat)
  {
    && (r.Ok? <==> s.Ok? && Fits(Deduplicated(s.value.0), memoryCap, userCap))
    && (r.Ok? ==> Leaves(Texts(r), Deduplicated(s.value.0)))
  }

  /** One call is one edit, deduplicated, if the outcome fits. */
  lemma OneCall(memory: string, user: string, memoryCap: nat, userCap: nat, op: Op)
    ensures OneCallOutcome(ApplyOpsToTexts(memory, user, memoryCap, userCap, [op]), ApplyOp(Parsed(memory, user), op),
                           memoryCap, userCap)
  {
    RunOne(Parsed(memory, user), op);
    BatchLeaves(memory, user, memoryCap, userCap, [op]);
  }

  ghost predicate Leaves(r: Result<(string, string), Error>, store: Store) {
    r.Ok? && r.value.0 == RenderEntries(store.memory) && r.value.1 == RenderEntries(store.user) &&
    Parsed(r.value.0, r.value.1) == store
  }

  ghost predicate CallsFollow(memory: string, user: string, memoryCap: nat, userCap: nat, ops: seq<Op>) {
    Follows(Calls(memory, user, memoryCap, userCap, ops), Parsed(memory, user), memoryCap, userCap, ops)
  }

  ghost predicate Follows(r: Result<(string, string), Error>, start: Store, memoryCap: nat, userCap: nat,
                          ops: seq<Op>)
  {
    && (r.Ok? <==> AllFit(start, ops, memoryCap, userCap))
    && (r.Ok? ==> RunSingly(start, ops).Ok? && Parsed(r.value.0, r.value.1) == RunSingly(start, ops).value.store)
    && (r.Ok? && ops != [] ==> Leaves(r, RunSingly(start, ops).value.store))
  }

  /** The calls succeed exactly when the edits do and all they leave fits, and then leave what the edits do. */
  lemma {:induction false} CallsAreSingleEdits(memory: string, user: string, memoryCap: nat, userCap: nat, ops: seq<Op>)
    ensures CallsFollow(memory, user, memoryCap, userCap, ops)
  {
    if ops == [] {
      ParsedIsDistinct(memory, user);
    } else {
      var init, op := ops[..|ops| - 1], ops[|ops| - 1];
      CallsAreSingleEdits(memory, user, memoryCap, userCap, init);
      var r := Calls(memory, user, memoryCap, userCap, init);
      if r.Ok? {
        OneCall(r.value.0, r.value.1, memoryCap, userCap, op);
        var next := ApplyOpsToTexts(r.value.0, r.value.1, memoryCap, userCap, [op]);
        FollowsNext(Parsed(memory, user), memoryCap, userCap, ops, next);
      }
    }
  }

  function Texts(r: Result<Outcome, Error>): Result<(string, string), Error> {
    match r
    case Err(error) => Err(error)
    case Ok(out) => Ok((out.memory, out.user))
  }

  lemma FollowsNext(start: Store, memoryCap: nat, userCap: nat, ops: seq<Op>, next: Result<Outcome, Error>)
    requires ops != [] && AllFit(start, ops[..|ops| - 1], memoryCap, userCap)
    requires RunSingly(start, ops[..|ops| - 1]).Ok?
    requires var store := RunSingly(start, ops[..|ops| - 1]).value.store;
             OneCallOutcome(next, ApplyOp(store, ops[|ops| - 1]), memoryCap, userCap)
    ensures Follows(Texts(next), start, memoryCap, userCap, ops)
  {
  }

  lemma ParsedIsDistinct(memory: string, user: string)
    ensures Deduplicated(Parsed(memory, user)) == Parsed(memory, user)
  {
    ParsedIsClean(memory, user);
    DistinctKeeps(ParseEntries(memory));
    DistinctKeeps(ParseEntries(user));
  }

  ghost predicate NoCopyTaken(start: Store, ops: seq<Op>) {
    forall k :: 0 <= k < |ops| ==> !CopyTakenAt(start, ops, k)
  }

  /**
   While no edit takes a copy: where the calls succeed the batch does, with the same files; and where the batch
   succeeds the calls do exactly if what each of them leaves fits.
   */
  lemma BatchAgreesWithCalls(memory: string, user: string, memoryCap: nat, userCap: nat, ops: seq<Op>)
    requires ops != [] && NoCopyTaken(Parsed(memory, user), ops)
    ensures var batch := ApplyOpsToTexts(memory, user, memoryCap, userCap, ops);
            var calls := Calls(memory, user, memoryCap, userCap, ops);
            && (calls.Ok? ==> batch.Ok? && calls.value == (batch.value.memory, batch.value.user))
            && (batch.Ok? ==> (calls.Ok? <==> AllFit(Parsed(memory, user), ops, memoryCap, userCap)))
  {
    var start := Parsed(memory, user);
    AgreeWhile(start, ops, |ops|);
    assert ops[..|ops|] == ops;
    CallsAreSingleEdits(memory, user, memoryCap, userCap, ops);
    BatchLeaves(memory, user, memoryCap, userCap, ops);
  }

  /** A batch succeeds if its edits do and what they leave, deduplicated, fits; that is what it writes. */
  lemma BatchLeaves(memory: string, user: string, memoryCap: nat, userCap: nat, ops: seq<Op>)
    ensures var r, s := ApplyOpsToTexts(memory, user, memoryCap, userCap, ops), RunOps(Parsed(memory, user), ops);
            && (r.Ok? <==> s.Ok? && Fits(Deduplicated(s.value.store), memoryCap, userCap))
            && (r.Ok? ==> Leaves(Texts(r), Deduplicated(s.value.store)))
  {
    if ApplyOpsToTexts(memory, user, memoryCap, userCap, ops).Ok? {
      WrittenReadsBack(memory, user, memoryCap, userCap, ops);
    }
  }

  /** The first edit that takes a copy makes the files differ, if batch and calls both get past it. */
  lemma CopyTakenChangesTheFiles(memory: string, user: string, memoryCap: nat, userCap: nat, ops: seq<Op>, op: Op)
    requires NoCopyTaken(Parsed(memory, user), ops)
    requires CopyTakenAt(Parsed(memory, user), ops + [op], |ops|)
    requires ApplyOpsToTexts(memory, user, memoryCap, userCap, ops + [op]).Ok?
    requires Calls(memory, user, memoryCap, userCap, ops + [op]).Ok?
    ensures var batch := ApplyOpsToTexts(memory, user, memoryCap, userCap, ops + [op]).value;
            Calls(memory, user, memoryCap, userCap, ops + [op]).value != (batch.memory, batch.user)
  {
    Diverges(Parsed(memory, user), ops, op);
    CallsAreSingleEdits(memory, user, memoryCap, userCap, ops + [op]);
    BatchLeaves(memory, user, memoryCap, userCap, ops + [op]);
  }

  lemma Diverges(start: Store, ops: seq<Op>, op: Op)
    requires NoCopyTaken(start, ops) && CopyTakenAt(start, ops + [op], |ops|)
    ensures var batch, singly := RunOps(start, ops + [op]), RunSingly(start, ops + [op]);
            batch.Ok? && singly.Ok? && Deduplicated(batch.value.store) != singly.value.store
  {
    var all := ops + [op];
    assert all[..|ops|] == ops && all[..|all| - 1] == ops;
    AgreeWhile(start, ops, |ops|);
    assert ops[..|ops|] == ops;
    StepAgrees(RunOps(start, ops).value.store, op);
  }

  // ---- A guard that needs no duplicates to look for ----

  /** The edit writes what another entry of its file reads already. */
  ghost predicate Collides(store: Store, op: Op) {
    ApplyOp(store, op).Ok? && op.Replace? &&
    var entries := store.Of(op.target);
    var i := UniqueMatchIndex(entries, op.target, op.oldText).value;
    exists j :: 0 <= j < |entries| && j != i && entries[j] == Text.Trim(op.newText)
  }

  ghost predicate CollidesAt(start: Store, ops: seq<Op>, k: nat) {
    k < |ops| && RunOps(start, ops[..k]).Ok? && Collides(RunOps(start, ops[..k]).value.store, ops[k])
  }

  ghost predicate NoCopies(store: Store) {
    NoDuplicates(store.memory) && NoDuplicates(store.user)
  }

  lemma StepKeepsNoCopies(store: Store, op: Op)
    requires NoCopies(store) && !Collides(store, op)
    ensures !TakesACopy(store, op)
    ensures ApplyOp(store, op).Ok? ==> NoCopies(ApplyOp(store, op).value.0)
  {
    var entries := store.Of(op.target);
    match op
    case Add(_, _) =>
    case Replace(t, oldText, _) =>
    case Remove(t, oldText) =>
      if ApplyOp(store, op).Ok? {
        WithoutKeepsNoDuplicates(entries, UniqueMatchIndex(entries, t, oldText).value);
      }
  }

  ghost predicate SameUpTo(start: Store, ops: seq<Op>, k: nat) {
    && k <= |ops| && RunOps(start, ops[..k]) == RunSingly(start, ops[..k])
    && (RunOps(start, ops[..k]).Ok? ==> NoCopies(RunOps(start, ops[..k]).value.store))
  }

  lemma SameNext(start: Store, ops: seq<Op>, k: nat)
    requires k < |ops| && SameUpTo(start, ops, k) && !CollidesAt(start, ops, k)
    ensures SameUpTo(start, ops, k + 1) && !CopyTakenAt(start, ops, k)
  {
    assert ops[..k + 1][..k] == ops[..k] && ops[..k + 1][k] == ops[k];
    if RunOps(start, ops[..k]).Ok? {
      var store := RunOps(start, ops[..k]).value.store;
      StepKeepsNoCopies(store, ops[k]);
      if ApplyOp(store, ops[k]).Ok? {
        NoCopiesDeduplicated(ApplyOp(store, ops[k]).value.0);
      }
    }
  }

  lemma {:induction false} SameWhile(start: Store, ops: seq<Op>, k: nat)
    requires NoCopies(start) && k <= |ops| && forall j :: 0 <= j < |ops| ==> !CollidesAt(start, ops, j)
    ensures SameUpTo(start, ops, k)
  {
    if k == 0 {
      assert ops[..0] == [];
      NoCopiesDeduplicated(start);
    } else {
      SameWhile(start, ops, k - 1);
      SameNext(start, ops, k - 1);
    }
  }

  /** Where no replacement collides no two entries are ever equal: batch and single edits are one, errors included. */
  lemma NoCollisionNoDifference(start: Store, ops: seq<Op>)
    requires NoCopies(start) && forall k :: 0 <= k < |ops| ==> !CollidesAt(start, ops, k)
    ensures NoCopyTaken(start, ops) && RunOps(start, ops) == RunSingly(start, ops)
  {
    forall k | 0 <= k < |ops| ensures !CopyTakenAt(start, ops, k) {
      SameWhile(start, ops, k);
      SameNext(start, ops, k);
    }
    SameWhile(start, ops, |ops|);
    assert ops[..|ops|] == ops;
  }

  lemma NoCopiesDeduplicated(store: Store)
    requires NoCopies(store)
    ensures Deduplicated(store) == store
  {
    DistinctKeeps(store.memory);
    DistinctKeeps(store.user);
  }

  // ---- A batch that differs ----

  lemma LetterIsItself(x: char)
    requires 'a' <= x <= 'z'
    ensures Text.Trim([x]) == [x] && Clean([x])
    ensures forall y :: Contains([y], [x]) <==> x == y
  {
    assert OccursAt([x], [x], 0);
  }

  lemma ReplaceLetter(entries: seq<string>, x: char, y: char, i: nat)
    requires 'a' <= x <= 'z' && 'a' <= y <= 'z' && Designates(entries, [x], i)
    ensures ApplyOp(Store(entries, []), Replace(Memory, [x], [y])) == Ok((Store(entries[i := [y]], []), Replaced))
  {
    LetterIsItself(x);
    LetterIsItself(y);
    MatchIsExact(entries, Memory, [x], i);
  }

  /** Two entries, the second made equal to the first and the first then replaced. */
  lemma BatchCanDiffer(memory: string)
    requires memory == RenderEntries(["a", "b"])
    ensures Differ(memory, "", 5, 5, [Replace(Memory, "b", "a"), Replace(Memory, "a", "c")])
  {
    TwoLetters(memory);
    SecondDiffers(memory, Replace(Memory, "b", "a"), Replace(Memory, "a", "c"));
  }

  lemma TwoLetters(memory: string)
    requires memory == RenderEntries(["a", "b"])
    ensures Parsed(memory, "") == Store(["a", "b"], [])
  {
    LetterIsItself('a');
    LetterIsItself('b');
    RenderParses(["a", "b"]);
    RenderParses([]);
  }

  lemma LetterSteps()
    ensures ApplyOp(Store(["a", "b"], []), Replace(Memory, "b", "a")) == Ok((Store(["a", "a"], []), Replaced))
    ensures ApplyOp(Store(["a", "a"], []), Replace(Memory, "a", "c")) == Ok((Store(["c", "a"], []), Replaced))
    ensures ApplyOp(Store(["a"], []), Replace(Memory, "a", "c")) == Ok((Store(["c"], []), Replaced))
  {
    LetterIsItself('a');
    LetterIsItself('b');
    ReplaceLetter(["a", "b"], 'b', 'a', 1);
    assert ["a", "b"][1 := "a"] == ["a", "a"];
    ReplaceLetter(["a", "a"], 'a', 'c', 0);
    assert ["a", "a"][0 := "c"] == ["c", "a"];
    ReplaceLetter(["a"], 'a', 'c', 0);
    assert ["a"][0 := "c"] == ["c"];
  }

  ghost predicate Differ(memory: string, user: string, memoryCap: nat, userCap: nat, ops: seq<Op>) {
    var batch := ApplyOpsToTexts(memory, user, memoryCap, userCap, ops);
    var calls := Calls(memory, user, memoryCap, userCap, ops);
    batch.Ok? && calls.Ok? && calls.value != (batch.value.memory, batch.value.user)
  }

  lemma DeduplicatedLetters()
    ensures Deduplicated(Store(["a", "a"], [])) == Store(["a"], [])
    ensures Deduplicated(Store(["c", "a"], [])) == Store(["c", "a"], [])
    ensures Deduplicated(Store(["c"], [])) == Store(["c"], [])
  {
    assert ["a", "a"] == ["a"] + ["a"];
    DistinctKeeps(["a"]);
    DistinctNext(["a"], "a");
    DistinctKeeps(["c", "a"]);
    DistinctKeeps(["c"]);
  }

  lemma SecondDiffers(memory: string, first: Op, second: Op)
    requires first == Replace(Memory, "b", "a") && second == Replace(Memory, "a", "c")
    requires Parsed(memory, "") == Store(["a", "b"], [])
    ensures Differ(memory, "", 5, 5, [first, second])
  {
    LetterSteps();
    DeduplicatedLetters();
    var ops := [first, second];
    var start := Store(["a", "b"], []);
    assert ops[..1] == [first] && ops[..0] == [] && [first][..0] == [];
    RunOne(start, first);
    assert RunOps(start, ops) == Ok(Progress(Store(["c", "a"], []), Some(Memory), Some(Replaced)));
    BatchLeaves(memory, "", 5, 5, ops);
    assert Fits(Store(["c", "a"], []), 5, 5) && Fits(Store(["a"], []), 5, 5) && Fits(Store(["c"], []), 5, 5);
    ParsedIsDistinct(memory, "");
    assert RunSingly(start, []) == Ok(Progress(start, None, None));
    assert RunSingly(start, [first]) == Ok(Progress(Store(["a"], []), Some(Memory), Some(Replaced)));
    assert RunSingly(start, ops) == Ok(Progress(Store(["c"], []), Some(Memory), Some(Replaced)));
    assert AllFit(start, [first], 5, 5) && AllFit(start, ops, 5, 5);
    CallsAreSingleEdits(memory, "", 5, 5, ops);
  }
}
