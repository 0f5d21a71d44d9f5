/**
 Explicit mentions of skills in what the user typed. The specification reads the text position by position;
 the scanner passes over it once, collecting candidates, and then resolves them.
 */
module SkillMentions {
  import opened Claims
  import Text

  type Path = string

  datatype Skill = Skill(name: string, description: string, specPath: Path)

  datatype Reference = Reference(name: string, specPath: Path, arguments: Option<string>)

  // ---- Character classes and names ----

  predicate IsNameChar(c: char) {
    Text.IsAsciiAlphanumeric(c) || c == '_' || c == '-'
  }

  predicate IsAsciiPunctuation(c: char) {
    '!' <= c <= '/' || ':' <= c <= '@' || '[' <= c <= '`' || '{' <= c <= '~'
  }

  /** ASCII punctuation, and full-width comma, stop, exclamation and question marks, semicolon, colon, and so on. */
  predicate IsPunctuation(c: char) {
    || IsAsciiPunctuation(c)
    || c == '\U{FF0C}' || c == '\U{3002}' || c == '\U{FF01}' || c == '\U{FF1F}' || c == '\U{FF1B}'
    || c == '\U{FF1A}' || c == '\U{3001}' || c == '\U{FF09}' || c == '\U{3011}' || c == '\U{300B}'
  }

  const NATIVE_NAMES: seq<string> :=
    ["compact", "copy", "exit", "help", "inbox", "mcp", "ps", "resume", "skills"]

  predicate IsNative(name: string) {
    name in NATIVE_NAMES
  }

  function FirstNamed(skills: seq<Skill>, name: string): (r: Option<Skill>)
    ensures r.None? ==> forall i :: 0 <= i < |skills| ==> skills[i].name != name
    ensures r.Some? ==> exists i :: 0 <= i < |skills| && skills[i] == r.value && skills[i].name == name &&
                          forall k :: 0 <= k < i ==> skills[k].name != name
  {
    if skills == [] then None
    else if skills[0].name == name then Some(skills[0])
    else
      var r := FirstNamed(skills[1..], name);
      assert r.Some? ==> forall i :: 0 <= i < |skills| - 1 ==> skills[1..][i] == skills[i + 1];
      r
  }

  // ---- What the text mentions ----

  /** The end of the run of name characters that begins here. */
  function NameEnd(input: string, start: nat): (end: nat)
    requires start <= |input|
    ensures start <= end <= |input| && (end < |input| ==> !IsNameChar(input[end]))
    ensures forall k :: start <= k < end ==> IsNameChar(input[k])
    decreases |input| - start
  {
    if start < |input| && IsNameChar(input[start]) then NameEnd(input, start + 1) else start
  }

  function NameAt(input: string, m: nat): string
    requires m < |input|
  {
    input[m + 1..NameEnd(input, m + 1)]
  }

  predicate EndsToken(input: string, end: nat) {
    end >= |input| || Text.IsWhitespace(input[end]) || IsPunctuation(input[end])
  }

  predicate StartsToken(input: string, m: nat) {
    m < |input| && input[m] == '/' && (m == 0 || Text.IsWhitespace(input[m - 1]))
  }

  /** A slash after whitespace or nothing, a whole name, and then a token end. */
  predicate MentionAt(input: string, m: nat) {
    StartsToken(input, m) && NameEnd(input, m + 1) > m + 1 && EndsToken(input, NameEnd(input, m + 1))
  }

  /** The skill a name calls. Native commands call none. */
  function Resolve(skills: seq<Skill>, name: string): Option<Skill> {
    if IsNative(name) then None else FirstNamed(skills, name)
  }

  function SkillAt(input: string, skills: seq<Skill>, m: nat): Option<Skill> {
    if MentionAt(input, m) then Resolve(skills, NameAt(input, m)) else None
  }

  predicate CallsAt(input: string, skills: seq<Skill>, m: nat, path: Path) {
    SkillAt(input, skills, m).Some? && SkillAt(input, skills, m).value.specPath == path
  }

  /** The first place where the skill of some path is called. */
  predicate FirstCallAt(input: string, skills: seq<Skill>, m: nat) {
    && SkillAt(input, skills, m).Some?
    && forall k :: 0 <= k < m ==> !CallsAt(input, skills, k, SkillAt(input, skills, m).value.specPath)
  }

  predicate IsRegistered(skills: seq<Skill>, name: string) {
    exists i :: 0 <= i < |skills| && skills[i].name == name
  }

  /** A mention of any registered name ends the arguments before it, native or not. */
  predicate RegisteredAt(input: string, skills: seq<Skill>, m: nat) {
    MentionAt(input, m) && IsRegistered(skills, NameAt(input, m))
  }

  function NextRegistered(input: string, skills: seq<Skill>, start: nat): (next: nat)
    requires start <= |input|
    ensures start <= next <= |input| && (next < |input| ==> RegisteredAt(input, skills, next))
    ensures forall k :: start <= k < next ==> !RegisteredAt(input, skills, k)
    decreases |input| - start
  {
    if start == |input| || RegisteredAt(input, skills, start) then start else NextRegistered(input, skills, start + 1)
  }

  function NonEmpty(s: string): Option<string> {
    if s == "" then None else Some(s)
  }

  function ArgumentsAt(input: string, skills: seq<Skill>, m: nat): Option<string>
    requires m < |input|
  {
    var end := NameEnd(input, m + 1);
    if Text.Blank(input[..m]) then NonEmpty(Text.Trim(input[end..NextRegistered(input, skills, end)])) else None
  }

  function ReferenceAt(input: string, skills: seq<Skill>, m: nat): Reference
    requires SkillAt(input, skills, m).Some?
  {
    var skill := SkillAt(input, skills, m).value;
    Reference(skill.name, skill.specPath, ArgumentsAt(input, skills, m))
  }

  /** The references of the first n positions: one for each first call, in the order of the text. */
  function References(input: string, skills: seq<Skill>, n: nat): seq<Reference> {
    if n == 0 then []
    else
      References(input, skills, n - 1) +
      if FirstCallAt(input, skills, n - 1) then [ReferenceAt(input, skills, n - 1)] else []
  }

  // ---- What the references are ----

  /** A mention is exactly a slash and a nonempty name, delimited on both sides; the name is unique. */
  lemma MentionIsToken(input: string, m: nat, end: nat)
    ensures (MentionAt(input, m) && end == NameEnd(input, m + 1)) <==>
            && StartsToken(input, m) && m + 1 < end <= |input| && EndsToken(input, end)
            && (forall k :: m + 1 <= k < end ==> IsNameChar(input[k]))
            && (end < |input| ==> !IsNameChar(input[end]))
  {
  }

  /** Every reference comes from the first call of its path, and references stand in the order of those calls. */
  lemma {:induction false} ReferenceOrigin(input: string, skills: seq<Skill>, n: nat, i: nat) returns (m: nat)
    requires i < |References(input, skills, n)|
    ensures m < n && FirstCallAt(input, skills, m)
    ensures References(input, skills, n)[i] == ReferenceAt(input, skills, m)
    ensures |References(input, skills, m)| == i
  {
    if i < |References(input, skills, n - 1)| {
      m := ReferenceOrigin(input, skills, n - 1, i);
    } else {
      m := n - 1;
    }
  }

  lemma {:induction false} ReferencesGrow(input: string, skills: seq<Skill>, m: nat, n: nat)
    requires m <= n
    ensures References(input, skills, m) <= References(input, skills, n)
    decreases n
  {
    if m < n {
      ReferencesGrow(input, skills, m, n - 1);
    }
  }

  /** No path is referenced twice. */
  lemma PathsAreUnique(input: string, skills: seq<Skill>, n: nat, i: nat, j: nat)
    requires i < j < |References(input, skills, n)|
    ensures References(input, skills, n)[i].specPath != References(input, skills, n)[j].specPath
  {
    var m := ReferenceOrigin(input, skills, n, i);
    var k := ReferenceOrigin(input, skills, n, j);
    if k <= m {
      ReferencesGrow(input, skills, k, m);
      assert false;
    }
    assert CallsAt(input, skills, m, References(input, skills, n)[i].specPath);
  }

  /** Every call is answered by a reference with its path. */
  lemma {:induction false} EveryCallIsReferenced(input: string, skills: seq<Skill>, n: nat, m: nat, path: Path)
    returns (i: nat)
    requires m < n && CallsAt(input, skills, m, path)
    ensures i < |References(input, skills, n)| && References(input, skills, n)[i].specPath == path
  {
    if k: nat :| k < m && CallsAt(input, skills, k, path) {
      i := EveryCallIsReferenced(input, skills, n, k, path);
    } else {
      i := |References(input, skills, m)|;
      ReferencesGrow(input, skills, m + 1, n);
    }
  }

  /** Only a reference with nothing but whitespace before it can have arguments, and it is then the first. */
  lemma OnlyTheLeadingReferenceHasArguments(input: string, skills: seq<Skill>, n: nat, i: nat)
    requires n <= |input| && i < |References(input, skills, n)|
    ensures References(input, skills, n)[i].arguments.Some? ==> i == 0
  {
    var m := ReferenceOrigin(input, skills, n, i);
    if i > 0 {
      var k := ReferenceOrigin(input, skills, m, 0);
      SlashIsNotBlank(input, k, m);
    }
  }

  lemma SlashIsNotBlank(input: string, k: nat, m: nat)
    requires k < m <= |input| && StartsToken(input, k)
    ensures !Text.Blank(input[..m])
  {
    var c := input[..m][k];
    assert c in input[..m] && !Text.IsWhitespace(c);
  }

  // ---- The same, spelled out ----

  /** A slash at the start or after whitespace, a whole name, and then the end, whitespace or punctuation. */
  ghost predicate TokenAt(input: string, m: nat, end: nat) {
    && m + 1 < end <= |input| && input[m] == '/' && (m == 0 || Text.IsWhitespace(input[m - 1]))
    && (forall k :: m < k < end ==> Text.IsAsciiAlphanumeric(input[k]) || input[k] == '_' || input[k] == '-')
    && (end < |input| ==>
          && !Text.IsAsciiAlphanumeric(input[end]) && input[end] != '_' && input[end] != '-'
          && (Text.IsWhitespace(input[end]) || IsPunctuation(input[end])))
  }

  ghost predicate NativeName(name: string) {
    || name == "compact" || name == "copy" || name == "exit" || name == "help" || name == "inbox" || name == "mcp"
    || name == "ps" || name == "resume" || name == "skills"
  }

  ghost predicate FirstOfItsName(skills: seq<Skill>, i: nat) {
    i < |skills| && forall k :: 0 <= k < i ==> skills[k].name != skills[i].name
  }

  /** The token at m calls the i-th skill. */
  ghost predicate CallsSkill(input: string, skills: seq<Skill>, m: nat, end: nat, i: nat) {
    TokenAt(input, m, end) && FirstOfItsName(skills, i) && skills[i].name == input[m + 1..end] &&
    !NativeName(skills[i].name)
  }

  ghost predicate NamesSkill(input: string, skills: seq<Skill>, m: nat, end: nat, i: nat) {
    TokenAt(input, m, end) && i < |skills| && skills[i].name == input[m + 1..end]
  }

  ghost predicate SomeSkillNamed(input: string, skills: seq<Skill>, m: nat) {
    exists end: nat, i: nat :: NamesSkill(input, skills, m, end, i)
  }

  /** Arguments reach to the next token that names any registered skill, or to the end of the text. */
  ghost predicate ArgumentsEnd(input: string, skills: seq<Skill>, start: nat, q: nat) {
    && start <= q <= |input| && (q < |input| ==> SomeSkillNamed(input, skills, q))
    && (forall k :: start <= k < q ==> !SomeSkillNamed(input, skills, k))
  }

  /** Only what follows a mention after blank text can be arguments: its part between the blanks, if there is one. */
  ghost predicate ArgumentsAre(input: string, skills: seq<Skill>, m: nat, end: nat, q: nat, arguments: Option<string>)
  {
    && m <= end <= |input| && ArgumentsEnd(input, skills, end, q)
    && (arguments == None <==> !Text.Blank(input[..m]) || Text.Blank(input[end..q]))
    && (arguments.Some? ==> Text.CoreOf(input[end..q], arguments.value))
  }

  /** The reference is to the skill that the token at m calls, under its name and path and with its arguments. */
  ghost predicate RefersTo(input: string, skills: seq<Skill>, m: nat, r: Reference) {
    exists end: nat, i: nat, q: nat ::
      CallsSkill(input, skills, m, end, i) && r.name == skills[i].name && r.specPath == skills[i].specPath &&
      ArgumentsAre(input, skills, m, end, q, r.arguments)
  }

  lemma MentionIsSpelled(input: string, m: nat, end: nat)
    ensures (MentionAt(input, m) && end == NameEnd(input, m + 1)) <==> TokenAt(input, m, end)
  {
    MentionIsToken(input, m, end);
  }

  lemma RegisteredIsSpelled(input: string, skills: seq<Skill>, m: nat)
    ensures RegisteredAt(input, skills, m) <==> SomeSkillNamed(input, skills, m)
  {
    if MentionAt(input, m) {
      var end := NameEnd(input, m + 1);
      MentionIsSpelled(input, m, end);
      if i: nat :| i < |skills| && skills[i].name == NameAt(input, m) {
        assert NamesSkill(input, skills, m, end, i);
      }
    }
    if end: nat, i: nat :| NamesSkill(input, skills, m, end, i) {
      MentionIsSpelled(input, m, end);
    }
  }

  lemma NativeIsSpelled(name: string)
    ensures IsNative(name) <==> NativeName(name)
  {
  }

  lemma CallIsSpelled(input: string, skills: seq<Skill>, m: nat, end: nat, i: nat)
    ensures CallsSkill(input, skills, m, end, i) ==> SkillAt(input, skills, m) == Some(skills[i])
  {
    if CallsSkill(input, skills, m, end, i) {
      MentionIsSpelled(input, m, end);
      NativeIsSpelled(skills[i].name);
      assert NameAt(input, m) == skills[i].name;
    }
  }

  lemma CallHasSkill(input: string, skills: seq<Skill>, m: nat) returns (end: nat, i: nat)
    requires SkillAt(input, skills, m).Some?
    ensures CallsSkill(input, skills, m, end, i) && skills[i] == SkillAt(input, skills, m).value
    ensures end == NameEnd(input, m + 1)
  {
    end := NameEnd(input, m + 1);
    MentionIsSpelled(input, m, end);
    NativeIsSpelled(NameAt(input, m));
    i :| 0 <= i < |skills| && skills[i] == SkillAt(input, skills, m).value && skills[i].name == NameAt(input, m) &&
         forall k :: 0 <= k < i ==> skills[k].name != NameAt(input, m);
  }

  lemma ArgumentsAreSpelled(input: string, skills: seq<Skill>, m: nat)
    requires m < |input|
    ensures var end := NameEnd(input, m + 1);
            ArgumentsAre(input, skills, m, end, NextRegistered(input, skills, end), ArgumentsAt(input, skills, m))
  {
    var end := NameEnd(input, m + 1);
    var q := NextRegistered(input, skills, end);
    forall k: nat
      ensures RegisteredAt(input, skills, k) <==> SomeSkillNamed(input, skills, k)
    {
      RegisteredIsSpelled(input, skills, k);
    }
    Text.TrimBlank(input[end..q]);
    var before, after := Text.TrimIsCore(input[end..q]);
  }

  lemma ReferenceIsSpelled(input: string, skills: seq<Skill>, m: nat)
    requires SkillAt(input, skills, m).Some?
    ensures RefersTo(input, skills, m, ReferenceAt(input, skills, m))
  {
    var end, i := CallHasSkill(input, skills, m);
    ArgumentsAreSpelled(input, skills, m);
  }

  /** The references in full: where each comes from, in which order, that no path repeats, and that none is missing. */
  ghost predicate Answers(input: string, skills: seq<Skill>, references: seq<Reference>, origins: seq<nat>) {
    && |origins| == |references|
    && (forall i :: 0 <= i < |references| ==> RefersTo(input, skills, origins[i], references[i]))
    && (forall i, j :: 0 <= i < j < |references| ==> origins[i] < origins[j])
    && (forall i, j :: 0 <= i < j < |references| ==> references[i].specPath != references[j].specPath)
    && (forall m: nat, end: nat, i: nat :: CallsSkill(input, skills, m, end, i) ==>
          AnsweredBy(references, origins, m, skills[i].specPath))
  }

  ghost predicate AnsweredBy(references: seq<Reference>, origins: seq<nat>, m: nat, path: Path) {
    exists k :: 0 <= k < |references| && k < |origins| && origins[k] <= m && references[k].specPath == path
  }

  function Origins(input: string, skills: seq<Skill>, n: nat): seq<nat> {
    if n == 0 then []
    else Origins(input, skills, n - 1) + if FirstCallAt(input, skills, n - 1) then [n - 1] else []
  }

  lemma {:induction false} OriginsMatch(input: string, skills: seq<Skill>, n: nat)
    ensures |Origins(input, skills, n)| == |References(input, skills, n)|
    ensures forall i :: 0 <= i < |Origins(input, skills, n)| ==> OriginatesAt(input, skills, n, i)
    ensures forall i, j :: 0 <= i < j < |Origins(input, skills, n)| ==>
              Origins(input, skills, n)[i] < Origins(input, skills, n)[j]
  {
    if n > 0 {
      OriginsMatch(input, skills, n - 1);
      forall i | 0 <= i < |Origins(input, skills, n - 1)|
        ensures OriginatesAt(input, skills, n, i) && Origins(input, skills, n)[i] < n - 1
      {
        assert OriginatesAt(input, skills, n - 1, i);
      }
    }
  }

  ghost predicate OriginatesAt(input: string, skills: seq<Skill>, n: nat, i: nat) {
    && i < |Origins(input, skills, n)| && i < |References(input, skills, n)|
    && var m := Origins(input, skills, n)[i];
       m < n && FirstCallAt(input, skills, m) && References(input, skills, n)[i] == ReferenceAt(input, skills, m)
  }

  lemma CallIsAnswered(input: string, skills: seq<Skill>, n: nat, m: nat, path: Path)
    requires m < n && CallsAt(input, skills, m, path)
    ensures AnsweredBy(References(input, skills, n), Origins(input, skills, n), m, path)
  {
    OriginsMatch(input, skills, n);
    var k := EveryCallIsReferenced(input, skills, n, m, path);
    assert OriginatesAt(input, skills, n, k);
  }

  lemma ReferencesAnswer(input: string, skills: seq<Skill>)
    ensures Answers(input, skills, References(input, skills, |input|), Origins(input, skills, |input|))
  {
    var n := |input|;
    OriginsMatch(input, skills, n);
    forall i | 0 <= i < |References(input, skills, n)|
      ensures RefersTo(input, skills, Origins(input, skills, n)[i], References(input, skills, n)[i])
    {
      assert OriginatesAt(input, skills, n, i);
      ReferenceIsSpelled(input, skills, Origins(input, skills, n)[i]);
    }
    forall i, j | 0 <= i < j < |References(input, skills, n)|
      ensures References(input, skills, n)[i].specPath != References(input, skills, n)[j].specPath
    {
      PathsAreUnique(input, skills, n, i, j);
    }
    forall m: nat, end: nat, i: nat | CallsSkill(input, skills, m, end, i)
      ensures AnsweredBy(References(input, skills, n), Origins(input, skills, n), m, skills[i].specPath)
    {
      CallIsSpelled(input, skills, m, end, i);
      CallIsAnswered(input, skills, n, m, skills[i].specPath);
    }
  }

  // ---- The scanner ----

  datatype Candidate = Candidate(name: string, start: nat, end: nat)

  function CandidateAt(input: string, m: nat): Candidate
    requires m < |input|
  {
    Candidate(NameAt(input, m), m, NameEnd(input, m + 1))
  }

  /** The positions below n where p holds, in order. */
  function Positions(p: nat -> bool, n: nat): seq<nat> {
    if n == 0 then [] else Positions(p, n - 1) + if p(n - 1) then [n - 1] else []
  }

  function Mentions(input: string): nat -> bool {
    (m: nat) => MentionAt(input, m)
  }

  lemma {:induction false} NoPositions(p: nat -> bool, lo: nat, hi: nat)
    requires lo <= hi && forall m :: lo <= m < hi ==> !p(m)
    ensures Positions(p, hi) == Positions(p, lo)
  {
    if lo < hi {
      NoPositions(p, lo, hi - 1);
    }
  }

  lemma {:induction false} PositionsExact(p: nat -> bool, n: nat)
    ensures forall k :: 0 <= k < |Positions(p, n)| ==> Positions(p, n)[k] < n && p(Positions(p, n)[k])
    ensures forall j, k :: 0 <= j < k < |Positions(p, n)| ==> Positions(p, n)[j] < Positions(p, n)[k]
    ensures forall m :: 0 <= m < n && p(m) ==> m in Positions(p, n)
  {
    if n > 0 {
      PositionsExact(p, n - 1);
    }
  }

  /** A position of a sorted list of positions, or the end. */
  function PositionOr(positions: seq<nat>, k: nat, end: nat): nat {
    if k < |positions| then positions[k] else end
  }

  lemma PositionsLeaveNoGap(p: nat -> bool, n: nat, k: nat)
    requires k <= |Positions(p, n)|
    ensures PositionOr(Positions(p, n), k, n) <= n
    ensures k > 0 ==> Positions(p, n)[k - 1] < PositionOr(Positions(p, n), k, n)
    ensures k < |Positions(p, n)| ==> p(Positions(p, n)[k]) && Positions(p, n)[k] < n
    ensures var lo := if k == 0 then 0 else Positions(p, n)[k - 1] + 1;
            forall m :: lo <= m < PositionOr(Positions(p, n), k, n) ==> !p(m)
  {
  }

  function CandidatesOf(input: string, starts: seq<nat>): seq<Candidate>
    requires forall k :: 0 <= k < |starts| ==> starts[k] < |input|
  {
    seq(|starts|, k requires 0 <= k < |starts| => CandidateAt(input, starts[k]))
  }

  function Starts(input: string): (r: seq<nat>)
    ensures forall k :: 0 <= k < |r| ==> r[k] < |input|
  {
    PositionsExact(Mentions(input), |input|);
    Positions(Mentions(input), |input|)
  }

  method ScanName(input: string, start: nat) returns (end: nat)
    requires start <= |input|
    ensures end == NameEnd(input, start)
  {
    end := start;
    while end < |input| && IsNameChar(input[end])
      invariant start <= end <= |input| && NameEnd(input, start) == NameEnd(input, end)
    {
      end := end + 1;
    }
  }

  /** Reads on from one position: past a candidate, past a name that is none, or past one character. */
  method ScanFrom(input: string, at: nat) returns (candidate: Option<Candidate>, next: nat)
    requires at < |input|
    ensures at < next <= |input|
    ensures candidate.Some? ==> candidate.value == CandidateAt(input, at)
    ensures Positions(Mentions(input), next) ==
            Positions(Mentions(input), at) + if candidate.Some? then [at] else []
  {
    candidate, next := None, at + 1;
    if StartsToken(input, at) {
      next := ScanName(input, next);
      if at + 1 < next && EndsToken(input, next) {
        candidate := Some(Candidate(input[at + 1..next], at, next));
      }
      PastTheName(input, at);
    }
  }

  method FindCandidates(input: string) returns (candidates: seq<Candidate>)
    ensures candidates == CandidatesOf(input, Starts(input))
  {
    candidates := [];
    var i := 0;
    ghost var starts := [];
    while i < |input|
      invariant i <= |input| && starts == Positions(Mentions(input), i)
      invariant forall k :: 0 <= k < |starts| ==> starts[k] < |input|
      invariant candidates == CandidatesOf(input, starts)
    {
      var candidate, next := ScanFrom(input, i);
      if candidate.Some? {
        candidates := candidates + [candidate.value];
        starts := starts + [i];
      }
      i := next;
    }
  }

  /** The text from a slash to the end of its name holds one mention or none. */
  lemma PastTheName(input: string, slash: nat)
    requires StartsToken(input, slash)
    ensures var end := NameEnd(input, slash + 1);
            Positions(Mentions(input), end) ==
            Positions(Mentions(input), slash) + if slash + 1 < end && EndsToken(input, end) then [slash] else []
  {
    NoSlashInName(input, slash);
    NoPositions(Mentions(input), slash + 1, NameEnd(input, slash + 1));
  }

  ghost predicate NoneBetween(input: string, lo: nat, hi: nat) {
    lo <= hi <= |input| && forall m :: lo <= m < hi ==> !MentionAt(input, m)
  }

  /** Where the candidate of an index starts; past the last one, where the text ends. */
  function StartOf(input: string, k: nat): nat {
    PositionOr(Starts(input), k, |input|)
  }

  /** There is no mention before the first candidate, nor between one candidate and the next. */
  lemma NoMentionBetween(input: string, k: nat)
    requires k <= |Starts(input)|
    ensures k == 0 ==> NoneBetween(input, 0, StartOf(input, 0))
    ensures k > 0 ==> NoneBetween(input, StartOf(input, k - 1) + 1, StartOf(input, k))
    ensures k < |Starts(input)| ==> MentionAt(input, StartOf(input, k)) && StartOf(input, k) < |input|
  {
    PositionsLeaveNoGap(Mentions(input), |input|, k);
    var lo := if k == 0 then 0 else StartOf(input, k - 1) + 1;
    forall m | lo <= m < StartOf(input, k) ensures !MentionAt(input, m) {
      assert !Mentions(input)(m);
    }
    assert k < |Starts(input)| ==> Mentions(input)(StartOf(input, k));
  }

  /** The paths called in the first n positions. */
  ghost function PathsCalled(input: string, skills: seq<Skill>, n: nat): set<Path> {
    if n == 0 then {}
    else
      PathsCalled(input, skills, n - 1) +
      if SkillAt(input, skills, n - 1).Some? then {SkillAt(input, skills, n - 1).value.specPath} else {}
  }

  lemma {:induction false} PathsCalledExact(input: string, skills: seq<Skill>, n: nat, path: Path)
    ensures path in PathsCalled(input, skills, n) <==> exists m :: 0 <= m < n && CallsAt(input, skills, m, path)
  {
    if n > 0 {
      PathsCalledExact(input, skills, n - 1, path);
      var skill := SkillAt(input, skills, n - 1);
      assert CallsAt(input, skills, n - 1, path) <==> skill.Some? && skill.value.specPath == path;
    }
  }

  lemma {:induction false} NothingCalled(input: string, skills: seq<Skill>, lo: nat, hi: nat)
    requires NoneBetween(input, lo, hi)
    ensures References(input, skills, hi) == References(input, skills, lo)
    ensures PathsCalled(input, skills, hi) == PathsCalled(input, skills, lo)
  {
    if lo < hi {
      NothingCalled(input, skills, lo, hi - 1);
    }
  }

  lemma NextRegisteredIs(input: string, skills: seq<Skill>, start: nat, next: nat)
    requires start <= next <= |input| && (next < |input| ==> RegisteredAt(input, skills, next))
    requires forall k :: start <= k < next ==> !RegisteredAt(input, skills, k)
    ensures NextRegistered(input, skills, start) == next
  {
  }

  ghost predicate NoneRegistered(input: string, skills: seq<Skill>, lo: nat, hi: nat) {
    lo <= hi <= |input| && forall m :: lo <= m < hi ==> !RegisteredAt(input, skills, m)
  }

  /** Past an unregistered candidate there is nothing registered before the next one. */
  lemma SkipUnregistered(input: string, skills: seq<Skill>, lo: nat, j: nat)
    requires j < |Starts(input)| && NoneRegistered(input, skills, lo, StartOf(input, j))
    requires !IsRegistered(skills, NameAt(input, StartOf(input, j)))
    ensures NoneRegistered(input, skills, lo, StartOf(input, j + 1))
  {
    NoMentionBetween(input, j + 1);
  }

  /** A name runs into no later mention. */
  lemma AfterTheName(input: string, skills: seq<Skill>, k: nat)
    requires k < |Starts(input)|
    ensures NoneRegistered(input, skills, NameEnd(input, StartOf(input, k) + 1), StartOf(input, k + 1))
  {
    NoMentionBetween(input, k);
    NoMentionBetween(input, k + 1);
    NoSlashInName(input, StartOf(input, k));
  }

  lemma NoSlashInName(input: string, m: nat)
    requires m < |input|
    ensures forall k :: m < k < NameEnd(input, m + 1) ==> !StartsToken(input, k)
  {
    assert forall k :: m < k < NameEnd(input, m + 1) ==> IsNameChar(input[k]);
  }

  /** Where the arguments of a candidate end: at the next candidate whose name is registered. */
  method NextSkillStart(input: string, skills: seq<Skill>, candidates: seq<Candidate>, k: nat) returns (next: nat)
    requires candidates == CandidatesOf(input, Starts(input)) && k < |candidates|
    ensures candidates[k].end <= |input| && next == NextRegistered(input, skills, candidates[k].end)
  {
    AfterTheName(input, skills, k);
    var j := k + 1;
    while j < |candidates| && !IsRegistered(skills, candidates[j].name)
      invariant k < j <= |candidates|
      invariant NoneRegistered(input, skills, candidates[k].end, StartOf(input, j))
    {
      SkipUnregistered(input, skills, candidates[k].end, j);
      j := j + 1;
    }
    next := if j < |candidates| then candidates[j].start else |input|;
    NoMentionBetween(input, j);
    NextRegisteredIs(input, skills, candidates[k].end, next);
  }

  method ArgumentsOf(input: string, skills: seq<Skill>, candidates: seq<Candidate>, k: nat)
    returns (arguments: Option<string>)
    requires candidates == CandidatesOf(input, Starts(input)) && k < |candidates|
    ensures arguments == ArgumentsAt(input, skills, candidates[k].start)
  {
    Text.TrimBlank(input[..candidates[k].start]);
    if Text.Trim(input[..candidates[k].start]) != "" {
      return None;
    }
    var next := NextSkillStart(input, skills, candidates, k);
    arguments := NonEmpty(Text.Trim(input[candidates[k].end..next]));
  }

  /** What the mention at `m`, if it calls a skill, adds to the references and to the paths seen. */
  ghost predicate Adds(input: string, skills: seq<Skill>, m: nat, references: seq<Reference>, seen: set<Path>,
                       next: seq<Reference>, seenNext: set<Path>)
  {
    match SkillAt(input, skills, m)
    case None => next == references && seenNext == seen
    case Some(skill) =>
      && seenNext == seen + {skill.specPath}
      && next == references + if skill.specPath in seen then [] else [ReferenceAt(input, skills, m)]
  }

  lemma OnePosition(input: string, skills: seq<Skill>, m: nat)
    ensures Adds(input, skills, m, References(input, skills, m), PathsCalled(input, skills, m),
                 References(input, skills, m + 1), PathsCalled(input, skills, m + 1))
  {
    var skill := SkillAt(input, skills, m);
    if skill.Some? {
      PathsCalledExact(input, skills, m, skill.value.specPath);
    }
  }

  lemma CandidateResolves(input: string, skills: seq<Skill>, k: nat)
    requires k < |Starts(input)|
    ensures SkillAt(input, skills, StartOf(input, k)) == Resolve(skills, NameAt(input, StartOf(input, k)))
  {
    NoMentionBetween(input, k);
  }

  /** A candidate is all there is from its start up to the next candidate. */
  lemma OneCandidate(input: string, skills: seq<Skill>, k: nat)
    requires k < |Starts(input)|
    ensures var m, next := StartOf(input, k), StartOf(input, k + 1);
            Adds(input, skills, m, References(input, skills, m), PathsCalled(input, skills, m),
                 References(input, skills, next), PathsCalled(input, skills, next))
  {
    NoMentionBetween(input, k + 1);
    OnePosition(input, skills, StartOf(input, k));
    NothingCalled(input, skills, StartOf(input, k) + 1, StartOf(input, k + 1));
  }

  method FindExplicitSkillInvocations(input: string, skills: seq<Skill>)
    returns (references: seq<Reference>, ghost origins: seq<nat>)
    ensures references == References(input, skills, |input|)
    ensures Answers(input, skills, references, origins)
  {
    var candidates := FindCandidates(input);
    var seen: set<Path> := {};
    references := [];
    NoMentionBetween(input, 0);
    NothingCalled(input, skills, 0, StartOf(input, 0));
    for k := 0 to |candidates|
      invariant references == References(input, skills, StartOf(input, k))
      invariant seen == PathsCalled(input, skills, StartOf(input, k))
    {
      OneCandidate(input, skills, k);
      CandidateResolves(input, skills, k);
      var skill := Resolve(skills, candidates[k].name);
      if skill.Some? {
        if skill.value.specPath !in seen {
          seen := seen + {skill.value.specPath};
          var arguments := ArgumentsOf(input, skills, candidates, k);
          references := references + [Reference(skill.value.name, skill.value.specPath, arguments)];
        }
      }
    }
    ReferencesAnswer(input, skills);
    origins := Origins(input, skills, |input|);
  }
}
