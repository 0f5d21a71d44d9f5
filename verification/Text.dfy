/** Whitespace and trimming, on strings of Unicode scalar values. */
module Text {

  /** The White_Space property of Unicode. */
  predicate IsWhitespace(c: char) {
    var x := c as int;
    0x09 <= x <= 0x0D || x == 0x20 || x == 0x85 || x == 0xA0 || x == 0x1680 || 0x2000 <= x <= 0x200A ||
    x == 0x2028 || x == 0x2029 || x == 0x202F || x == 0x205F || x == 0x3000
  }

  predicate IsAsciiAlphanumeric(c: char) {
    '0' <= c <= '9' || 'A' <= c <= 'Z' || 'a' <= c <= 'z'
  }

  predicate Blank(s: string) {
    forall c :: c in s ==> IsWhitespace(c)
  }

  predicate Trimmed(s: string) {
    s != "" ==> !IsWhitespace(s[0]) && !IsWhitespace(s[|s| - 1])
  }

  function TrimStart(s: string): string {
    if s != "" && IsWhitespace(s[0]) then TrimStart(s[1..]) else s
  }

  function TrimEnd(s: string): string {
    if s != "" && IsWhitespace(s[|s| - 1]) then TrimEnd(s[..|s| - 1]) else s
  }

  lemma {:induction false} TrimStartIsSuffix(s: string) returns (before: string)
    ensures Blank(before) && s == before + TrimStart(s)
    ensures TrimStart(s) != "" ==> !IsWhitespace(TrimStart(s)[0])
  {
    if s != "" && IsWhitespace(s[0]) {
      before := TrimStartIsSuffix(s[1..]);
      before := [s[0]] + before;
    } else {
      before := "";
    }
  }

  lemma {:induction false} TrimEndIsPrefix(s: string) returns (after: string)
    ensures Blank(after) && s == TrimEnd(s) + after
    ensures TrimEnd(s) != "" ==> !IsWhitespace(TrimEnd(s)[|TrimEnd(s)| - 1])
  {
    if s != "" && IsWhitespace(s[|s| - 1]) {
      after := TrimEndIsPrefix(s[..|s| - 1]);
      after := after + [s[|s| - 1]];
    } else {
      after := "";
    }
  }

  /** The string without its leading and trailing whitespace. */
  function Trim(s: string): string {
    TrimEnd(TrimStart(s))
  }

  /** The result is what lies between two blank margins, and itself begins and ends with ink. */
  lemma TrimIsCore(s: string) returns (before: string, after: string)
    ensures Blank(before) && Blank(after) && s == before + Trim(s) + after
    ensures Trimmed(Trim(s))
  {
    before := TrimStartIsSuffix(s);
    after := TrimEndIsPrefix(TrimStart(s));
    assert Trim(s) != "" ==> TrimStart(s)[0] == Trim(s)[0];
  }

  /** What is left of a text without its blank margins. */
  ghost predicate CoreOf(text: string, core: string) {
    core != "" && Trimmed(core) &&
    exists before: string, after: string :: Blank(before) && Blank(after) && text == before + core + after
  }

  lemma TrimBlank(s: string)
    ensures Trim(s) == "" <==> Blank(s)
  {
    var before, after := TrimIsCore(s);
    var r := Trim(s);
    assert r != "" ==> s[|before|] == r[0];
  }

  /** Trimming is determined by its result: blanks around a trimmed core vanish, whatever they are. */
  lemma TrimOf(before: string, core: string, after: string)
    requires Blank(before) && Blank(after) && Trimmed(core) && core != ""
    ensures Trim(before + core + after) == core
  {
    var s := before + core + after;
    StripStart(before, core + after);
    assert before + (core + after) == s;
    StripEnd(core, after);
  }

  lemma {:induction false} StripStart(before: string, rest: string)
    requires Blank(before) && rest != "" && !IsWhitespace(rest[0])
    ensures TrimStart(before + rest) == rest
  {
    if before == "" {
      assert before + rest == rest;
    } else {
      assert before[0] in before;
      assert (before + rest)[1..] == before[1..] + rest;
      StripStart(before[1..], rest);
    }
  }

  lemma {:induction false} StripEnd(core: string, after: string)
    requires Blank(after) && core != "" && !IsWhitespace(core[|core| - 1])
    ensures TrimEnd(core + after) == core
  {
    if after == "" {
      assert core + after == core;
    } else {
      assert after[|after| - 1] in after;
      assert (core + after)[..|core + after| - 1] == core + after[..|after| - 1];
      StripEnd(core, after[..|after| - 1]);
    }
  }
}
