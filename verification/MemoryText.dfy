/**
 The agent's two memory files. Each is a text of entries separated by a section sign on a line of its own;
 a batch of edits rewrites both within their capacities.
 */
module MemoryText {
  import opened Sequences
  import Text

  datatype Result<+T, +E> = Ok(value: T) | Err(error: E)

  const SECTION: char := '\U{00A7}'

  const DELIMITER: string := ['\n', SECTION, '\n']

  const MAX_COUNT: nat := 0xFFFF_FFFF_FFFF_FFFF

  // ---- Parsing and printing ----

  /** The pieces between section signs; at least one. */
  function Split(s: string): (r: seq<string>)
    ensures r != []
  {
    if s == "" then [""]
    else if s[0] == SECTION then [""] + Split(s[1..])
    else
      var rest := Split(s[1..]);
      [[s[0]] + rest[0]] + rest[1..]
  }

  /** A piece without its margins, if anything is left of it. */
  function Kept(piece: string): seq<string> {
    var t := Text.Trim(piece);
    if t == "" then [] else [t]
  }

  /** The trimmed pieces that are not empty, in order. */
  function TrimAll(pieces: seq<string>): seq<string> {
    if pieces == [] then [] else Kept(pieces[0]) + TrimAll(pieces[1..])
  }

  function ParseEntries(text: string): seq<string> {
    Distinct(TrimAll(Split(text)))
  }

  function RenderEntries(entries: seq<string>): string {
    if entries == [] then ""
    else if |entries| == 1 then entries[0]
    else entries[0] + DELIMITER + RenderEntries(entries[1..])
  }

  method Parse(text: string) returns (entries: seq<string>)
    ensures entries == ParseEntries(text)
  {
    var pieces := Split(text);
    entries := [];
    for i := 0 to |pieces|
      invariant entries == Distinct(TrimAll(pieces[..i]))
    {
      TrimAllNext(pieces, i);
      var trimmed := Text.Trim(pieces[i]);
      if trimmed != "" {
        DistinctNext(TrimAll(pieces[..i]), trimmed);
        if trimmed !in entries {
          entries := entries + [trimmed];
        }
      } else {
        assert TrimAll(pieces[..i + 1]) == TrimAll(pieces[..i]);
      }
    }
    assert pieces[..|pieces|] == pieces;
  }

  lemma {:induction false} TrimAllNext(pieces: seq<string>, i: nat)
    requires i < |pieces|
    ensures TrimAll(pieces[..i + 1]) == TrimAll(pieces[..i]) + Kept(pieces[i])
  {
    if i == 0 {
      assert pieces[..1] == [pieces[0]];
    } else {
      var rest := pieces[1..];
      assert pieces[..i + 1][1..] == rest[..i] && pieces[..i][1..] == rest[..i - 1];
      TrimAllNext(rest, i - 1);
    }
  }

  lemma DistinctNext(xs: seq<string>, x: string)
    ensures Distinct(xs + [x]) == if x in Distinct(xs) then Distinct(xs) else Distinct(xs) + [x]
  {
    assert (xs + [x])[..|xs|] == xs;
  }

  /** What an entry on file looks like. */
  ghost predicate Clean(entry: string) {
    entry != "" && Text.Trimmed(entry) && SECTION !in entry
  }

  ghost predicate AllClean(entries: seq<string>) {
    forall e :: e in entries ==> Clean(e)
  }

  ghost predicate Normal(entries: seq<string>) {
    AllClean(entries) && NoDuplicates(entries)
  }

  lemma {:induction false} SplitAt(a: string, b: string)
    requires SECTION !in a
    ensures Split(a + [SECTION] + b) == [a] + Split(b)
  {
    var s := a + [SECTION] + b;
    if a == "" {
      assert s == [SECTION] + b;
      assert s[1..] == b;
    } else {
      assert s[1..] == a[1..] + [SECTION] + b;
      assert a[0] in a;
      SplitAt(a[1..], b);
      assert [a[0]] + a[1..] == a;
    }
  }

  lemma {:induction false} SplitNone(a: string)
    requires SECTION !in a
    ensures Split(a) == [a]
  {
    if a != "" {
      assert a[0] in a;
      SplitNone(a[1..]);
      assert [a[0]] + a[1..] == a;
    }
  }

  lemma {:induction false} SplitLeavesNoSign(s: string)
    ensures forall p :: p in Split(s) ==> SECTION !in p
  {
    if s != "" {
      SplitLeavesNoSign(s[1..]);
      var rest := Split(s[1..]);
      assert rest == [rest[0]] + rest[1..];
      assert rest[0] in rest;
    }
  }

  lemma KeptCore(before: string, core: string, after: string)
    requires Text.Blank(before) && Text.Blank(after) && Clean(core)
    ensures Kept(before + core + after) == [core]
  {
    Text.TrimOf(before, core, after);
  }

  /** The margin a delimiter leaves on each side is trimmed away. */
  lemma LastPiece(margin: string, e: string)
    requires Text.Blank(margin) && SECTION !in margin && Clean(e)
    ensures TrimAll(Split(margin + e)) == [e]
  {
    SplitNone(margin + e);
    KeptCore(margin, e, "");
    assert margin + e + "" == margin + e;
    assert [margin + e][1..] == [];
  }

  lemma PieceAndRest(margin: string, e: string, rest: string)
    requires Text.Blank(margin) && SECTION !in margin && Clean(e)
    ensures TrimAll(Split(margin + e + "\n" + [SECTION] + rest)) == [e] + TrimAll(Split(rest))
  {
    var head := margin + e + "\n";
    SplitAt(head, rest);
    KeptCore(margin, e, "\n");
    assert ([head] + Split(rest))[1..] == Split(rest);
  }

  lemma {:induction false} PiecesOfRendered(margin: string, entries: seq<string>)
    requires Text.Blank(margin) && SECTION !in margin && entries != [] && AllClean(entries)
    ensures TrimAll(Split(margin + RenderEntries(entries))) == entries
    decreases entries
  {
    var e := entries[0];
    assert Clean(e) by { assert e in entries; }
    if |entries| == 1 {
      LastPiece(margin, e);
    } else {
      var rest := "\n" + RenderEntries(entries[1..]);
      assert margin + RenderEntries(entries) == margin + e + "\n" + [SECTION] + rest;
      PieceAndRest(margin, e, rest);
      PiecesOfRendered("\n", entries[1..]);
    }
  }

  /** Printing entries in normal form and reading them back gives the same entries. */
  lemma RenderParses(entries: seq<string>)
    requires Normal(entries)
    ensures ParseEntries(RenderEntries(entries)) == entries
  {
    if entries == [] {
      Text.TrimBlank("");
      assert TrimAll([""]) == [];
    } else {
      assert "" + RenderEntries(entries) == RenderEntries(entries);
      PiecesOfRendered("", entries);
      DistinctKeeps(entries);
    }
  }

  lemma {:induction false} TrimAllClean(pieces: seq<string>)
    requires forall p :: p in pieces ==> SECTION !in p
    ensures AllClean(TrimAll(pieces))
  {
    if pieces != [] {
      TrimAllClean(pieces[1..]);
      CleanTrim(pieces[0]);
    }
  }

  lemma CleanTrim(s: string)
    requires SECTION !in s
    ensures Text.Trim(s) != "" ==> Clean(Text.Trim(s))
  {
    var before, after := Text.TrimIsCore(s);
    assert forall c :: c in Text.Trim(s) ==> c in s;
  }

  /** Whatever the file holds, what is read from it is in normal form. */
  lemma ParsedIsNormal(text: string)
    ensures Normal(ParseEntries(text))
  {
    SplitLeavesNoSign(text);
    TrimAllClean(Split(text));
  }

  /** Reading, printing and reading again is reading once. */
  lemma ParseRenderParse(text: string)
    ensures ParseEntries(RenderEntries(ParseEntries(text))) == ParseEntries(text)
  {
    ParsedIsNormal(text);
    RenderParses(ParseEntries(text));
  }

  // ---- What the text says ----

  /** No section sign stands between the two places. */
  ghost predicate Free(s: string, i: int, j: int) {
    forall k :: 0 <= k < |s| && i <= k < j ==> s[k] != '\U{00A7}'
  }

  /** A stretch of text between two section signs, or between one and an end of the text. */
  ghost predicate PieceAt(s: string, i: nat, j: nat) {
    && i <= j <= |s| && (i == 0 || s[i - 1] == '\U{00A7}') && (j == |s| || s[j] == '\U{00A7}')
    && Free(s, i, j)
  }

  /** The characters of a stretch of the rest are those one further on in the text. */
  lemma Behind(s: string, i: nat, j: nat)
    requires 0 < i <= j <= |s|
    ensures s[i..j] == s[1..][i - 1..j - 1]
    ensures Free(s, i, j) <==> Free(s[1..], i - 1, j - 1)
    ensures j < |s| ==> s[j] == s[1..][j - 1]
  {
    var rest := s[1..];
    assert forall k :: 0 <= k < |rest| ==> rest[k] == s[k + 1];
    if Free(s, i, j) {
      forall k | 0 <= k < |rest| && i - 1 <= k < j - 1 ensures rest[k] != '\U{00A7}' {
        assert s[k + 1] != '\U{00A7}';
      }
    }
    if Free(rest, i - 1, j - 1) {
      forall k | i <= k < j ensures s[k] != '\U{00A7}' {
        assert rest[k - 1] != '\U{00A7}';
      }
    }
  }

  /** A piece that begins later in the text is a piece of the text from its second character on. */
  lemma PieceBehind(s: string, i: nat, j: nat)
    requires s != "" && 0 < i && (i > 1 || s[0] == '\U{00A7}')
    ensures PieceAt(s, i, j) <==> i - 1 <= j - 1 && PieceAt(s[1..], i - 1, j - 1)
    ensures PieceAt(s, i, j) ==> s[i..j] == s[1..][i - 1..j - 1]
  {
    if i <= j <= |s| {
      Behind(s, i, j);
    }
  }

  /** The first piece, where no sign stands first, is one character more than that of the rest. */
  lemma FirstPiece(s: string, j: nat)
    requires s != "" && s[0] != '\U{00A7}' && 0 < j
    ensures PieceAt(s, 0, j) <==> PieceAt(s[1..], 0, j - 1)
    ensures PieceAt(s, 0, j) ==> s[0..j] == [s[0]] + s[1..][0..j - 1]
  {
    if j <= |s| {
      Behind(s, 1, j);
      assert Free(s, 0, j) <==> Free(s, 1, j);
    }
  }

  lemma {:induction false} PieceFrom(s: string, k: nat) returns (i: nat, j: nat)
    requires k < |Split(s)|
    ensures PieceAt(s, i, j) && s[i..j] == Split(s)[k] && (k == 0 <==> i == 0)
  {
    if s == "" || (s[0] == SECTION && k == 0) {
      i, j := 0, 0;
    } else if s[0] == SECTION {
      i, j := PieceFrom(s[1..], k - 1);
      i, j := i + 1, j + 1;
      PieceBehind(s, i, j);
    } else {
      i, j := PieceFrom(s[1..], k);
      i, j := if k == 0 then 0 else i + 1, j + 1;
      if k == 0 {
        FirstPiece(s, j);
      } else {
        PieceBehind(s, i, j);
      }
    }
  }

  lemma {:induction false} PieceIs(s: string, i: nat, j: nat) returns (k: nat)
    requires PieceAt(s, i, j)
    ensures k < |Split(s)| && s[i..j] == Split(s)[k] && (k == 0 <==> i == 0)
  {
    if s == "" || (s[0] == SECTION && i == 0) {
      k := 0;
    } else if s[0] == SECTION {
      PieceBehind(s, i, j);
      k := PieceIs(s[1..], i - 1, j - 1);
      k := k + 1;
    } else if i == 0 {
      FirstPiece(s, j);
      k := PieceIs(s[1..], 0, j - 1);
    } else {
      PieceBehind(s, i, j);
      k := PieceIs(s[1..], i - 1, j - 1);
    }
  }

  lemma KeptIsCore(piece: string, e: string)
    ensures Kept(piece) == [e] <==> Text.CoreOf(piece, e)
  {
    var before, after := Text.TrimIsCore(piece);
    if before: string, after: string :| e != "" && Text.Trimmed(e) && Text.Blank(before) && Text.Blank(after) &&
                                        piece == before + e + after
    {
      Text.TrimOf(before, e, after);
    }
  }

  lemma {:induction false} TrimAllMembers(pieces: seq<string>, e: string)
    ensures e in TrimAll(pieces) <==> exists k :: 0 <= k < |pieces| && Kept(pieces[k]) == [e]
  {
    if pieces != [] {
      TrimAllMembers(pieces[1..], e);
      assert Kept(pieces[0]) == [e] <==> e in Kept(pieces[0]);
      if k :| 0 <= k < |pieces| && Kept(pieces[k]) == [e] {
        if k > 0 {
          assert pieces[1..][k - 1] == pieces[k];
        }
      }
      if k :| 0 <= k < |pieces[1..]| && Kept(pieces[1..][k]) == [e] {
        assert pieces[k + 1] == pieces[1..][k];
      }
    }
  }

  ghost predicate EntryAt(text: string, e: string, i: nat, j: nat) {
    PieceAt(text, i, j) && Text.CoreOf(text[i..j], e)
  }

  /** The entries of a text are what its pieces hold between their margins, wherever that is something. */
  lemma EntriesAreThePieces(text: string, e: string)
    ensures e in ParseEntries(text) <==> exists i: nat, j: nat :: EntryAt(text, e, i, j)
  {
    TrimAllMembers(Split(text), e);
    if k :| 0 <= k < |Split(text)| && Kept(Split(text)[k]) == [e] {
      var i, j := PieceFrom(text, k);
      KeptIsCore(text[i..j], e);
      assert EntryAt(text, e, i, j);
    }
    if i: nat, j: nat :| EntryAt(text, e, i, j) {
      var k := PieceIs(text, i, j);
      KeptIsCore(text[i..j], e);
    }
  }

  /** Entries are printed in order with a section sign on a line of its own between them. */
  lemma {:induction false} PrintedBetweenSigns(xs: seq<string>, ys: seq<string>)
    ensures RenderEntries([]) == "" && forall e :: RenderEntries([e]) == e
    ensures xs != [] && ys != [] ==>
              RenderEntries(xs + ys) == RenderEntries(xs) + ['\n', '\U{00A7}', '\n'] + RenderEntries(ys)
  {
    if xs != [] && ys != [] {
      assert (xs + ys)[1..] == xs[1..] + ys;
      if |xs| > 1 {
        PrintedBetweenSigns(xs[1..], ys);
      }
    }
  }
}
