/**
 Joining the pieces of a reply that a model continued after being cut off. A continuation may repeat the end
 of what came before; the repeated part is dropped.
 */
module Continuation {
  import opened Claims
  import opened Utf8

  // ---- The join ----

  /** The last k characters of the text are the first k of the chunk. */
  predicate Overlaps(text: string, chunk: string, k: nat) {
    k <= |text| && k <= |chunk| && text[|text| - k..] == chunk[..k]
  }

  function LongestOverlap(text: string, chunk: string, bound: nat): (k: nat)
    requires bound <= |text| && bound <= |chunk|
    ensures k <= bound && Overlaps(text, chunk, k)
    ensures forall j :: k < j <= bound ==> !Overlaps(text, chunk, j)
  {
    if bound == 0 || Overlaps(text, chunk, bound) then bound else LongestOverlap(text, chunk, bound - 1)
  }

  function Overlap(text: string, chunk: string): nat {
    LongestOverlap(text, chunk, if |text| <= |chunk| then |text| else |chunk|)
  }

  function Join(text: string, chunk: string): string {
    text + chunk[Overlap(text, chunk)..]
  }

  lemma OverlapIs(text: string, chunk: string, k: nat)
    requires Overlaps(text, chunk, k) && forall j :: k < j <= |text| && j <= |chunk| ==> !Overlaps(text, chunk, j)
    ensures Overlap(text, chunk) == k
  {
  }

  // ---- What it promises ----

  ghost predicate Continues(whole: string, text: string, chunk: string) {
    text <= whole && EndsWith(whole, chunk)
  }

  lemma JoinContinues(text: string, chunk: string)
    ensures Continues(Join(text, chunk), text, chunk)
  {
  }

  /** Of all strings that begin with the text and end with the chunk, the join is the one shortest. */
  lemma JoinIsShortest(text: string, chunk: string, whole: string)
    requires Continues(whole, text, chunk)
    ensures |Join(text, chunk)| <= |whole|
    ensures |whole| == |Join(text, chunk)| ==> whole == Join(text, chunk)
  {
    if |whole| <= |text| + |chunk| {
      var k := |text| + |chunk| - |whole|;
      OverlapWithin(text, chunk, whole);
      assert whole == text + whole[|text|..];
      assert whole[|text|..] == whole[|whole| - |chunk|..][k..];
    }
  }

  lemma OverlapWithin(text: string, chunk: string, whole: string)
    requires Continues(whole, text, chunk) && |whole| <= |text| + |chunk|
    ensures Overlaps(text, chunk, |text| + |chunk| - |whole|)
  {
  }

  /** It is also the shortest in bytes. */
  lemma JoinIsShortestInBytes(text: string, chunk: string, whole: string)
    requires Continues(whole, text, chunk)
    ensures |Encode(Join(text, chunk))| <= |Encode(whole)|
  {
    JoinIsShortest(text, chunk, whole);
    var k := Overlap(text, chunk);
    var tail, rest := whole[|text|..], chunk[k..];
    var more := tail[..|tail| - |rest|];
    assert tail == more + rest by {
      TailsAgree(whole, text, chunk, k);
    }
    assert whole == text + tail;
    LongerInBytes(text, more, rest);
  }

  lemma LongerInBytes(text: string, more: string, rest: string)
    ensures |Encode(text + rest)| <= |Encode(text + (more + rest))|
  {
    EncodeSplit(more, rest);
    EncodeSplit(text, more + rest);
    EncodeSplit(text, rest);
  }

  lemma TailsAgree(whole: string, text: string, chunk: string, k: nat)
    requires Continues(whole, text, chunk) && k <= |chunk| && |text| + |chunk| - k <= |whole|
    ensures whole[|text|..][|whole| - |text| - (|chunk| - k)..] == chunk[k..]
  {
    assert whole[|whole| - |chunk|..][k..] == chunk[k..];
  }

  /** Joining the same chunk again changes nothing. */
  lemma JoinTwice(text: string, chunk: string)
    ensures Join(Join(text, chunk), chunk) == Join(text, chunk)
  {
    JoinContinues(text, chunk);
    JoinWhenThere(Join(text, chunk), chunk);
  }

  lemma JoinWhenThere(text: string, chunk: string)
    requires EndsWith(text, chunk)
    ensures Join(text, chunk) == text
  {
    assert chunk[..|chunk|] == chunk;
    OverlapIs(text, chunk, |chunk|);
    assert text + chunk[|chunk|..] == text;
  }

  /**
   A reply cut at i and continued from j comes back whole exactly when the repeated part is the longest
   overlap; otherwise the join is too short.
   */
  lemma JoinRestores(whole: string, i: nat, j: nat)
    requires j <= i <= |whole|
    ensures Join(whole[..i], whole[j..]) == whole <==>
            forall k :: i - j < k <= i && k <= |whole| - j ==> !Overlaps(whole[..i], whole[j..], k)
    ensures |Join(whole[..i], whole[j..])| <= |whole|
  {
    var text, chunk := whole[..i], whole[j..];
    assert text[j..] == chunk[..i - j];
    assert whole == text + chunk[i - j..];
    assert EndsWith(whole, chunk);
    JoinIsShortest(text, chunk, whole);
    if forall k :: i - j < k <= i && k <= |whole| - j ==> !Overlaps(text, chunk, k) {
      OverlapIs(text, chunk, i - j);
    } else {
      assert Overlap(text, chunk) > i - j;
    }
  }

  /** A continuation that happens to repeat the text is taken for a repetition. */
  lemma RepeatedTextIsLost()
    ensures Join("aa", "aa") == "aa" && "aa" + "aa" == "aaaa"
  {
    JoinWhenThere("aa", "aa");
  }

  // ---- Over the encoded text ----

  /** The bytes from character i on are no more than the chunk's, and begin them. */
  predicate TailBegins(text: string, chunk: string, i: nat)
    requires i <= |text|
  {
    |Encode(text)| - |Encode(text[..i])| <= |Encode(chunk)| && Encode(text[i..]) <= Encode(chunk)
  }

  lemma TailLength(text: string, i: nat)
    requires i <= |text|
    ensures |Encode(text)| - |Encode(text[..i])| == |Encode(text[i..])|
  {
    EncodeSplit(text[..i], text[i..]);
    assert text == text[..i] + text[i..];
  }

  /** Comparing bytes from the start of a character finds the overlaps and nothing else. */
  lemma TailInBytes(text: string, chunk: string, i: nat)
    requires i <= |text|
    ensures TailBegins(text, chunk, i) <==> Overlaps(text, chunk, |text| - i)
  {
    TailLength(text, i);
    PrefixInBytes(text[i..], chunk);
  }

  /** The cut made in the chunk falls between characters. */
  lemma CutIsBetweenCharacters(text: string, chunk: string, k: nat)
    requires Overlaps(text, chunk, k)
    ensures DropBytes(chunk, |Encode(text[|text| - k..])|) == Some(chunk[k..])
  {
    CutAfter(chunk[..k], chunk[k..]);
    assert chunk == chunk[..k] + chunk[k..];
  }

  /** The byte offset at which the longest overlap begins; the end of the text when there is none. */
  method FindOverlap(text: string, chunk: string) returns (start: nat)
    ensures start <= |Encode(text)|
    ensures |Encode(text)| - start == |Encode(text[|text| - Overlap(text, chunk)..])|
  {
    var i := 0;
    while i < |text| && !TailBegins(text, chunk, i)
      invariant i <= |text|
      invariant forall k :: |text| - i < k <= |text| ==> !Overlaps(text, chunk, k)
    {
      TailInBytes(text, chunk, i);
      i := i + 1;
    }
    TailInBytes(text, chunk, i);
    assert i == |text| ==> Overlaps(text, chunk, 0);
    OverlapIs(text, chunk, |text| - i);
    TailLength(text, i);
    start := |Encode(text[..i])|;
  }

  lemma CutJoins(text: string, chunk: string)
    ensures var rest := DropBytes(chunk, |Encode(text[|text| - Overlap(text, chunk)..])|);
            rest.Some? && text + rest.value == Join(text, chunk)
  {
    CutIsBetweenCharacters(text, chunk, Overlap(text, chunk));
  }

  lemma JoinToNothing(chunk: string)
    ensures Join("", chunk) == chunk
  {
  }

  class Reply {
    var text: string

    method AppendWithOverlapDedupe(chunk: string)
      modifies this
      ensures text == Join(old(text), chunk)
    {
      if chunk == "" {
        JoinWhenThere(text, chunk);
        return;
      }
      if text == "" {
        JoinToNothing(chunk);
        text := chunk;
        return;
      }
      SuffixInBytes(text, chunk);
      if EndsWithBytes(text, chunk) {
        JoinWhenThere(text, chunk);
        return;
      }
      var start := FindOverlap(text, chunk);
      CutJoins(text, chunk);
      text := text + DropBytes(chunk, |Encode(text)| - start).value;
    }
  }
}
