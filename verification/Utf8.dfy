/** UTF-8 as section 3 of RFC 3629 defines it, and cutting an encoded string at a byte offset. */
module Utf8 {
  import opened Claims

  type Byte = x: int | 0 <= x < 256

  function EncodeChar(c: char): (bytes: seq<Byte>)
    ensures 1 <= |bytes| <= 4
  {
    var x := c as int;
    if x < 0x80 then [x]
    else if x < 0x800 then [0xC0 + x / 64, 0x80 + x % 64]
    else if x < 0x1_0000 then [0xE0 + x / 4096, 0x80 + x / 64 % 64, 0x80 + x % 64]
    else [0xF0 + x / 262144, 0x80 + x / 4096 % 64, 0x80 + x / 64 % 64, 0x80 + x % 64]
  }

  function Encode(s: string): seq<Byte> {
    if s == "" then [] else EncodeChar(s[0]) + Encode(s[1..])
  }

  predicate IsContinuation(b: Byte) {
    0x80 <= b < 0xC0
  }

  /** The number of bytes an encoded character takes can be told from its first. */
  function Width(lead: Byte): nat {
    if lead < 0x80 then 1 else if lead < 0xE0 then 2 else if lead < 0xF0 then 3 else 4
  }

  lemma LeadTellsWidth(c: char)
    ensures !IsContinuation(EncodeChar(c)[0]) && |EncodeChar(c)| == Width(EncodeChar(c)[0])
    ensures forall k :: 1 <= k < |EncodeChar(c)| ==> IsContinuation(EncodeChar(c)[k])
  {
  }

  /** The number an encoding stands for. */
  function ScalarOf(bytes: seq<Byte>): int {
    if |bytes| == 1 then bytes[0]
    else if |bytes| == 2 then (bytes[0] as int - 0xC0) * 64 + (bytes[1] as int - 0x80)
    else if |bytes| == 3 then (bytes[0] as int - 0xE0) * 4096 + (bytes[1] as int - 0x80) * 64 + (bytes[2] as int - 0x80)
    else if |bytes| == 4 then
      (bytes[0] as int - 0xF0) * 262144 + (bytes[1] as int - 0x80) * 4096 + (bytes[2] as int - 0x80) * 64 +
      (bytes[3] as int - 0x80)
    else -1
  }

  lemma SixBitGroups(x: nat)
    ensures x == x / 64 * 64 + x % 64
    ensures x == x / 4096 * 4096 + x / 64 % 64 * 64 + x % 64
    ensures x == x / 262144 * 262144 + x / 4096 % 64 * 4096 + x / 64 % 64 * 64 + x % 64
  {
    assert x / 4096 == x / 64 / 64;
    assert x / 262144 == x / 4096 / 64;
  }

  lemma EncodeCharRoundTrip(c: char)
    ensures ScalarOf(EncodeChar(c)) == c as int
  {
    SixBitGroups(c as int);
  }

  lemma {:induction false} EncodeSplit(a: string, b: string)
    ensures Encode(a + b) == Encode(a) + Encode(b)
  {
    if a == "" {
      assert a + b == b;
    } else {
      assert (a + b)[1..] == a[1..] + b;
      EncodeSplit(a[1..], b);
    }
  }

  lemma EncodeCons(s: string)
    requires s != ""
    ensures Encode(s) == EncodeChar(s[0]) + Encode(s[1..])
    ensures Encode(s) != [] && Encode(s)[0] == EncodeChar(s[0])[0]
    ensures |Encode(s)| == |EncodeChar(s[0])| + |Encode(s[1..])|
  {
  }

  /** The same lead means the same width, and the same bytes the same character. */
  lemma SameFirst(a: string, b: string, tail: seq<Byte>)
    requires a != "" && b != "" && Encode(b) == Encode(a) + tail
    ensures a[0] == b[0] && Encode(b[1..]) == Encode(a[1..]) + tail
  {
    EncodeCons(a);
    EncodeCons(b);
    LeadTellsWidth(a[0]);
    LeadTellsWidth(b[0]);
    SameFirstPart(EncodeChar(a[0]), Encode(a[1..]), EncodeChar(b[0]), Encode(b[1..]), tail);
    EncodeCharRoundTrip(a[0]);
    EncodeCharRoundTrip(b[0]);
  }

  lemma SameFirstPart(p: seq<Byte>, q: seq<Byte>, r: seq<Byte>, s: seq<Byte>, tail: seq<Byte>)
    requires |p| == |r| && r + s == p + q + tail
    ensures p == r && s == q + tail
  {
    assert (r + s)[..|r|] == r && (p + q + tail)[..|p|] == p;
    assert (r + s)[|r|..] == s && (p + q + tail)[|p|..] == q + tail;
  }

  /** One string begins another exactly when its bytes begin the other's. */
  lemma {:induction false} PrefixInBytes(a: string, b: string)
    ensures Encode(a) <= Encode(b) <==> a <= b
    decreases a
  {
    if a <= b {
      EncodeSplit(a, b[|a|..]);
      assert b == a + b[|a|..];
    }
    if Encode(a) <= Encode(b) && a != "" {
      EncodeCons(a);
      assert b != "";
      var tail := Encode(b)[|Encode(a)|..];
      SameFirst(a, b, tail);
      PrefixInBytes(a[1..], b[1..]);
      assert a == [a[0]] + a[1..] && b == [b[0]] + b[1..];
    }
  }

  lemma EncodeTellsApart(a: string, b: string)
    requires Encode(a) == Encode(b)
    ensures a == b
  {
    PrefixInBytes(a, b);
    PrefixInBytes(b, a);
  }

  // ---- Cutting at a byte offset ----

  /** What follows the first n bytes; nothing when the cut would fall inside a character or past the end. */
  function DropBytes(s: string, n: nat): Option<string>
    decreases s
  {
    if n == 0 then Some(s)
    else if s == "" || n < |EncodeChar(s[0])| then None
    else DropBytes(s[1..], n - |EncodeChar(s[0])|)
  }

  /** A cut is possible exactly at the end or before a byte that is no continuation. */
  lemma {:induction false} CutIsPossible(s: string, n: nat)
    ensures DropBytes(s, n).Some? <==>
            n <= |Encode(s)| && (n < |Encode(s)| ==> !IsContinuation(Encode(s)[n]))
    decreases s
  {
    if s != "" {
      EncodeCons(s);
      LeadTellsWidth(s[0]);
      var w := |EncodeChar(s[0])|;
      if w <= n {
        CutIsPossible(s[1..], n - w);
      }
    }
  }

  /** A cut divides the characters, and its offset is the length of those before it. */
  lemma {:induction false} CutDivides(s: string, n: nat) returns (k: nat)
    requires DropBytes(s, n).Some?
    ensures k <= |s| && DropBytes(s, n).value == s[k..] && |Encode(s[..k])| == n
    decreases s
  {
    if n == 0 {
      k := 0;
    } else {
      k := CutDivides(s[1..], n - |EncodeChar(s[0])|);
      k := k + 1;
      assert s[..k][1..] == s[1..][..k - 1];
    }
  }

  lemma {:induction false} CutAfter(a: string, b: string)
    ensures DropBytes(a + b, |Encode(a)|) == Some(b)
    decreases a
  {
    if a == "" {
      assert a + b == b;
    } else {
      assert (a + b)[1..] == a[1..] + b;
      CutAfter(a[1..], b);
    }
  }

  predicate EndsWithBytes(s: string, tail: string) {
    |Encode(tail)| <= |Encode(s)| && Encode(s)[|Encode(s)| - |Encode(tail)|..] == Encode(tail)
  }

  predicate EndsWith(s: string, tail: string) {
    |tail| <= |s| && s[|s| - |tail|..] == tail
  }

  /** One string ends another exactly when its bytes end the other's: a character never ends inside another. */
  lemma SuffixInBytes(s: string, tail: string)
    ensures EndsWithBytes(s, tail) <==> EndsWith(s, tail)
  {
    if EndsWith(s, tail) {
      EncodeSplit(s[..|s| - |tail|], tail);
      assert s == s[..|s| - |tail|] + tail;
    }
    if EndsWithBytes(s, tail) && tail != "" {
      var n := |Encode(s)| - |Encode(tail)|;
      EncodeCons(tail);
      LeadTellsWidth(tail[0]);
      assert Encode(s)[n] == Encode(s)[n..][0];
      CutIsPossible(s, n);
      var k := CutDivides(s, n);
      EncodeSplit(s[..k], s[k..]);
      assert s == s[..k] + s[k..];
      assert Encode(s[k..]) == Encode(s)[n..];
      EncodeTellsApart(s[k..], tail);
    }
  }
}
