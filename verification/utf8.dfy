/**
 * The UTF-8 decoder of text.c (`GetNextCodepoint`) and the encoding of
 * RFC 3629, section 3, that it inverts.
 *
 * A C string is a `seq<byte>` read through `At`, which yields 0 past the
 * end: the sequence holds the bytes before the terminating NUL, and the
 * NUL itself is the first byte past its end.
 */
module Utf8 {
  import opened Types

  /** The byte at position `i` of a NUL-terminated string. */
  function At(s: seq<byte>, i: nat): byte {
    if i < |s| then s[i] else 0
  }

  /** The codepoint returned for every malformed sequence: `'?'`. */
  const Replacement := 0x3F

  /** Largest Unicode codepoint. */
  const MaxCodepoint := 0x10FFFF

  /** Result of one decoding step: the codepoint and `*bytesProcessed`. */
  datatype Decoded = Decoded(code: int, bytesProcessed: int)

  /** `(b >> 6) == 2`: `b` is a continuation byte `10xxxxxx`. */
  predicate IsTail(b: byte) {
    b / 64 == 2
  }

  /** The test `(octet1 == '\0') || ((octet1 >> 6) != 2)` that ends a sequence early. */
  predicate BadTail(b: byte) {
    b == 0 || !IsTail(b)
  }

  /**
   * `GetNextCodepoint`. The masks of the C lead-byte tests become quotients
   * (`(o & 0xe0) == 0xc0` is `o / 32 == 6`, `(o & 0xf0) == 0xe0` is
   * `o / 16 == 14`, `(o & 0xf8) == 0xf0` is `o / 8 == 30`); each branch is
   * one of the functions below, and the final test replaces a code above
   * U+10FFFF by `'?'`, keeping the byte count.
   */
  function GetNextCodepoint(s: seq<byte>): (r: Decoded)
    ensures 1 <= r.bytesProcessed <= 4
    ensures 0 <= r.code <= MaxCodepoint
    ensures r.code != Replacement ==>
      forall k :: 1 <= k < r.bytesProcessed ==> At(s, k) != 0 && IsTail(At(s, k))
  {
    var octet := At(s, 0);
    var d :=
      if octet <= 0x7F then Decoded(octet, 1)
      else if octet / 32 == 6 then TwoOctets(octet, At(s, 1))
      else if octet / 16 == 14 then ThreeOctets(octet, At(s, 1), At(s, 2))
      else if octet / 8 == 30 then FourOctets(octet, At(s, 1), At(s, 2), At(s, 3))
      else Decoded(Replacement, 1);
    if d.code > MaxCodepoint then Decoded(Replacement, d.bytesProcessed) else d
  }

  /**
   * Lead byte 110xxxxx. The shift-or assembly of the C code becomes a sum of
   * multiples, the bit fields being disjoint. A lead C0 or C1 before a good
   * tail leaves the default `'?'` with the initial count of 1.
   */
  function TwoOctets(octet: byte, octet1: byte): (r: Decoded)
    ensures 1 <= r.bytesProcessed <= 2
    ensures r.code == Replacement || (0x80 <= r.code <= 0x7FF && r.bytesProcessed == 2)
  {
    if BadTail(octet1) then Decoded(Replacement, 2)
    else if 0xC2 <= octet <= 0xDF then Decoded((octet % 32) * 64 + octet1 % 64, 2)
    else Decoded(Replacement, 1)
  }

  /**
   * Lead byte 1110xxxx. `octet2` is only looked at once `octet1` is a good
   * tail. The guard `(octet >= 0xe0) && (0 <= 0xef)` always holds here; it
   * is kept as written.
   */
  function ThreeOctets(octet: byte, octet1: byte, octet2: byte): (r: Decoded)
    requires octet / 16 == 14
    ensures 1 <= r.bytesProcessed <= 3
    ensures r.code == Replacement || (0x800 <= r.code <= 0xFFFF && !(0xD800 <= r.code <= 0xDFFF) && r.bytesProcessed == 3)
  {
    if BadTail(octet1) then Decoded(Replacement, 2)
    else if BadTail(octet2) then Decoded(Replacement, 3)
    else if (octet == 0xE0 && !(0xA0 <= octet1 <= 0xBF))
         || (octet == 0xED && !(0x80 <= octet1 <= 0x9F)) then Decoded(Replacement, 2)
    else if octet >= 0xE0 && 0 <= 0xEF then
      Decoded((octet % 16) * 4096 + (octet1 % 64) * 64 + octet2 % 64, 3)
    else Decoded(Replacement, 1)
  }

  /**
   * Lead byte 11110xxx. Leads above F4 are refused before any tail is read;
   * each tail is only looked at once the previous one is good.
   */
  function FourOctets(octet: byte, octet1: byte, octet2: byte, octet3: byte): (r: Decoded)
    requires octet / 8 == 30
    ensures 1 <= r.bytesProcessed <= 4
    ensures r.code == Replacement || (0x10000 <= r.code <= MaxCodepoint && r.bytesProcessed == 4)
  {
    if octet > 0xF4 then Decoded(Replacement, 1)
    else if BadTail(octet1) then Decoded(Replacement, 2)
    else if BadTail(octet2) then Decoded(Replacement, 3)
    else if BadTail(octet3) then Decoded(Replacement, 4)
    else if (octet == 0xF0 && !(0x90 <= octet1 <= 0xBF))
         || (octet == 0xF4 && !(0x80 <= octet1 <= 0x8F)) then Decoded(Replacement, 2)
    else if octet >= 0xF0 then
      Decoded((octet % 8) * 262144 + (octet1 % 64) * 4096 + (octet2 % 64) * 64 + octet3 % 64, 4)
    else Decoded(Replacement, 1)
  }

  /** A Unicode scalar value: a codepoint that is not a surrogate. */
  predicate IsScalar(c: int) {
    0 <= c <= MaxCodepoint && !(0xD800 <= c <= 0xDFFF)
  }

  /** The UTF-8 encoding of a scalar value, as tabled in RFC 3629, section 3. */
  function Encode(c: int): (e: seq<byte>)
    requires IsScalar(c)
    ensures 1 <= |e| <= 4
    ensures |e| == (if c <= 0x7F then 1 else if c <= 0x7FF then 2 else if c <= 0xFFFF then 3 else 4)
  {
    if c <= 0x7F then [c]
    else if c <= 0x7FF then [0xC0 + c / 64, 0x80 + c % 64]
    else if c <= 0xFFFF then [0xE0 + c / 4096, 0x80 + (c / 64) % 64, 0x80 + c % 64]
    else [0xF0 + c / 262144, 0x80 + (c / 4096) % 64, 0x80 + (c / 64) % 64, 0x80 + c % 64]
  }

  /** The UTF-8 encoding of a sequence of scalar values: their encodings one after another. */
  function EncodeAll(cs: seq<int>): (e: seq<byte>)
    requires forall i :: 0 <= i < |cs| ==> IsScalar(cs[i])
    ensures |e| >= |cs|
    decreases |cs|
  {
    if cs == [] then [] else Encode(cs[0]) + EncodeAll(cs[1..])
  }

  /** Encoding one more value in front puts its encoding in front. */
  lemma EncodeAllCons(c: int, cs: seq<int>)
    requires IsScalar(c) && forall i :: 0 <= i < |cs| ==> IsScalar(cs[i])
    ensures forall i :: 0 <= i < |[c] + cs| ==> IsScalar(([c] + cs)[i])
    ensures EncodeAll([c] + cs) == Encode(c) + EncodeAll(cs)
  {
    assert ([c] + cs)[1..] == cs;
  }

  /** Two strings without a NUL make one without a NUL. */
  lemma NoNulConcat(a: seq<byte>, b: seq<byte>)
    requires NoNul(a) && NoNul(b)
    ensures NoNul(a + b)
  {
    forall k | 0 <= k < |a + b| ensures (a + b)[k] != 0 {
      if k >= |a| { assert (a + b)[k] == b[k - |a|]; }
    }
  }

  /** The encoding of a non-zero scalar value holds no NUL byte. */
  lemma EncodeNoNul(c: int)
    requires IsScalar(c) && c != 0
    ensures forall k :: 0 <= k < |Encode(c)| ==> Encode(c)[k] != 0
  {
  }

  /**
   * Round trip: decoding the encoding of any scalar value, whatever follows
   * it, yields that value and consumes exactly the encoding.
   */
  lemma {:induction false} DecodeEncode(c: int, rest: seq<byte>)
    requires IsScalar(c)
    ensures GetNextCodepoint(Encode(c) + rest) == Decoded(c, |Encode(c)|)
  {
    var s := Encode(c) + rest;
    if c <= 0x7F {
      assert At(s, 0) == c;
    } else if c <= 0x7FF {
      DecodeTwo(c, s);
    } else if c <= 0xFFFF {
      DecodeThree(c, s);
    } else {
      DecodeFour(c, s);
    }
  }

  lemma DecodeTwo(c: int, s: seq<byte>)
    requires 0x80 <= c <= 0x7FF && |s| >= 2 && s[..2] == Encode(c)
    ensures GetNextCodepoint(s) == Decoded(c, 2)
  {
    assert At(s, 0) == s[..2][0] && At(s, 1) == s[..2][1];
  }

  lemma DecodeThree(c: int, s: seq<byte>)
    requires 0x800 <= c <= 0xFFFF && IsScalar(c) && |s| >= 3 && s[..3] == Encode(c)
    ensures GetNextCodepoint(s) == Decoded(c, 3)
  {
    var o0, o1, o2 := At(s, 0), At(s, 1), At(s, 2);
    assert o0 == s[..3][0] && o1 == s[..3][1] && o2 == s[..3][2];
    assert o0 == 0xE0 + c / 4096 && o1 == 0x80 + (c / 64) % 64 && o2 == 0x80 + c % 64;
    assert c / 64 == (c / 4096) * 64 + (c / 64) % 64;
    assert o0 % 16 == c / 4096 && o1 % 64 == (c / 64) % 64 && o2 % 64 == c % 64;
  }

  lemma DecodeFour(c: int, s: seq<byte>)
    requires 0x10000 <= c <= MaxCodepoint && |s| >= 4 && s[..4] == Encode(c)
    ensures GetNextCodepoint(s) == Decoded(c, 4)
  {
    var a, b, e, f := c / 262144, (c / 4096) % 64, (c / 64) % 64, c % 64;
    FourFields(c);
    assert At(s, 0) == s[..4][0] == 0xF0 + a && At(s, 1) == s[..4][1] == 0x80 + b;
    assert At(s, 2) == s[..4][2] == 0x80 + e && At(s, 3) == s[..4][3] == 0x80 + f;
    FourOctetsOfFields(a, b, e, f);
  }

  /** The four bytes built from well-formed bit fields decode back to those fields. */
  lemma FourOctetsOfFields(a: int, b: int, e: int, f: int)
    requires 0 <= a <= 4 && 0 <= b < 64 && 0 <= e < 64 && 0 <= f < 64
    requires (a == 0 ==> b >= 16) && (a == 4 ==> b <= 15)
    ensures var o0 := 0xF0 + a;
      o0 > 0x7F && o0 / 32 != 6 && o0 / 16 != 14 && o0 / 8 == 30
      && FourOctets(o0, 0x80 + b, 0x80 + e, 0x80 + f) == Decoded(a * 262144 + b * 4096 + e * 64 + f, 4)
  {
    assert (0x80 + b) % 64 == b && (0x80 + e) % 64 == e && (0x80 + f) % 64 == f && (0xF0 + a) % 8 == a;
  }

  /** The four bit fields of a supplementary-plane codepoint. */
  lemma FourFields(c: int)
    requires 0x10000 <= c <= MaxCodepoint
    ensures var a, b, e, f := c / 262144, (c / 4096) % 64, (c / 64) % 64, c % 64;
      c == a * 262144 + b * 4096 + e * 64 + f
      && 0 <= a <= 4 && (a == 0 ==> b >= 16) && (a == 4 ==> b <= 15)
  {
    var q1 := c / 64;
    var q2 := q1 / 64;
    assert c == q1 * 64 + c % 64;
    assert q1 == q2 * 64 + q1 % 64;
    assert c / 4096 == q2;
    assert q2 == (q2 / 64) * 64 + q2 % 64;
    assert c / 262144 == q2 / 64;
  }

  /**
   * The converse of the round trip: whenever the decoder returns anything
   * but the replacement, the result is a scalar value (never a surrogate)
   * and the consumed bytes are exactly its shortest encoding (never an
   * overlong form).
   */
  lemma DecodedIsCanonical(s: seq<byte>)
    ensures var r := GetNextCodepoint(s);
      r.code != Replacement ==>
        IsScalar(r.code) && |Encode(r.code)| == r.bytesProcessed
        && forall k :: 0 <= k < r.bytesProcessed ==> At(s, k) == Encode(r.code)[k]
  {
    var r := GetNextCodepoint(s);
    var o0, o1, o2, o3 := At(s, 0), At(s, 1), At(s, 2), At(s, 3);
    if r.code != Replacement {
      if o0 <= 0x7F {
        assert Encode(r.code) == [o0];
      } else if o0 / 32 == 6 {
        TwoCanonical(o0, o1);
      } else if o0 / 16 == 14 {
        ThreeCanonical(o0, o1, o2);
      } else {
        FourCanonical(o0, o1, o2, o3);
      }
    }
  }

  lemma TwoCanonical(o0: byte, o1: byte)
    requires o0 / 32 == 6 && TwoOctets(o0, o1).code != Replacement
    ensures var c := TwoOctets(o0, o1).code; IsScalar(c) && Encode(c) == [o0, o1]
  {
    var c: int := (o0 % 32) * 64 + o1 % 64;
    assert c / 64 == o0 % 32 && c % 64 == o1 % 64;
  }

  lemma ThreeCanonical(o0: byte, o1: byte, o2: byte)
    requires o0 / 16 == 14 && ThreeOctets(o0, o1, o2).code != Replacement
    ensures var c := ThreeOctets(o0, o1, o2).code; IsScalar(c) && Encode(c) == [o0, o1, o2]
  {
    var c: int := (o0 % 16) * 4096 + (o1 % 64) * 64 + o2 % 64;
    assert c / 64 == (o0 % 16) * 64 + o1 % 64;
    assert c / 4096 == o0 % 16 && (c / 64) % 64 == o1 % 64 && c % 64 == o2 % 64;
  }

  lemma FourCanonical(o0: byte, o1: byte, o2: byte, o3: byte)
    requires o0 / 8 == 30 && FourOctets(o0, o1, o2, o3).code != Replacement
    ensures var c := FourOctets(o0, o1, o2, o3).code; IsScalar(c) && Encode(c) == [o0, o1, o2, o3]
  {
    assert 0xF0 <= o0 <= 0xF4 && IsTail(o1) && IsTail(o2) && IsTail(o3);
    var a, b, e, f := o0 - 0xF0, o1 - 0x80, o2 - 0x80, o3 - 0x80;
    assert o0 % 8 == a && o1 % 64 == b && o2 % 64 == e && o3 % 64 == f;
    var c: int := a * 262144 + b * 4096 + e * 64 + f;
    assert FourOctets(o0, o1, o2, o3).code == c;
    assert 0x10000 <= c <= MaxCodepoint;
    FieldsOfFour(a, b, e, f);
  }

  /** Splitting `a*2^18 + b*2^12 + e*2^6 + f` by division recovers each field. */
  lemma FieldsOfFour(a: int, b: int, e: int, f: int)
    requires 0 <= a && 0 <= b < 64 && 0 <= e < 64 && 0 <= f < 64
    ensures var c := a * 262144 + b * 4096 + e * 64 + f;
      c / 262144 == a && (c / 4096) % 64 == b && (c / 64) % 64 == e && c % 64 == f
  {
    var c := a * 262144 + b * 4096 + e * 64 + f;
    assert c / 64 == a * 4096 + b * 64 + e;
    assert c / 4096 == a * 64 + b;
  }

  /**
   * A bad k-th continuation byte (NUL or not `10xxxxxx`, the earlier ones
   * being good tails) gives the replacement and a step of k + 1 bytes.
   */
  lemma BadContinuation(s: seq<byte>, k: nat)
    requires 1 <= k <= 3
    requires var o := At(s, 0);
      (k == 1 && 0xC0 <= o <= 0xDF) || (k <= 2 && 0xE0 <= o <= 0xEF) || (0xF0 <= o <= 0xF4)
    requires forall j :: 1 <= j < k ==> !BadTail(At(s, j))
    requires BadTail(At(s, k))
    ensures GetNextCodepoint(s) == Decoded(Replacement, k + 1)
  {
  }

  /**
   * The lead-byte exclusions of RFC 3629, section 4: an out-of-range second
   * byte after E0, ED, F0 or F4 gives the replacement with a step of 2; the
   * leads F5 to F7, and C0 or C1 before a good tail, give a step of 1.
   */
  lemma LeadByteExclusions(s: seq<byte>)
    ensures var o0, o1, o2, o3 := At(s, 0), At(s, 1), At(s, 2), At(s, 3);
      var tails := !BadTail(o1) && !BadTail(o2);
      (o0 == 0xE0 && tails && !(0xA0 <= o1 <= 0xBF) ==> GetNextCodepoint(s) == Decoded(Replacement, 2))
      && (o0 == 0xED && tails && !(0x80 <= o1 <= 0x9F) ==> GetNextCodepoint(s) == Decoded(Replacement, 2))
      && (o0 == 0xF0 && tails && !BadTail(o3) && !(0x90 <= o1 <= 0xBF) ==> GetNextCodepoint(s) == Decoded(Replacement, 2))
      && (o0 == 0xF4 && tails && !BadTail(o3) && !(0x80 <= o1 <= 0x8F) ==> GetNextCodepoint(s) == Decoded(Replacement, 2))
      && (0xF5 <= o0 <= 0xF7 ==> GetNextCodepoint(s) == Decoded(Replacement, 1))
      && ((o0 == 0xC0 || o0 == 0xC1) && !BadTail(o1) ==> GetNextCodepoint(s) == Decoded(Replacement, 1))
  {
  }

  /** A lead byte that starts no sequence (a stray tail, or F8 to FF) is one `'?'`. */
  lemma StrayLeadByte(s: seq<byte>)
    requires 0x80 <= At(s, 0) <= 0xBF || At(s, 0) >= 0xF8
    ensures GetNextCodepoint(s) == Decoded(Replacement, 1)
  {
  }

  /** The decoder reads nothing after the terminating NUL. */
  lemma {:induction false} StopsAtTerminator(s: seq<byte>, j: nat)
    requires j < |s| && s[j] == 0
    ensures GetNextCodepoint(s) == GetNextCodepoint(s[..j])
  {
    var t := s[..j];
    assert forall i :: 0 <= i <= j ==> At(s, i) == At(t, i);
    if j >= 4 {
      assert forall i :: 0 <= i < 4 ==> At(s, i) == At(t, i);
    }
  }

  /** A string with no NUL byte: the content of a C string, as `strlen` sees it. */
  predicate NoNul(s: seq<byte>) {
    forall i :: 0 <= i < |s| ==> s[i] != 0
  }

  /**
   * The step the text walkers (MeasureTextEx, DrawTextEx) take: one byte on
   * a `'?'`, the decoder's count otherwise.
   */
  function Step(s: seq<byte>): nat {
    var r := GetNextCodepoint(s);
    if r.code == Replacement then 1 else r.bytesProcessed
  }

  /** The walkers' step never moves past the terminating NUL. */
  lemma StepWithinString(s: seq<byte>)
    requires |s| > 0 && NoNul(s)
    ensures 1 <= Step(s) <= |s|
  {
    assert At(s, |s|) == 0;
  }
}
