/**
 * `isUtf8(buffer)` of common-tools.js: a byte-at-a-time recogniser with a
 * counter of continuation bytes still owed and an all-ASCII flag, plus a
 * shortcut for the byte-order mark `EF BB BF`.
 *
 * The lead-byte classes follow the 1-to-6-byte scheme of section 2 of
 * RFC 2279, except that 0xFE and 0xFF also open a 5-byte sequence; 0xC0 and
 * 0xC1 are accepted, and neither overlong forms nor surrogates are refused.
 */
module Utf8 {

  type Byte = bv8

  /** `(chr & 0xc0) === 0x80`: a `10xxxxxx` byte. */
  predicate IsContinuation(b: Byte) {
    b & 0xC0 == 0x80
  }

  /**
   * The length of the sequence a byte opens, as the branches of the
   * recogniser decide it: 1 for ASCII, 0 for a byte that cannot open one.
   */
  function LeadLength(b: Byte): (n: nat)
    ensures n <= 6
  {
    if b < 0x80 then 1
    else if 0xFC <= b <= 0xFD then 6
    else if b >= 0xF8 then 5
    else if b >= 0xF0 then 4
    else if b >= 0xE0 then 3
    else if b >= 0xC0 then 2
    else 0
  }

  /** ASCII bytes stand alone, exactly the `10xxxxxx` bytes open nothing, everything else opens two or more. */
  lemma LeadLengthClasses(b: Byte)
    ensures LeadLength(b) == 1 <==> b & 0x80 == 0
    ensures LeadLength(b) == 0 <==> IsContinuation(b)
    ensures LeadLength(b) >= 2 <==> b >= 0xC0
  {
  }

  /** The lead-byte table of section 2 of RFC 2279, read off the high bits. */
  function Rfc2279Length(b: Byte): nat {
    if b & 0x80 == 0x00 then 1
    else if b & 0xE0 == 0xC0 then 2
    else if b & 0xF0 == 0xE0 then 3
    else if b & 0xF8 == 0xF0 then 4
    else if b & 0xFC == 0xF8 then 5
    else if b & 0xFE == 0xFC then 6
    else 0
  }

  /** The recogniser's classes are RFC 2279's, except that 0xFE and 0xFF open 5-byte sequences. */
  lemma LeadLengthIsRfc2279(b: Byte)
    ensures b != 0xFE && b != 0xFF ==> LeadLength(b) == Rfc2279Length(b)
    ensures b == 0xFE || b == 0xFF ==> LeadLength(b) == 5 && Rfc2279Length(b) == 0
  {
  }

  /**
   * A well-formed byte string in the recogniser's sense: a succession of
   * sequences, each a lead byte followed by as many continuation bytes as
   * its class demands.
   */
  function WellFormed(s: seq<Byte>): bool
    decreases |s|
  {
    if s == [] then true
    else
      var n := LeadLength(s[0]);
      && 1 <= n <= |s|
      && (forall k :: 1 <= k < n ==> IsContinuation(s[k]))
      && WellFormed(s[n..])
  }

  predicate AllAscii(s: seq<Byte>) {
    forall k :: 0 <= k < |s| ==> s[k] & 0x80 == 0
  }

  predicate HasBom(s: seq<Byte>) {
    |s| >= 3 && s[0] == 0xEF && s[1] == 0xBB && s[2] == 0xBF
  }

  /** The recogniser's state read as a demand: `c` continuation bytes, then a well-formed rest. */
  function Pending(c: nat, t: seq<Byte>): bool
    decreases c
  {
    if c == 0 then WellFormed(t)
    else t != [] && IsContinuation(t[0]) && Pending(c - 1, t[1..])
  }

  /** `c` continuation bytes at the front of `t`. */
  predicate ContinuationRun(t: seq<Byte>, c: nat) {
    c <= |t| && forall k :: 0 <= k < c ==> IsContinuation(t[k])
  }

  lemma RunUnfold(t: seq<Byte>, c: nat)
    requires t != [] && c > 0
    ensures ContinuationRun(t, c) == (IsContinuation(t[0]) && ContinuationRun(t[1..], c - 1))
  {
    if IsContinuation(t[0]) && ContinuationRun(t[1..], c - 1) {
      forall k | 0 <= k < c
        ensures IsContinuation(t[k])
      {
        if k > 0 {
          assert t[k] == t[1..][k - 1];
        }
      }
    }
    if ContinuationRun(t, c) {
      forall k | 0 <= k < c - 1
        ensures IsContinuation(t[1..][k])
      {
        assert t[1..][k] == t[k + 1];
      }
    }
  }

  lemma {:induction false} PendingIsRun(c: nat, t: seq<Byte>)
    ensures Pending(c, t) == (ContinuationRun(t, c) && WellFormed(t[c..]))
  {
    if c > 0 && t != [] {
      PendingIsRun(c - 1, t[1..]);
      RunUnfold(t, c);
      if c <= |t| {
        assert t[1..][c - 1..] == t[c..];
      }
    }
  }

  /** A lead byte opening an `n`-byte sequence leaves `n - 1` continuation bytes owed. */
  lemma LeadStep(t: seq<Byte>)
    requires t != [] && LeadLength(t[0]) >= 1
    ensures WellFormed(t) == Pending(LeadLength(t[0]) - 1, t[1..])
  {
    var n := LeadLength(t[0]);
    PendingIsRun(n - 1, t[1..]);
    if n <= |t| {
      assert t[1..][n - 1..] == t[n..];
      if WellFormed(t) {
        forall k | 0 <= k < n - 1
          ensures IsContinuation(t[1..][k])
        {
          assert t[1..][k] == t[k + 1];
        }
      } else if ContinuationRun(t[1..], n - 1) {
        forall k | 1 <= k < n
          ensures IsContinuation(t[k])
        {
          assert t[1..][k - 1] == t[k];
        }
      }
    }
  }

  /**
   * `isUtf8(buffer)`: true on a byte-order mark; otherwise true exactly when
   * the bytes are well-formed and not all ASCII (so false on an empty buffer,
   * on a stray continuation byte where a lead byte belongs, on a
   * non-continuation byte inside a sequence, and on a sequence cut off at the
   * end).
   */
  method IsUtf8(buffer: seq<Byte>) returns (ok: bool)
    ensures ok == (HasBom(buffer) || (WellFormed(buffer) && !AllAscii(buffer)))
  {
    var checkSub: nat := 0;
    var allAscii := true;
    if |buffer| >= 3 && buffer[0] == 0xEF && buffer[1] == 0xBB && buffer[2] == 0xBF {
      return true;
    }
    var i := 0;
    assert buffer[0..] == buffer;
    while i < |buffer|
      invariant 0 <= i <= |buffer|
      invariant allAscii == AllAscii(buffer[..i])
      invariant WellFormed(buffer) == Pending(checkSub, buffer[i..])
    {
      var chr := buffer[i];
      ScanStep(buffer, i, checkSub);
      if chr & 0x80 != 0 {
        allAscii := false;
      }
      if checkSub == 0 {
        if chr >= 0x80 {
          if 0xFC <= chr <= 0xFD {
            checkSub := 6;
          } else if chr >= 0xF8 {
            checkSub := 5;
          } else if chr >= 0xF0 {
            checkSub := 4;
          } else if chr >= 0xE0 {
            checkSub := 3;
          } else if chr >= 0xC0 {
            checkSub := 2;
          } else {
            return false;
          }
          checkSub := checkSub - 1;
        }
      } else {
        if chr & 0xC0 != 0x80 {
          return false;
        }
        checkSub := checkSub - 1;
      }
      i := i + 1;
    }
    assert buffer[..i] == buffer;
    if checkSub > 0 {
      return false;
    }
    if allAscii {
      return false;
    }
    return true;
  }

  /** What reading byte `i` does to the two facts the recogniser tracks. */
  lemma ScanStep(buffer: seq<Byte>, i: nat, c: nat)
    requires i < |buffer|
    ensures AllAscii(buffer[..i + 1]) == (AllAscii(buffer[..i]) && buffer[i] & 0x80 == 0)
    ensures c == 0 ==> Pending(c, buffer[i..]) == (LeadLength(buffer[i]) >= 1 && Pending(LeadLength(buffer[i]) - 1, buffer[i + 1..]))
    ensures c > 0 ==> Pending(c, buffer[i..]) == (IsContinuation(buffer[i]) && Pending(c - 1, buffer[i + 1..]))
  {
    assert buffer[..i + 1] == buffer[..i] + [buffer[i]];
    assert buffer[i..][1..] == buffer[i + 1..];
    if c == 0 && LeadLength(buffer[i]) >= 1 {
      LeadStep(buffer[i..]);
    }
  }

  /** Well-formed byte strings stay well-formed when concatenated. */
  lemma {:induction false} WellFormedConcat(a: seq<Byte>, b: seq<Byte>)
    requires WellFormed(a) && WellFormed(b)
    ensures WellFormed(a + b)
  {
    if a == [] {
      assert a + b == b;
    } else {
      var n := LeadLength(a[0]);
      WellFormedConcat(a[n..], b);
      ConcatFront(a, b, n);
    }
  }

  lemma ConcatFront(a: seq<Byte>, b: seq<Byte>, n: nat)
    requires 1 <= n <= |a|
    ensures (a + b)[0] == a[0]
    ensures (a + b)[n..] == a[n..] + b
    ensures forall k :: 1 <= k < n ==> (a + b)[k] == a[k]
  {
  }

  /** A byte string that stops inside a sequence is rejected. */
  lemma TruncatedRejected(s: seq<Byte>, lead: Byte)
    requires WellFormed(s) && LeadLength(lead) >= 2
    ensures !WellFormed(s + [lead])
  {
    if WellFormed(s + [lead]) {
      WellFormedSplit(s, [lead]);
    }
  }

  /** Cutting a well-formed prefix off a well-formed string leaves a well-formed rest. */
  lemma {:induction false} WellFormedSplit(a: seq<Byte>, b: seq<Byte>)
    requires WellFormed(a) && WellFormed(a + b)
    ensures WellFormed(b)
  {
    if a == [] {
      assert a + b == b;
    } else {
      var n := LeadLength(a[0]);
      assert (a + b)[0] == a[0];
      assert (a + b)[n..] == a[n..] + b;
      WellFormedSplit(a[n..], b);
    }
  }

  /** The UTF-8 encoding of a code point (section 3 of RFC 3629). */
  function Encode(cp: nat): (bytes: seq<Byte>)
    requires cp < 0x110000
    ensures 1 <= |bytes| <= 4
  {
    if cp < 0x80 then [cp as Byte]
    else if cp < 0x800 then [(0xC0 + cp / 64) as Byte, (0x80 + cp % 64) as Byte]
    else if cp < 0x10000 then
      [(0xE0 + cp / 4096) as Byte, (0x80 + cp / 64 % 64) as Byte, (0x80 + cp % 64) as Byte]
    else
      [(0xF0 + cp / 262144) as Byte, (0x80 + cp / 4096 % 64) as Byte,
       (0x80 + cp / 64 % 64) as Byte, (0x80 + cp % 64) as Byte]
  }

  lemma ContinuationByte(r: nat)
    requires r < 64
    ensures IsContinuation((0x80 + r) as Byte)
  {
  }

  lemma LeadByte(base: nat, q: nat, n: nat)
    requires (base, n) in {(0xC0, 2), (0xE0, 3), (0xF0, 4)}
    requires q < if n == 2 then 32 else if n == 3 then 16 else 8
    ensures LeadLength((base + q) as Byte) == n
    ensures ((base + q) as Byte) & 0x80 != 0
  {
  }

  /** A lead byte opening `|e|` bytes, then continuation bytes: one well-formed sequence. */
  lemma OneSequence(e: seq<Byte>)
    requires e != [] && LeadLength(e[0]) == |e|
    requires forall k :: 1 <= k < |e| ==> IsContinuation(e[k])
    ensures WellFormed(e)
  {
    assert e[|e|..] == [];
  }

  /** Every RFC 3629 encoding is one well-formed sequence; beyond ASCII it is not all ASCII. */
  lemma EncodeWellFormed(cp: nat)
    requires cp < 0x110000
    ensures WellFormed(Encode(cp))
    ensures cp >= 0x80 ==> !AllAscii(Encode(cp))
  {
    if cp < 0x80 {
      OneSequence(Encode(cp));
    } else if cp < 0x800 {
      EncodeTwo(cp);
    } else if cp < 0x10000 {
      EncodeThree(cp);
    } else {
      EncodeFour(cp);
    }
  }

  lemma EncodeTwo(cp: nat)
    requires 0x80 <= cp < 0x800
    ensures WellFormed(Encode(cp)) && Encode(cp)[0] & 0x80 != 0
  {
    var e := [(0xC0 + cp / 64) as Byte, (0x80 + cp % 64) as Byte];
    assert Encode(cp) == e;
    LeadByte(0xC0, cp / 64, 2);
    ContinuationByte(cp % 64);
    OneSequence(e);
  }

  lemma EncodeThree(cp: nat)
    requires 0x800 <= cp < 0x10000
    ensures WellFormed(Encode(cp)) && Encode(cp)[0] & 0x80 != 0
  {
    var e := [(0xE0 + cp / 4096) as Byte, (0x80 + cp / 64 % 64) as Byte, (0x80 + cp % 64) as Byte];
    assert Encode(cp) == e;
    LeadByte(0xE0, cp / 4096, 3);
    ContinuationByte(cp / 64 % 64);
    ContinuationByte(cp % 64);
    OneSequence(e);
  }

  lemma EncodeFour(cp: nat)
    requires 0x10000 <= cp < 0x110000
    ensures WellFormed(Encode(cp)) && Encode(cp)[0] & 0x80 != 0
  {
    var e := [(0xF0 + cp / 262144) as Byte, (0x80 + cp / 4096 % 64) as Byte,
              (0x80 + cp / 64 % 64) as Byte, (0x80 + cp % 64) as Byte];
    assert Encode(cp) == e;
    LeadByte(0xF0, cp / 262144, 4);
    ContinuationByte(cp / 4096 % 64);
    ContinuationByte(cp / 64 % 64);
    ContinuationByte(cp % 64);
    OneSequence(e);
  }

  // ---------------------------------------------------------------------
  // 0xFE and 0xFF taken as lead bytes
  // ---------------------------------------------------------------------

  /** A 0xFE byte followed by four continuation bytes. */
  const FeSequence: seq<Byte> := [0xFE, 0x80, 0x80, 0x80, 0x80]

  /**
   * As written, the 5-byte branch `chr >= 0xf8` also catches 0xFE and 0xFF:
   * `FeSequence` is well-formed in the recogniser's sense and not ASCII, so
   * `IsUtf8` accepts it, although no RFC 2279 sequence starts with 0xFE.
   */
  lemma FeLeadAccepted()
    ensures !HasBom(FeSequence) && !AllAscii(FeSequence)
    ensures WellFormed(FeSequence)
    ensures Rfc2279Length(FeSequence[0]) == 0
  {
    assert FeSequence[5..] == [];
  }

  /** The lead classes with 0xFE and 0xFF refused, as the bounded 6-byte branch intends. */
  function BoundedLeadLength(b: Byte): (n: nat)
    ensures n <= 6
  {
    if b < 0x80 then 1
    else if b >= 0xFE then 0
    else if b >= 0xFC then 6
    else if b >= 0xF8 then 5
    else if b >= 0xF0 then 4
    else if b >= 0xE0 then 3
    else if b >= 0xC0 then 2
    else 0
  }

  /** The bounded classes are exactly RFC 2279's, and differ from the written ones only on 0xFE and 0xFF. */
  lemma BoundedLeadLengthIsRfc2279(b: Byte)
    ensures BoundedLeadLength(b) == Rfc2279Length(b)
    ensures BoundedLeadLength(b) != LeadLength(b) <==> b == 0xFE || b == 0xFF
  {
  }

  /** Well-formedness over the bounded lead classes. */
  function StrictWellFormed(s: seq<Byte>): bool
    decreases |s|
  {
    if s == [] then true
    else
      var n := BoundedLeadLength(s[0]);
      && 1 <= n <= |s|
      && (forall k :: 1 <= k < n ==> IsContinuation(s[k]))
      && StrictWellFormed(s[n..])
  }

  predicate NoFeFf(s: seq<Byte>) {
    forall k :: 0 <= k < |s| ==> s[k] != 0xFE && s[k] != 0xFF
  }

  /** With the bounded classes the recogniser rejects exactly the buffers holding a 0xFE or 0xFF byte besides. */
  lemma {:induction false} StrictWellFormedRefusesFeFf(s: seq<Byte>)
    ensures StrictWellFormed(s) <==> WellFormed(s) && NoFeFf(s)
    decreases |s|
  {
    if s != [] {
      var n := BoundedLeadLength(s[0]);
      if 1 <= n <= |s| {
        assert n == LeadLength(s[0]);
        StrictWellFormedRefusesFeFf(s[n..]);
        NoFeFfSplit(s, n);
      } else if s[0] != 0xFE && s[0] != 0xFF {
        assert LeadLength(s[0]) == n;
      } else {
        assert !NoFeFf(s);
      }
    }
  }

  /** A buffer is free of 0xFE and 0xFF when a lead, its continuation bytes and the rest are. */
  lemma NoFeFfSplit(s: seq<Byte>, n: nat)
    requires 1 <= n <= |s| && s[0] != 0xFE && s[0] != 0xFF
    ensures NoFeFf(s) <==> (forall k :: 1 <= k < n ==> s[k] != 0xFE && s[k] != 0xFF) && NoFeFf(s[n..])
  {
    if NoFeFf(s) {
      forall k | 0 <= k < |s[n..]|
        ensures s[n..][k] != 0xFE && s[n..][k] != 0xFF
      {
        assert s[n..][k] == s[n + k];
      }
    }
    if (forall k :: 1 <= k < n ==> s[k] != 0xFE && s[k] != 0xFF) && NoFeFf(s[n..]) {
      forall k | 0 <= k < |s|
        ensures s[k] != 0xFE && s[k] != 0xFF
      {
        if k >= n {
          assert s[k] == s[n..][k - n];
        }
      }
    }
  }
}
