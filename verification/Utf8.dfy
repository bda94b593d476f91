/** The check that a path is UTF-8, against the encoding of section 3 of RFC 3629. */
module Utf8 {
  import opened Powers
  import opened Bits

  type Byte = b: nat | b < 256
  type CodePoint = c: nat | c <= 0x10FFFF

  // ---- the encoding ----

  function Lead(prefix: nat, bits: nat): Byte
    requires prefix + bits < 256
  {
    prefix + bits
  }

  function Trail(bits: nat): (b: Byte) {
    0x80 + bits % 64
  }

  /** The shortest form of a code point, surrogates included. */
  function Encode(c: CodePoint): (s: seq<Byte>)
    ensures 1 <= |s| <= 4
  {
    if c < 0x80 then [c]
    else if c < 0x800 then [Lead(0xC0, c / 64), Trail(c)]
    else if c < 0x1_0000 then [Lead(0xE0, c / 64 / 64), Trail(c / 64), Trail(c)]
    else [Lead(0xF0, c / 64 / 64 / 64), Trail(c / 64 / 64), Trail(c / 64), Trail(c)]
  }

  function EncodeAll(cs: seq<CodePoint>): seq<Byte> {
    if cs == [] then [] else Encode(cs[0]) + EncodeAll(cs[1..])
  }

  ghost predicate IsEncoded(s: seq<Byte>) {
    exists cs: seq<CodePoint> :: EncodeAll(cs) == s
  }

  // ---- well-formed sequences, byte by byte ----

  predicate IsTrail(b: Byte) {
    0x80 <= b < 0xC0
  }

  predicate Two(b: Byte, c: Byte) {
    0xC2 <= b < 0xE0 && IsTrail(c)
  }

  predicate Three(b: Byte, c: Byte, d: Byte) {
    0xE0 <= b < 0xF0 && IsTrail(c) && IsTrail(d) && (b == 0xE0 ==> c >= 0xA0)
  }

  predicate Four(b: Byte, c: Byte, d: Byte, e: Byte) {
    0xF0 <= b <= 0xF4 && IsTrail(c) && IsTrail(d) && IsTrail(e)
    && (b == 0xF0 ==> c >= 0x90) && (b == 0xF4 ==> c < 0x90)
  }

  /** The length of the well-formed sequence that s starts with, or 0. */
  function HeadLength(s: seq<Byte>): (n: nat)
    ensures n <= |s| && n <= 4
  {
    if s == [] then 0
    else if s[0] < 0x80 then 1
    else if |s| >= 2 && Two(s[0], s[1]) then 2
    else if |s| >= 3 && Three(s[0], s[1], s[2]) then 3
    else if |s| >= 4 && Four(s[0], s[1], s[2], s[3]) then 4
    else 0
  }

  /** q followed by the six bits of a trailing byte. */
  function Append(q: nat, b: Byte): nat
    requires b >= 0x80
  {
    q * 64 + (b - 0x80)
  }

  function HeadValue(s: seq<Byte>): (c: CodePoint)
    requires HeadLength(s) > 0
  {
    var n := HeadLength(s);
    if n == 1 then s[0]
    else if n == 2 then Append(s[0] - 0xC0, s[1])
    else if n == 3 then Append(Append(s[0] - 0xE0, s[1]), s[2])
    else Append(Append(Append(s[0] - 0xF0, s[1]), s[2]), s[3])
  }

  lemma AppendDivides(q: nat, b: Byte)
    requires IsTrail(b)
    ensures Append(q, b) / 64 == q && Trail(Append(q, b)) == b
  {
  }

  lemma TwoAreEncoded(b: Byte, c: Byte)
    requires Two(b, c)
    ensures var v := Append(b - 0xC0, c); 0x80 <= v < 0x800 && Encode(v) == [b, c]
  {
    hide Trail;
    AppendDivides(b - 0xC0, c);
  }

  lemma ThreeAreEncoded(b: Byte, c: Byte, d: Byte)
    requires Three(b, c, d)
    ensures var v := Append(Append(b - 0xE0, c), d); 0x800 <= v < 0x1_0000 && Encode(v) == [b, c, d]
  {
    hide Trail;
    var q := Append(b - 0xE0, c);
    AppendDivides(b - 0xE0, c);
    AppendDivides(q, d);
  }

  lemma FourAreEncoded(b: Byte, c: Byte, d: Byte, e: Byte)
    requires Four(b, c, d, e)
    ensures var v := Append(Append(Append(b - 0xF0, c), d), e); 0x1_0000 <= v <= 0x10FFFF && Encode(v) == [b, c, d, e]
  {
    hide Trail;
    var q := Append(b - 0xF0, c);
    var r := Append(q, d);
    AppendDivides(b - 0xF0, c);
    AppendDivides(q, d);
    AppendDivides(r, e);
  }

  /** A well-formed head is the encoding of its value. */
  lemma HeadIsEncoded(s: seq<Byte>)
    requires HeadLength(s) > 0
    ensures Encode(HeadValue(s)) == s[..HeadLength(s)]
  {
    hide Encode, Append;
    var n := HeadLength(s);
    if n == 1 {
      AsciiIsEncoded(s[0]);
      assert s[..1] == [s[0]];
    } else if n == 2 {
      TwoAreEncoded(s[0], s[1]);
      assert s[..2] == [s[0], s[1]];
    } else if n == 3 {
      ThreeAreEncoded(s[0], s[1], s[2]);
      assert s[..3] == [s[0], s[1], s[2]];
    } else {
      FourAreEncoded(s[0], s[1], s[2], s[3]);
      assert s[..4] == [s[0], s[1], s[2], s[3]];
    }
  }

  lemma AsciiIsEncoded(b: Byte)
    requires b < 0x80
    ensures Encode(b) == [b]
  {
  }

  /** An encoding is well-formed whatever follows it, and its value is the code point. */
  lemma EncodedIsHead(c: CodePoint, t: seq<Byte>)
    ensures HeadLength(Encode(c) + t) == |Encode(c)|
    ensures HeadValue(Encode(c) + t) == c
  {
    var s := Encode(c) + t;
    assert forall i | 0 <= i < |Encode(c)| :: s[i] == Encode(c)[i];
    var d := c / 64;
    var e := d / 64;
    assert c == d * 64 + c % 64 && d == e * 64 + d % 64 && e == e / 64 * 64 + e % 64;
  }

  /** No encoding starts another one, so the first code point is determined. */
  lemma HeadIsUnique(a: CodePoint, t: seq<Byte>, b: CodePoint, u: seq<Byte>)
    requires Encode(a) + t == Encode(b) + u
    ensures a == b && t == u
  {
    EncodedIsHead(a, t);
    EncodedIsHead(b, u);
    assert t == (Encode(a) + t)[|Encode(a)|..];
    assert u == (Encode(b) + u)[|Encode(b)|..];
  }

  /** The decoding of a string is unique. */
  lemma {:induction false} DecodingIsUnique(a: seq<CodePoint>, b: seq<CodePoint>)
    requires EncodeAll(a) == EncodeAll(b)
    ensures a == b
  {
    if a != [] && b != [] {
      HeadIsUnique(a[0], EncodeAll(a[1..]), b[0], EncodeAll(b[1..]));
      DecodingIsUnique(a[1..], b[1..]);
      assert a == [a[0]] + a[1..] && b == [b[0]] + b[1..];
    }
  }

  /** After a well-formed head, only the rest matters; without one, nothing helps. */
  lemma HeadDecides(s: seq<Byte>)
    requires s != []
    ensures var n := HeadLength(s);
            IsEncoded(s) <==> n > 0 && IsEncoded(s[n..])
  {
    var n := HeadLength(s);
    if IsEncoded(s) {
      var cs: seq<CodePoint> :| EncodeAll(cs) == s;
      EncodedIsHead(cs[0], EncodeAll(cs[1..]));
      assert s[n..] == EncodeAll(cs[1..]);
    }
    if n > 0 && IsEncoded(s[n..]) {
      var cs: seq<CodePoint> :| EncodeAll(cs) == s[n..];
      HeadIsEncoded(s);
      var all := [HeadValue(s)] + cs;
      assert all[1..] == cs;
      assert EncodeAll(all) == s[..n] + s[n..] == s;
    }
  }

  lemma EmptyIsEncoded()
    ensures IsEncoded([])
  {
    assert EncodeAll([]) == [];
  }

  // ---- the check ----

  lemma AndEvenMask(x: nat, q: nat)
    ensures And(x, 2 * q) == 2 * And(x / 2, q)
  {
    assert 2 * q / 2 == q;
  }

  /** A mask of all n bits but the k low ones takes those off. */
  lemma {:induction false} HighMask(x: nat, n: nat, k: nat, mask: nat)
    requires k <= n && x < Pow2(n) && mask + Pow2(k) == Pow2(n)
    ensures And(x, mask) == x - x % Pow2(k)
    decreases k
  {
    if k == 0 {
      MaskIsRemainder(x, n);
      WholeRemainder(x, Pow2(n));
    } else {
      var h, p, q := x / 2, Pow2(k - 1), mask / 2;
      HighMask(h, n - 1, k - 1, q);
      AndEvenMask(x, q);
      RemainderOfDouble(x, p);
    }
  }

  lemma WholeRemainder(x: nat, m: nat)
    requires x < m
    ensures x % m == x && x % 1 == 0
  {
  }

  lemma ByteMasks(b: Byte)
    ensures And(b, 0xC0) == b - b % 64
    ensures And(b, 0xE0) == b - b % 32
    ensures And(b, 0xF0) == b - b % 16
    ensures And(b, 0xF8) == b - b % 8
  {
    assert Pow2(3) == 8 && Pow2(4) == 16 && Pow2(5) == 32 && Pow2(6) == 64 && Pow2(8) == 256;
    HighMask(b, 8, 6, 0xC0);
    HighMask(b, 8, 5, 0xE0);
    HighMask(b, 8, 4, 0xF0);
    HighMask(b, 8, 3, 0xF8);
  }

  lemma Blocks(b: Byte)
    ensures b - b % 64 == 0x80 <==> 0x80 <= b < 0xC0
    ensures b - b % 32 == 0xC0 <==> 0xC0 <= b < 0xE0
    ensures b - b % 16 == 0xE0 <==> 0xE0 <= b < 0xF0
    ensures b - b % 8 == 0xF0 <==> 0xF0 <= b < 0xF8
  {
  }

  /** What the masked comparisons of the check say about a byte. */
  lemma Masks(b: Byte)
    ensures And(b, 0xC0) == 0x80 <==> IsTrail(b)
    ensures And(b, 0xE0) == 0xC0 <==> 0xC0 <= b < 0xE0
    ensures And(b, 0xF0) == 0xE0 <==> 0xE0 <= b < 0xF0
    ensures And(b, 0xF8) == 0xF0 <==> 0xF0 <= b < 0xF8
  {
    ByteMasks(b);
    Blocks(b);
  }

  method IsValidUtf8(s: seq<Byte>) returns (ok: bool)
    ensures ok <==> IsEncoded(s)
  {
    hide And, IsEncoded;
    var i := 0;
    while i < |s|
      invariant 0 <= i <= |s|
      invariant IsEncoded(s) <==> IsEncoded(s[i..])
    {
      HeadDecides(s[i..]);
      var c := s[i];
      ghost var at := i;
      Masks(c);
      if c <= 0x7F {
        i := i + 1;
      } else if And(c, 0xE0) == 0xC0 {
        if i + 1 >= |s| { return false; }
        Masks(s[i + 1]);
        if And(s[i + 1], 0xC0) != 0x80 { return false; }
        if c < 0xC2 { return false; }
        i := i + 2;
      } else if And(c, 0xF0) == 0xE0 {
        if i + 2 >= |s| { return false; }
        Masks(s[i + 1]);
        Masks(s[i + 2]);
        if And(s[i + 1], 0xC0) != 0x80 { return false; }
        if And(s[i + 2], 0xC0) != 0x80 { return false; }
        if c == 0xE0 && s[i + 1] < 0xA0 { return false; }
        i := i + 3;
      } else if And(c, 0xF8) == 0xF0 {
        if i + 3 >= |s| { return false; }
        Masks(s[i + 1]);
        Masks(s[i + 2]);
        Masks(s[i + 3]);
        if And(s[i + 1], 0xC0) != 0x80 { return false; }
        if And(s[i + 2], 0xC0) != 0x80 { return false; }
        if And(s[i + 3], 0xC0) != 0x80 { return false; }
        if c == 0xF0 && s[i + 1] < 0x90 { return false; }
        if c > 0xF4 { return false; }
        if c == 0xF4 && s[i + 1] > 0x8F { return false; }
        i := i + 4;
      } else {
        return false;
      }
      assert s[at..][i - at..] == s[i..];
    }
    EmptyIsEncoded();
    assert s[i..] == [];
    ok := true;
  }

  // ---- surrogates ----

  predicate IsSurrogate(c: CodePoint) {
    0xD800 <= c < 0xE000
  }

  /** UTF-8 as RFC 3629 defines it. */
  ghost predicate IsRfcUtf8(s: seq<Byte>) {
    exists cs: seq<CodePoint> :: EncodeAll(cs) == s && forall i | 0 <= i < |cs| :: !IsSurrogate(cs[i])
  }

  predicate SurrogateAt(s: seq<Byte>, i: nat) {
    i + 1 < |s| && s[i] == 0xED && s[i + 1] >= 0xA0
  }

  predicate HasSurrogateBytes(s: seq<Byte>) {
    exists i: nat | i < |s| :: SurrogateAt(s, i)
  }

  lemma SurrogateOnlyAtHead(c: CodePoint, t: seq<Byte>)
    ensures var s := Encode(c) + t;
            HasSurrogateBytes(s) <==> IsSurrogate(c) || HasSurrogateBytes(t)
  {
    var e := Encode(c);
    var s := e + t;
    assert SurrogateAt(s, 0) <==> IsSurrogate(c) by {
      SurrogateLead(c, t);
    }
    forall i: nat | 0 < i < |e| ensures !SurrogateAt(s, i) {
      assert s[i] == e[i] && IsTrail(e[i]);
    }
    forall i: nat | i < |t| ensures SurrogateAt(t, i) <==> SurrogateAt(s, |e| + i) {
      assert s[|e| + i] == t[i] && (i + 1 < |t| ==> s[|e| + i + 1] == t[i + 1]);
    }
    if HasSurrogateBytes(s) {
      var i: nat :| i < |s| && SurrogateAt(s, i);
      if i >= |e| {
        assert SurrogateAt(t, i - |e|);
      }
    }
  }

  lemma SurrogateLead(c: CodePoint, t: seq<Byte>)
    ensures SurrogateAt(Encode(c) + t, 0) <==> IsSurrogate(c)
  {
    var s := Encode(c) + t;
    assert s[0] == Encode(c)[0];
    if 0x800 <= c < 0x1_0000 {
      assert s[1] == Trail(c / 64);
    }
  }

  lemma {:induction false} SurrogatesShow(cs: seq<CodePoint>)
    ensures HasSurrogateBytes(EncodeAll(cs)) <==> exists i :: 0 <= i < |cs| && IsSurrogate(cs[i])
  {
    if cs != [] {
      var tail := cs[1..];
      SurrogateOnlyAtHead(cs[0], EncodeAll(tail));
      SurrogatesShow(tail);
      if i :| 0 <= i < |tail| && IsSurrogate(tail[i]) {
        assert cs[i + 1] == tail[i];
      }
      if i :| 0 < i < |cs| && IsSurrogate(cs[i]) {
        assert tail[i - 1] == cs[i];
      }
    }
  }

  /** The check departs from the RFC exactly on the strings it accepts that hold a surrogate's bytes. */
  lemma RfcExactly(s: seq<Byte>)
    ensures IsRfcUtf8(s) <==> IsEncoded(s) && !HasSurrogateBytes(s)
  {
    if IsRfcUtf8(s) {
      var cs: seq<CodePoint> :| EncodeAll(cs) == s && forall i | 0 <= i < |cs| :: !IsSurrogate(cs[i]);
      SurrogatesShow(cs);
    } else if IsEncoded(s) {
      var cs: seq<CodePoint> :| EncodeAll(cs) == s;
      SurrogatesShow(cs);
    }
  }

  lemma SurrogateIsAccepted()
    ensures IsEncoded([0xED, 0xA0, 0x80]) && !IsRfcUtf8([0xED, 0xA0, 0x80])
  {
    var s: seq<Byte> := [0xED, 0xA0, 0x80];
    assert SurrogateAt(s, 0);
    RfcExactly(s);
    assert HeadLength(s) == 3 && s[3..] == [];
    EmptyIsEncoded();
    HeadDecides(s);
  }
}
