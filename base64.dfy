/** Base64 as used for the handshake's accept key (section 4 of RFC 4648):
    every three octets become four symbols of a 64-character alphabet, and a
    final group of one or two octets is zero-filled, cut to two or three
    symbols and padded with `=` to four. */
module Base64 {
  import opened Common

  /** The encoder's symbol table in index order, written as the source
      writes it: upper case, lower case, then digits and `+/`. */
  const Alphabet: string :=
    "ABCDEFGHIJKLMNOPQRSTUVWXYZ" + "abcdefghijklmnopqrstuvwxyz" + "0123456789+/"

  const Pad: Char8 := '='

  /** Table 1 of RFC 4648 written out by ranges. */
  function Symbol(d: nat): (c: Char8)
    requires d < 64
  {
    if d < 26 then ('A' as int + d) as char
    else if d < 52 then ('a' as int + (d - 26)) as char
    else if d < 62 then ('0' as int + (d - 52)) as char
    else if d == 62 then '+'
    else '/'
  }

  predicate IsSymbol(c: char) {
    ('A' <= c <= 'Z') || ('a' <= c <= 'z') || ('0' <= c <= '9') || c == '+' || c == '/'
  }

  /** The source's table is RFC 4648's alphabet. */
  lemma AlphabetIsRfcTable()
    ensures |Alphabet| == 64
    ensures forall d :: 0 <= d < 64 ==> Alphabet[d] == Symbol(d)
  {
    var upper, lower, rest := "ABCDEFGHIJKLMNOPQRSTUVWXYZ", "abcdefghijklmnopqrstuvwxyz", "0123456789+/";
    assert Alphabet == upper + lower + rest;
    assert forall d :: 0 <= d < 26 ==> upper[d] as int == 'A' as int + d;
    assert forall d :: 0 <= d < 26 ==> lower[d] as int == 'a' as int + d;
    assert forall d :: 0 <= d < 10 ==> rest[d] as int == '0' as int + d;
    assert rest[10] == '+' && rest[11] == '/';
    forall d | 0 <= d < 64 ensures Alphabet[d] == Symbol(d) {
      if d < 26 { assert Alphabet[d] == upper[d]; }
      else if d < 52 { assert Alphabet[d] == lower[d - 26]; }
      else { assert Alphabet[d] == rest[d - 52]; }
    }
  }

  /** The table entry for a 6-bit value. */
  function TableAt(d: nat): (c: Char8)
    requires d < 64
    ensures c == Symbol(d)
  {
    AlphabetIsRfcTable();
    Alphabet[d]
  }

  lemma SymbolsAreAlphabet(d: nat)
    requires d < 64
    ensures IsSymbol(TableAt(d)) && TableAt(d) != Pad
  {
  }

  /** The four 6-bit groups of three octets, most significant first. */
  function Sextets(b0: Byte, b1: Byte, b2: Byte): (s: seq<Byte>)
    ensures |s| == 4 && forall i :: 0 <= i < 4 ==> s[i] < 64
  {
    var v: bv24 := ((b0 as bv24) << 16) | ((b1 as bv24) << 8) | (b2 as bv24);
    [((v >> 18) & 0x3F) as Byte, ((v >> 12) & 0x3F) as Byte,
     ((v >> 6) & 0x3F) as Byte, (v & 0x3F) as Byte]
  }

  /** The table symbols of the first `k` 6-bit values of `s`. */
  function Symbols(s: seq<Byte>, k: nat): (q: Text)
    requires k <= |s| && forall i :: 0 <= i < |s| ==> s[i] < 64
    ensures |q| == k
  {
    seq(k, i requires 0 <= i < k => TableAt(s[i] as int))
  }

  /** The first `k` symbols for three octets. */
  function Quad(b0: Byte, b1: Byte, b2: Byte, k: nat): (q: Text)
    requires k <= 4
    ensures |q| == k
  {
    Symbols(Sextets(b0, b1, b2), k)
  }

  /** RFC 4648 encoding: full groups first, then the padded final group. */
  function Encode(b: seq<Byte>): (e: Text)
    decreases |b|
  {
    if |b| >= 3 then Quad(b[0], b[1], b[2], 4) + Encode(b[3..])
    else if |b| == 2 then Quad(b[0], b[1], 0, 3) + [Pad]
    else if |b| == 1 then Quad(b[0], 0, 0, 2) + [Pad, Pad]
    else []
  }

  /** Four symbols per started group of three octets. */
  lemma {:induction false} EncodeLength(b: seq<Byte>)
    ensures |Encode(b)| == 4 * ((|b| + 2) / 3)
    decreases |b|
  {
    if |b| >= 3 { EncodeLength(b[3..]); }
  }

  /** The number of `=` the encoding ends with. */
  function PadCount(n: nat): nat {
    (3 - n % 3) % 3
  }

  /** The encoding is alphabet symbols followed by exactly `PadCount` pads. */
  lemma {:induction false} EncodeShape(b: seq<Byte>)
    ensures PadCount(|b|) <= |Encode(b)|
    ensures forall i :: 0 <= i < |Encode(b)| - PadCount(|b|) ==> IsSymbol(Encode(b)[i])
    ensures Encode(b)[|Encode(b)| - PadCount(|b|)..] == Repeat(Pad, PadCount(|b|))
    decreases |b|
  {
    if |b| >= 3 {
      EncodeShape(b[3..]);
      EncodeShapeGroup(b);
    } else if |b| > 0 {
      EncodeShapeFinal(b);
    }
  }

  lemma EncodeShapeFinal(b: seq<Byte>)
    requires 1 <= |b| <= 2
    ensures var e := Encode(b); var p := PadCount(|b|);
      p <= |e| && (forall i :: 0 <= i < |e| - p ==> IsSymbol(e[i])) && e[|e| - p..] == Repeat(Pad, p)
  {
    var e := Encode(b);
    var s := if |b| == 2 then Sextets(b[0], b[1], 0) else Sextets(b[0], 0, 0);
    forall i | 0 <= i < |b| + 1 ensures IsSymbol(e[i]) {
      SymbolsAreAlphabet(s[i] as int);
    }
  }

  lemma EncodeShapeGroup(b: seq<Byte>)
    requires |b| >= 3
    requires var t := Encode(b[3..]); var p := PadCount(|b| - 3);
      p <= |t| && (forall i :: 0 <= i < |t| - p ==> IsSymbol(t[i])) && t[|t| - p..] == Repeat(Pad, p)
    ensures var e := Encode(b); var p := PadCount(|b|);
      p <= |e| && (forall i :: 0 <= i < |e| - p ==> IsSymbol(e[i])) && e[|e| - p..] == Repeat(Pad, p)
  {
    var e, t := Encode(b), Encode(b[3..]);
    EncodeFirstGroup(b);
    PadCountStep(|b| - 3);
    var p := PadCount(|b|);
    assert e[4..] == t;
    assert e[|e| - p..] == t[|t| - p..];
    forall i | 0 <= i < |e| - p ensures IsSymbol(e[i]) {
      if i < 4 {
        FirstGroupSymbol(b, i);
      } else {
        assert e[i] == t[i - 4];
      }
    }
  }

  lemma PadCountStep(n: nat)
    ensures PadCount(n + 3) == PadCount(n)
  {
  }

  lemma FirstGroupSymbol(b: seq<Byte>, i: nat)
    requires |b| >= 3 && i < 4
    ensures IsSymbol(Encode(b)[i])
  {
    EncodeFirstGroup(b);
    var s := Sextets(b[0], b[1], b[2]);
    assert Encode(b)[i] == TableAt(s[i] as int);
    SymbolsAreAlphabet(s[i] as int);
  }

  /** The SHA-1 digest's 20 octets give 28 characters ending in exactly one `=`. */
  lemma DigestEncoding(b: seq<Byte>)
    requires |b| == 20
    ensures |Encode(b)| == 28
    ensures Encode(b)[27] == Pad
    ensures forall i :: 0 <= i < 27 ==> IsSymbol(Encode(b)[i])
    ensures Pad !in Encode(b)[..27]
  {
    EncodeLength(b);
    EncodeShape(b);
    assert PadCount(20) == 1;
    var e := Encode(b);
    assert e[27..] == [Pad];
    forall i | 0 <= i < 27 ensures e[..27][i] != Pad {
      assert IsSymbol(e[i]);
    }
  }

  /** Encoding splits at any boundary between full groups. */
  lemma {:induction false} EncodeAppend(x: seq<Byte>, y: seq<Byte>)
    requires |x| % 3 == 0
    ensures Encode(x + y) == Encode(x) + Encode(y)
    decreases |x|
  {
    if x == [] {
      assert x + y == y;
    } else {
      assert (x + y)[3..] == x[3..] + y;
      assert (x + y)[..3] == x[..3];
      EncodeAppend(x[3..], y);
    }
  }

  /** The symbol value of a character, 0 for anything outside the alphabet. */
  function SymbolValue(c: char): (d: Byte)
    ensures d < 64
  {
    if 'A' <= c <= 'Z' then ByteOfValue(c as int - 'A' as int)
    else if 'a' <= c <= 'z' then ByteOfValue(c as int - 'a' as int + 26)
    else if '0' <= c <= '9' then ByteOfValue(c as int - '0' as int + 52)
    else if c == '+' then 62
    else if c == '/' then 63
    else 0
  }

  lemma SymbolValueOfAlphabet(d: Byte)
    requires d < 64
    ensures SymbolValue(TableAt(d as int)) == d
  {
    ByteInjective(SymbolValue(TableAt(d as int)), d);
  }

  /** Four 6-bit values back to the three octets they carry. */
  function Combine(s0: Byte, s1: Byte, s2: Byte, s3: Byte): (o: seq<Byte>)
    ensures |o| == 3
  {
    var v: bv24 := ((s0 as bv24) << 18) | ((s1 as bv24) << 12) | ((s2 as bv24) << 6) | (s3 as bv24);
    [(v >> 16) as Byte, ((v >> 8) & 0xFF) as Byte, (v & 0xFF) as Byte]
  }

  /** Four symbols back to the octets they carry: three, or fewer when padded. */
  function DecodeQuad(q: Text): (b: seq<Byte>)
    requires |q| == 4
  {
    var octets := Combine(SymbolValue(q[0]), SymbolValue(q[1]), SymbolValue(q[2]), SymbolValue(q[3]));
    if q[2] == Pad then octets[..1] else if q[3] == Pad then octets[..2] else octets
  }

  /** RFC 4648 decoding of a string of whole four-symbol groups. */
  function Decode(s: Text): (b: seq<Byte>)
    requires |s| % 4 == 0
    decreases |s|
  {
    if s == [] then [] else DecodeQuad(s[..4]) + Decode(s[4..])
  }

  lemma SextetsRoundTrip(b0: Byte, b1: Byte, b2: Byte)
    ensures var s := Sextets(b0, b1, b2); Combine(s[0], s[1], s[2], s[3]) == [b0, b1, b2]
    ensures b2 == 0 ==> Sextets(b0, b1, b2)[3] == 0
    ensures b1 == 0 && b2 == 0 ==> Sextets(b0, b1, b2)[2] == 0
  {
  }

  lemma QuadSymbolValues(b0: Byte, b1: Byte, b2: Byte, k: nat)
    requires 2 <= k <= 4
    ensures var q := Quad(b0, b1, b2, k) + Repeat(Pad, 4 - k);
      forall i :: 0 <= i < 4 ==> SymbolValue(q[i]) == (if i < k then Sextets(b0, b1, b2)[i] else 0)
    ensures var q := Quad(b0, b1, b2, k) + Repeat(Pad, 4 - k);
      forall i :: 0 <= i < 4 ==> (q[i] == Pad <==> i >= k)
  {
    var s := Sextets(b0, b1, b2);
    var q := Quad(b0, b1, b2, k) + Repeat(Pad, 4 - k);
    forall i | 0 <= i < k ensures SymbolValue(q[i]) == s[i] && q[i] != Pad {
      assert q[i] == TableAt(s[i] as int);
      SymbolValueOfAlphabet(s[i]);
      SymbolsAreAlphabet(s[i] as int);
    }
  }

  lemma QuadRoundTrip(b0: Byte, b1: Byte, b2: Byte, k: nat)
    requires 2 <= k <= 4
    requires k <= 3 ==> b2 == 0
    requires k == 2 ==> b1 == 0
    ensures DecodeQuad(Quad(b0, b1, b2, k) + Repeat(Pad, 4 - k)) == [b0, b1, b2][..k - 1]
  {
    var s := Sextets(b0, b1, b2);
    var q := Quad(b0, b1, b2, k) + Repeat(Pad, 4 - k);
    QuadSymbolValues(b0, b1, b2, k);
    SextetsRoundTrip(b0, b1, b2);
    assert SymbolValue(q[0]) == s[0] && SymbolValue(q[1]) == s[1];
    assert SymbolValue(q[2]) == s[2] && SymbolValue(q[3]) == s[3];
  }

  lemma EncodeFirstGroup(b: seq<Byte>)
    requires |b| >= 3
    ensures |Encode(b)| == 4 + |Encode(b[3..])|
    ensures Encode(b)[..4] == Quad(b[0], b[1], b[2], 4) + Repeat(Pad, 0)
    ensures Encode(b)[4..] == Encode(b[3..])
  {
  }

  lemma DecodeSplit(e: Text)
    requires |e| >= 4 && |e| % 4 == 0
    ensures Decode(e) == DecodeQuad(e[..4]) + Decode(e[4..])
  {
  }

  /** Decoding undoes encoding. */
  lemma {:induction false} DecodeEncode(b: seq<Byte>)
    ensures |Encode(b)| % 4 == 0
    ensures Decode(Encode(b)) == b
    decreases |b|
  {
    if |b| >= 3 {
      DecodeEncode(b[3..]);
      DecodeEncodeGroup(b);
    } else if |b| > 0 {
      DecodeEncodeFinal(b);
    }
  }

  lemma GroupMultiple(n: nat)
    requires n % 4 == 0
    ensures (4 + n) % 4 == 0
  {
  }

  lemma DecodeEncodeGroup(b: seq<Byte>)
    requires |b| >= 3
    requires |Encode(b[3..])| % 4 == 0 && Decode(Encode(b[3..])) == b[3..]
    ensures |Encode(b)| % 4 == 0 && Decode(Encode(b)) == b
  {
    EncodeFirstGroup(b);
    var e := Encode(b);
    GroupMultiple(|Encode(b[3..])|);
    DecodeSplit(e);
    var q := e[..4];
    QuadRoundTrip(b[0], b[1], b[2], 4);
    var head := DecodeQuad(q);
    assert head == b[..3];
    assert Decode(e[4..]) == b[3..];
    assert b[..3] + b[3..] == b;
  }

  lemma DecodeEncodeFinal(b: seq<Byte>)
    requires 1 <= |b| <= 2
    ensures |Encode(b)| == 4 && Decode(Encode(b)) == b
  {
    var e := Encode(b);
    if |b| == 2 {
      assert e == Quad(b[0], b[1], 0, 3) + Repeat(Pad, 1);
      QuadRoundTrip(b[0], b[1], 0, 3);
      assert [b[0], b[1], 0][..2] == b;
    } else {
      assert e == Quad(b[0], 0, 0, 2) + Repeat(Pad, 2);
      QuadRoundTrip(b[0], 0, 0, 2);
      assert [b[0], 0, 0][..1] == b;
    }
    assert e[..4] == e && e[4..] == [];
    assert Decode(e) == DecodeQuad(e[..4]) + Decode(e[4..]);
  }

  /** Encoding a prefix of whole groups extended by one more group. */
  lemma EncodeGroupStep(bytes: seq<Byte>, pos: nat)
    requires 3 <= pos <= |bytes| && pos % 3 == 0
    ensures Encode(bytes[..pos])
      == Encode(bytes[..pos - 3]) + Quad(bytes[pos - 3], bytes[pos - 2], bytes[pos - 1], 4)
  {
    var g := bytes[pos - 3..pos];
    assert bytes[..pos] == bytes[..pos - 3] + g;
    EncodeAppend(bytes[..pos - 3], g);
    assert Encode(g) == Quad(g[0], g[1], g[2], 4) + Encode([]);
  }

  /** Encoding splits after any number of whole groups. */
  lemma EncodeSplitAt(bytes: seq<Byte>, p: nat)
    requires p <= |bytes| && p % 3 == 0
    ensures Encode(bytes) == Encode(bytes[..p]) + Encode(bytes[p..])
  {
    assert bytes == bytes[..p] + bytes[p..];
    EncodeAppend(bytes[..p], bytes[p..]);
  }

  lemma EncodeFinalGroup(t: seq<Byte>)
    requires 1 <= |t| <= 2
    ensures |t| == 1 ==> Encode(t) == Quad(t[0], 0, 0, 2) + Repeat(Pad, 2)
    ensures |t| == 2 ==> Encode(t) == Quad(t[0], t[1], 0, 3) + Repeat(Pad, 1)
  {
    assert Repeat(Pad, 2) == [Pad, Pad];
    assert Repeat(Pad, 1) == [Pad];
  }

  lemma SeqAssoc(x: Text, y: Text, z: Text)
    ensures x + (y + z) == (x + y) + z
  {
  }

  /** Encoding whole groups followed by a final group of one octet. */
  lemma EncodeTailOne(bytes: seq<Byte>)
    requires 1 <= |bytes| && (|bytes| - 1) % 3 == 0
    ensures var p := |bytes| - 1;
      Encode(bytes) == Encode(bytes[..p]) + Quad(bytes[p], 0, 0, 2) + Repeat(Pad, 2)
  {
    var p := |bytes| - 1;
    EncodeSplitAt(bytes, p);
    EncodeFinalGroup(bytes[p..]);
    assert bytes[p..][0] == bytes[p];
    SeqAssoc(Encode(bytes[..p]), Quad(bytes[p], 0, 0, 2), Repeat(Pad, 2));
  }

  /** Encoding whole groups followed by a final group of two octets. */
  lemma EncodeTailTwo(bytes: seq<Byte>)
    requires 2 <= |bytes| && (|bytes| - 2) % 3 == 0
    ensures var p := |bytes| - 2;
      Encode(bytes) == Encode(bytes[..p]) + Quad(bytes[p], bytes[p + 1], 0, 3) + Repeat(Pad, 1)
  {
    var p := |bytes| - 2;
    EncodeSplitAt(bytes, p);
    EncodeFinalGroup(bytes[p..]);
    assert bytes[p..][0] == bytes[p] && bytes[p..][1] == bytes[p + 1];
    SeqAssoc(Encode(bytes[..p]), Quad(bytes[p], bytes[p + 1], 0, 3), Repeat(Pad, 1));
  }

  /** The source's encoder: octets are collected in `char_array_3`; each full
      group is split into `char_array_4` by masks and shifts and looked up in
      the table; a final partial group is zero-filled, emitted with one symbol
      more than it has octets, and padded with `=` to four. */
  method EncodeBase64(bytes: seq<Byte>) returns (ret: Text)
    ensures ret == Encode(bytes)
  {
    ret := [];
    var charArray3 := new Byte[3];
    var charArray4 := new Byte[4];
    var i := 0;
    var pos := 0;
    ghost var done := 0;
    while pos < |bytes|
      invariant 0 <= i < 3 && done + i == pos <= |bytes| && done % 3 == 0
      invariant forall k :: 0 <= k < i ==> charArray3[k] == bytes[done + k]
      invariant ret == Encode(bytes[..done])
    {
      charArray3[i] := bytes[pos];
      i := i + 1;
      pos := pos + 1;
      if i == 3 {
        ret := EmitGroup(bytes, pos, ret, charArray3, charArray4);
        i := 0;
        done := pos;
      }
    }
    assert bytes[..pos] == bytes;
    if i != 0 {
      ret := EmitFinalGroup(bytes, ret, charArray3, charArray4, i);
    }
  }

  /** The `if (i == 3)` block of the loop: a full group in `charArray3` is split
      and emitted as four symbols. */
  method EmitGroup(bytes: seq<Byte>, pos: nat, ret0: Text, charArray3: array<Byte>,
                   charArray4: array<Byte>) returns (ret: Text)
    requires 3 <= pos <= |bytes| && pos % 3 == 0
    requires charArray3.Length == 3 && charArray4.Length == 4 && charArray3 != charArray4
    requires forall k :: 0 <= k < 3 ==> charArray3[k] == bytes[pos - 3 + k]
    requires ret0 == Encode(bytes[..pos - 3])
    modifies charArray4
    ensures ret == Encode(bytes[..pos])
  {
    SplitGroup(charArray3, charArray4);
    ret := AppendSymbols(ret0, charArray4, 4);
    EncodeGroupStep(bytes, pos);
  }

  /** The `if (i)` block after the loop: the `i` leftover octets in
      `charArray3` are zero-filled, split, emitted as `i + 1` symbols and
      padded with `=` to four. */
  method EmitFinalGroup(bytes: seq<Byte>, ret0: Text, charArray3: array<Byte>,
                        charArray4: array<Byte>, i: nat) returns (ret: Text)
    requires 1 <= i <= 2 && i <= |bytes| && (|bytes| - i) % 3 == 0
    requires charArray3.Length == 3 && charArray4.Length == 4 && charArray3 != charArray4
    requires forall k :: 0 <= k < i ==> charArray3[k] == bytes[|bytes| - i + k]
    requires ret0 == Encode(bytes[..|bytes| - i])
    modifies charArray3, charArray4
    ensures ret == Encode(bytes)
  {
    var pos := |bytes|;
    ZeroFill(charArray3, i);
    SplitGroup(charArray3, charArray4);
    ret := AppendSymbols(ret0, charArray4, i + 1);
    ret := AppendPadding(ret, 3 - i);
    if i == 1 {
      assert charArray4[..] == Sextets(bytes[pos - 1], 0, 0);
      EncodeTailOne(bytes);
    } else {
      assert charArray4[..] == Sextets(bytes[pos - 2], bytes[pos - 1], 0);
      EncodeTailTwo(bytes);
    }
  }

  /** The `for (j = i; j < 3; j++) charArray3[j] = '\0'` loop. */
  method ZeroFill(charArray3: array<Byte>, i: nat)
    requires charArray3.Length == 3 && i <= 3
    modifies charArray3
    ensures forall k :: 0 <= k < i ==> charArray3[k] == old(charArray3[k])
    ensures forall k :: i <= k < 3 ==> charArray3[k] == 0
  {
    var j := i;
    while j < 3
      invariant i <= j <= 3
      invariant forall k :: 0 <= k < i ==> charArray3[k] == old(charArray3[k])
      invariant forall k :: i <= k < j ==> charArray3[k] == 0
    {
      charArray3[j] := 0;
      j := j + 1;
    }
  }

  /** The `while (i++ < 3) ret += '='` loop: `n` pad symbols. */
  method AppendPadding(ret0: Text, n: nat) returns (ret: Text)
    ensures ret == ret0 + Repeat(Pad, n)
  {
    ret := ret0;
    var k := 0;
    while k < n
      invariant k <= n
      invariant ret == ret0 + Repeat(Pad, k)
    {
      ret := ret + [Pad];
      k := k + 1;
    }
  }

  /** The source's masks and shifts are the RFC's 6-bit groups. */
  lemma SplitIsSextets(c0: Byte, c1: Byte, c2: Byte)
    ensures [(c0 & 0xfc) >> 2, ((c0 & 0x03) << 4) + ((c1 & 0xf0) >> 4),
             ((c1 & 0x0f) << 2) + ((c2 & 0xc0) >> 6), c2 & 0x3f] == Sextets(c0, c1, c2)
  {
  }

  /** The source's masks and shifts on one group of three octets. */
  method SplitGroup(charArray3: array<Byte>, charArray4: array<Byte>)
    requires charArray3.Length == 3 && charArray4.Length == 4
    requires charArray3 != charArray4
    modifies charArray4
    ensures charArray4[..] == Sextets(charArray3[0], charArray3[1], charArray3[2])
  {
    var c0, c1, c2 := charArray3[0], charArray3[1], charArray3[2];
    SplitIsSextets(c0, c1, c2);
    charArray4[0] := (c0 & 0xfc) >> 2;
    charArray4[1] := ((c0 & 0x03) << 4) + ((c1 & 0xf0) >> 4);
    charArray4[2] := ((c1 & 0x0f) << 2) + ((c2 & 0xc0) >> 6);
    charArray4[3] := c2 & 0x3f;
  }

  /** Appends the table symbols of the first `k` entries of `charArray4`. */
  method AppendSymbols(ret: Text, charArray4: array<Byte>, k: nat) returns (r: Text)
    requires charArray4.Length == 4 && k <= 4
    requires forall i :: 0 <= i < 4 ==> charArray4[i] < 64
    ensures r == ret + Symbols(charArray4[..], k)
  {
    r := ret;
    var i := 0;
    while i < k
      invariant 0 <= i <= k
      invariant r == ret + Symbols(charArray4[..], i)
    {
      r := r + [TableAt(charArray4[i] as int)];
      i := i + 1;
    }
  }
}
