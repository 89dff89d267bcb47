/** Shared value types of the native library: bytes, byte-sized characters,
    C-string views and the failure-carrying wrappers used across the model. */
module Common {

  /** One octet on the wire. */
  type Byte = bv8

  /** A C++ `char`: the native library only ever handles byte-sized characters. */
  type Char8 = c: char | c as int < 256

  /** A C++ `std::string`. */
  type Text = seq<Char8>

  const NUL: Char8 := 0 as char

  datatype Option<T> = None | Some(value: T)

  /** The outcome of an operation that throws in the source on a usage error. */
  datatype Outcome = Pass | Fail(error: Text)

  function Nibble(n: nat): (b: Byte)
    requires n < 16
    ensures b as int == n && b < 16
  {
    n as Byte
  }

  lemma NibblesValue(high: Byte, low: Byte)
    requires high < 16 && low < 16
    ensures (high * 16 + low) as int == high as int * 16 + low as int
  {
  }

  lemma ByteInjective(x: Byte, y: Byte)
    requires x as int == y as int
    ensures x == y
  {
  }

  /** The octet holding a value below 256, assembled from its two nibbles. */
  function ByteOfValue(n: nat): (b: Byte)
    requires n < 256
    ensures b as int == n
  {
    var high, low := Nibble(n / 16), Nibble(n % 16);
    NibblesValue(high, low);
    high * 16 + low
  }

  /** The octet a `char` is stored as. */
  function ByteOf(c: Char8): (b: Byte)
    ensures b as int == c as int
  {
    ByteOfValue(c as int)
  }

  /** The bytes that a `std::string` holds. */
  function ToBytes(s: Text): (b: seq<Byte>)
    ensures |b| == |s|
    ensures forall i :: 0 <= i < |s| ==> b[i] as int == s[i] as int
  {
    seq(|s|, i requires 0 <= i < |s| => ByteOf(s[i]))
  }

  /** A `std::string` built from raw bytes, as `std::string(buffer, length)` does. */
  function FromBytes(b: seq<Byte>): (s: Text)
    ensures |s| == |b|
    ensures forall i :: 0 <= i < |b| ==> s[i] as int == b[i] as int
  {
    seq(|b|, i requires 0 <= i < |b| => b[i] as int as char)
  }

  lemma {:induction false} FromBytesToBytes(b: seq<Byte>)
    ensures ToBytes(FromBytes(b)) == b
  {
    var s := FromBytes(b);
    var r := ToBytes(s);
    forall i | 0 <= i < |b| ensures r[i] == b[i] {
      ByteInjective(r[i], b[i]);
    }
  }

  /** What C code sees of a character buffer: the characters before the first NUL
      (`strlen`, `const char*` to `std::string`). */
  function CStr(s: Text): (r: Text)
    ensures |r| <= |s| && r == s[..|r|]
    ensures NUL !in r
    ensures |r| < |s| ==> s[|r|] == NUL
  {
    if s == [] || s[0] == NUL then [] else [s[0]] + CStr(s[1..])
  }

  lemma {:induction false} CStrOfNulFree(s: Text)
    requires NUL !in s
    ensures CStr(s) == s
  {
    if s != [] {
      assert s[0] in s;
      assert NUL !in s[1..];
      CStrOfNulFree(s[1..]);
    }
  }

  /** A terminating NUL does not change the C-string view. */
  lemma {:induction false} CStrStopsAtNul(s: Text)
    ensures CStr(s + [NUL]) == CStr(s)
  {
    if s != [] && s[0] != NUL {
      assert (s + [NUL])[1..] == s[1..] + [NUL];
      CStrStopsAtNul(s[1..]);
    }
  }

  /** A NUL right after a NUL-free prefix ends the C string there. */
  lemma CStrOfPrefix(p: Text, rest: Text)
    requires NUL !in p
    ensures CStr(p + [NUL] + rest) == p
  {
    var s := p + [NUL] + rest;
    var c := CStr(s);
    assert s[|p|] == NUL && s[..|p|] == p;
    assert forall i :: 0 <= i < |p| ==> s[i] == p[i];
    assert forall i :: 0 <= i < |c| ==> c[i] == s[i];
  }

  /** `n` copies of `c`. */
  function Repeat(c: Char8, n: nat): (r: Text)
    ensures |r| == n
    ensures forall i :: 0 <= i < n ==> r[i] == c
  {
    seq(n, _ => c)
  }

  /** The elements of `s` joined with `sep` after each of them: `a;b;` for `[a, b]`. */
  function JoinAfter(s: seq<Text>, sep: Text): (r: Text)
    ensures s == [] ==> r == []
  {
    if s == [] then [] else s[0] + sep + JoinAfter(s[1..], sep)
  }

  lemma {:induction false} JoinAfterAppend(s: seq<Text>, x: Text, sep: Text)
    ensures JoinAfter(s + [x], sep) == JoinAfter(s, sep) + x + sep
  {
    if s != [] {
      assert (s + [x])[1..] == s[1..] + [x];
      JoinAfterAppend(s[1..], x, sep);
    } else {
      assert s + [x] == [x];
    }
  }

  /** Joining one more part of a list grows the text by that part. */
  lemma JoinAfterPrefix(s: seq<Text>, k: nat, sep: Text)
    requires k < |s|
    ensures JoinAfter(s[..k + 1], sep) == JoinAfter(s[..k], sep) + s[k] + sep
  {
    assert s[..k + 1] == s[..k] + [s[k]];
    JoinAfterAppend(s[..k], s[k], sep);
  }

  /** C++ integer division (and `std::chrono::duration_cast` to a coarser
      unit): the quotient truncated toward zero. */
  function TruncDiv(a: int, b: nat): (q: int)
    requires b > 0
    ensures a >= 0 ==> q == a / b
    ensures a < 0 ==> q == -((-a) / b)
    ensures a >= 0 ==> 0 <= a - q * b < b
    ensures a < 0 ==> 0 <= q * b - a < b
  {
    if a >= 0 then DivRemainder(a, b); a / b
    else
      var x := (-a) / b;
      DivRemainder(-a, b);
      assert (-x) * b == -(x * b);
      -x
  }

  lemma DivRemainder(a: nat, b: nat)
    requires b > 0
    ensures 0 <= a - (a / b) * b < b
  {
    assert a == (a / b) * b + a % b;
  }
}
