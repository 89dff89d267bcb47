/** A character buffer of fixed capacity plus one terminator slot. Copying a
    C string in keeps at most `capacity` of its characters and zeroes every
    slot after them, so the buffer always ends in NUL. */
module FixedString {
  import opened Common

  /** The characters a copy from `s` keeps: the C string read from `s`, cut
      to the capacity. */
  function Kept(s: Text, capacity: nat): (r: Text)
    ensures |r| <= capacity && |r| <= |CStr(s)|
    ensures r == CStr(s)[..|r|]
    ensures |r| < capacity ==> r == CStr(s)
    ensures NUL !in r
  {
    var c := CStr(s);
    if |c| <= capacity then c else c[..capacity]
  }

  /** The whole buffer after a copy from `s`: the kept characters, then zeroes
      up to and including the terminator slot. */
  function Image(s: Text, capacity: nat): (r: Text)
    ensures |r| == capacity + 1
    ensures r[..|Kept(s, capacity)|] == Kept(s, capacity)
    ensures forall k :: |Kept(s, capacity)| <= k <= capacity ==> r[k] == NUL
  {
    Kept(s, capacity) + Repeat(NUL, capacity + 1 - |Kept(s, capacity)|)
  }

  /** Reading a copied buffer as a C string gives back the kept characters. */
  lemma ImageReadsKept(s: Text, capacity: nat)
    ensures CStr(Image(s, capacity)) == Kept(s, capacity)
  {
    var k := Kept(s, capacity);
    var zeros := Repeat(NUL, capacity - |k|);
    assert Image(s, capacity) == k + [NUL] + zeros;
    CStrOfPrefix(k, zeros);
  }

  /** Copying in the value a buffer shows gives the same buffer again. */
  lemma CopyOfStoredValue(s: Text, capacity: nat)
    ensures Image(CStr(Image(s, capacity)), capacity) == Image(s, capacity)
  {
    ImageReadsKept(s, capacity);
    var k := Kept(s, capacity);
    CStrOfNulFree(k);
    assert Kept(k, capacity) == k;
  }

  class FixedString {
    const capacity: nat
    const data: array<Char8>

    ghost predicate Valid()
      reads this, data
    {
      data.Length == capacity + 1 && data[capacity] == NUL
    }

    /** The stored text: the buffer read up to its first NUL. `c_str`, the
        `const char*` conversion and the `std::string` conversion all show it. */
    function Value(): (r: Text)
      requires Valid()
      reads this, data
      ensures |r| <= capacity
    {
      var r := CStr(data[..]);
      assert forall i :: 0 <= i < |r| ==> r[i] == data[i];
      r
    }

    /** `strlen` of the buffer, never more than the capacity. */
    function Length(): (n: nat)
      requires Valid()
      reads this, data
      ensures n <= capacity
    {
      |Value()|
    }

    /** The default constructor: an all-zero buffer, so the empty string. */
    constructor(capacity: nat)
      ensures this.capacity == capacity && Valid()
      ensures fresh(data)
      ensures data[..] == Repeat(NUL, capacity + 1)
      ensures Value() == []
    {
      this.capacity := capacity;
      data := new Char8[capacity + 1](_ => NUL);
      new;
      assert data[..] == Repeat(NUL, capacity + 1);
    }

    /** The constructors from `const char*` and from `std::string`. */
    constructor FromText(capacity: nat, s: Text)
      ensures this.capacity == capacity && Valid()
      ensures fresh(data)
      ensures data[..] == Image(s, capacity)
      ensures Value() == Kept(s, capacity)
    {
      this.capacity := capacity;
      data := new Char8[capacity + 1];
      new;
      SafeCopy(s);
    }

    /** Both assignment operators. */
    method Assign(s: Text)
      requires data.Length == capacity + 1
      modifies data
      ensures Valid()
      ensures data[..] == Image(s, capacity)
      ensures Value() == Kept(s, capacity)
    {
      SafeCopy(s);
    }

    /** `strlen`, then `strncpy` of at most `capacity` characters, then `memset`
        of the rest of the buffer including the terminator slot. */
    method SafeCopy(s: Text)
      requires data.Length == capacity + 1
      modifies data
      ensures Valid()
      ensures data[..] == Image(s, capacity)
      ensures Value() == Kept(s, capacity)
    {
      var length := |CStr(s)|;
      if length > capacity {
        length := capacity;
      }
      var i := 0;
      while i < length
        invariant 0 <= i <= length
        invariant forall k :: 0 <= k < i ==> data[k] == s[k]
      {
        data[i] := s[i];
        i := i + 1;
      }
      var j := length;
      while j < capacity + 1
        invariant length <= j <= capacity + 1
        invariant forall k :: 0 <= k < length ==> data[k] == s[k]
        invariant forall k :: length <= k < j ==> data[k] == NUL
      {
        data[j] := NUL;
        j := j + 1;
      }
      var image := Image(s, capacity);
      assert |Kept(s, capacity)| == length;
      forall k | 0 <= k <= capacity ensures data[k] == image[k] {
        if k < length {
          assert image[k] == Kept(s, capacity)[k] == CStr(s)[k] == s[k];
        }
      }
      assert data[..] == image;
      ImageReadsKept(s, capacity);
    }
  }
}
