/** Fixed-width columns for the timer printout: a string of `padding`
    characters holding the text and filled up with spaces. The older group
    timer carries identical copies of both (`StrPadR`, `StrPadL`). */
module StrFormat {
  import opened Common

  const Space: Char8 := ' '

  /** Right-aligns: the spaces come first, the text ends the result. */
  method PadR(text: Text, padding: nat) returns (r: Text)
    requires |text| <= padding
    ensures |r| == padding
    ensures r[..padding - |text|] == Repeat(Space, padding - |text|)
    ensures r[padding - |text|..] == text
    ensures |text| == padding ==> r == text
  {
    var insertPadding := padding - |text|;
    var res := new Char8[padding](_ => NUL);
    var i := 0;
    while i < insertPadding
      invariant 0 <= i <= insertPadding
      invariant forall k :: 0 <= k < i ==> res[k] == Space
    {
      res[i] := Space;
      i := i + 1;
    }
    i := insertPadding;
    while i < padding
      invariant insertPadding <= i <= padding
      invariant forall k :: 0 <= k < insertPadding ==> res[k] == Space
      invariant forall k :: insertPadding <= k < i ==> res[k] == text[k - insertPadding]
    {
      res[i] := text[i - insertPadding];
      i := i + 1;
    }
    r := res[..];
    assert r[..insertPadding] == Repeat(Space, insertPadding);
    assert r[insertPadding..] == text;
  }

  /** Left-aligns: the text starts the result, the spaces follow. */
  method PadL(text: Text, padding: nat) returns (r: Text)
    requires |text| <= padding
    ensures |r| == padding
    ensures r[..|text|] == text
    ensures r[|text|..] == Repeat(Space, padding - |text|)
    ensures |text| == padding ==> r == text
  {
    var res := new Char8[padding](_ => NUL);
    var i := 0;
    while i < |text|
      invariant 0 <= i <= |text|
      invariant forall k :: 0 <= k < i ==> res[k] == text[k]
    {
      res[i] := text[i];
      i := i + 1;
    }
    i := |text|;
    while i < padding
      invariant |text| <= i <= padding
      invariant forall k :: 0 <= k < |text| ==> res[k] == text[k]
      invariant forall k :: |text| <= k < i ==> res[k] == Space
    {
      res[i] := Space;
      i := i + 1;
    }
    r := res[..];
    assert r[..|text|] == text;
    assert r[|text|..] == Repeat(Space, padding - |text|);
  }
}
