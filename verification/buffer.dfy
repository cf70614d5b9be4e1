/** `BufferCharSequence`: a `CharSequence` view of a byte buffer from the
    buffer's current position onwards. Bytes are not decoded: each byte is
    cast to `char` the way Java casts a signed `byte`. */
module Buffer {
  import opened Wrappers

  /** An unsigned byte of the input file. */
  type Byte = b: int | 0 <= b < 256

  /** Java's `(char) b` for a byte read from a `ByteBuffer`: the byte is
      signed, so 0x80..0xFF sign-extend to U+FF80..U+FFFF. */
  function CharOf(b: Byte): char
  {
    if b < 128 then b as char else (0xFF00 + b) as char
  }

  /** The byte-per-character text of a run of bytes. `new String(bytes)`
      is modelled by this same cast. */
  function Decode(bs: seq<Byte>): (s: seq<char>)
    ensures |s| == |bs|
    ensures forall i :: 0 <= i < |bs| ==> s[i] == CharOf(bs[i])
  {
    seq(|bs|, i requires 0 <= i < |bs| => CharOf(bs[i]))
  }

  /** The bytes of ASCII text, one per character (for stating examples). */
  function Ascii(s: string): (bs: seq<Byte>)
    requires forall i :: 0 <= i < |s| ==> s[i] as int < 128
    ensures Decode(bs) == s
  {
    var bs: seq<Byte> := seq(|s|, i requires 0 <= i < |s| => s[i] as int);
    assert forall i :: 0 <= i < |s| ==> CharOf(bs[i]) == s[i];
    bs
  }

  lemma DecodeAppend(a: seq<Byte>, b: seq<Byte>)
    ensures Decode(a + b) == Decode(a) + Decode(b)
  {
  }

  /** The view: a buffer and the position the view starts at. */
  datatype BufferView = BufferView(buffer: seq<Byte>, position: nat)
  {
    predicate Valid()
    {
      position <= |buffer|
    }

    /** The characters the view presents, one per remaining byte. */
    function Chars(): seq<char>
      requires Valid()
    {
      Decode(buffer[position..])
    }

    /** `length()`: the buffer's remaining byte count. */
    function Length(): (n: nat)
      requires Valid()
      ensures n == |Chars()|
      ensures position + n == |buffer|
    {
      |buffer| - position
    }

    /** `charAt(index)`: an absolute `get` at `position + index`, which
        fails (IndexOutOfBoundsException) outside `[0, |buffer|)`; so a
        negative index reads bytes before the view. */
    function CharAt(index: int): (r: Option<char>)
      requires Valid()
      ensures r.Some? <==> -(position as int) <= index < Length()
      ensures 0 <= index < Length() ==> r == Some(Chars()[index])
      ensures r.Some? ==> r.value == CharOf(buffer[position + index])
    {
      if 0 <= position + index < |buffer| then Some(CharOf(buffer[position + index])) else None
    }

    /** `subSequence(start, end)` as written: reads `end - start` bytes
        starting at the current position, whatever `start` is, and puts the
        position back. A negative count fails (NegativeArraySizeException),
        and so does a count beyond the remaining bytes
        (BufferUnderflowException). */
    function SubSequence(start: int, end: int): (r: Result<seq<char>>)
      requires Valid()
      ensures r.Success? <==> 0 <= end - start <= Length()
      ensures r.Success? ==> r.value == Chars()[..end - start]
    {
      var count := end - start;
      if count < 0 then Failure("NegativeArraySizeException")
      else if count > |buffer| - position then Failure("BufferUnderflowException")
      else Success(Decode(buffer[position..position + count]))
    }

    /** `subSequence(start, end)` as the `CharSequence` contract means it:
        the characters at `[start, end)` of the view, and
        IndexOutOfBoundsException unless `0 <= start <= end <= length()`. */
    function SubSequenceIntended(start: int, end: int): (r: Result<seq<char>>)
      requires Valid()
      ensures r.Success? <==> 0 <= start <= end <= Length()
      ensures r.Success? ==> |r.value| == end - start
      ensures r.Success? ==> forall i :: start <= i < end ==> r.value[i - start] == Chars()[i]
    {
      if 0 <= start <= end <= |buffer| - position then Success(Chars()[start..end])
      else Failure("IndexOutOfBoundsException")
    }
  }

  /** Only the length `end - start` reaches the as-written `subSequence`. */
  lemma SubSequenceIgnoresStart(v: BufferView, start: int, end: int)
    requires v.Valid()
    ensures v.SubSequence(start, end) == v.SubSequence(0, end - start)
  {
  }

  /** From the start of the view (the only call the anchored token patterns
      make) the as-written and intended `subSequence` succeed on the same
      arguments and then return the same text; only the exception differs. */
  lemma SubSequenceFromZeroAgrees(v: BufferView, end: int)
    requires v.Valid()
    ensures v.SubSequence(0, end).Success? <==> v.SubSequenceIntended(0, end).Success?
    ensures v.SubSequence(0, end).Success? ==> v.SubSequence(0, end) == v.SubSequenceIntended(0, end)
  {
  }

  /** A nonzero `start` exposes the difference: over the bytes "abc",
      `subSequence(1, 3)` yields "ab" where "bc" is meant. */
  lemma SubSequenceMisreadsOffset()
    ensures BufferView([97, 98, 99], 0).SubSequence(1, 3) == Success("ab")
    ensures BufferView([97, 98, 99], 0).SubSequenceIntended(1, 3) == Success("bc")
  {
    var v := BufferView([97, 98, 99], 0);
    assert v.Chars() == "abc";
    assert v.Chars()[..2] == "ab";
    assert v.Chars()[1..3] == "bc";
  }
}
