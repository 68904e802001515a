/** Java's primitive byte, the library calls the core relies on (System.arraycopy),
    and the result type that stands in for the checked exceptions of the core. */
module JavaBytes {

  /** A Java `byte`: a signed 8-bit value. */
  type JByte = b: int | -128 <= b < 128

  /** `b & 0xff`: the byte read as an unsigned value. */
  function Unsigned(b: JByte): (u: int)
    ensures 0 <= u < 256
    ensures u % 256 == b % 256
  {
    if b < 0 then b + 256 else b
  }

  /** `(char) b`: Java widens the byte with its sign and keeps the low 16 bits. */
  function JavaChar(b: JByte): (c: char)
    ensures c as int == b % 0x1_0000
    ensures 0 <= b ==> c as int == b
  {
    if b < 0 then (b + 0x1_0000) as char else b as char
  }

  /** The four bits of a nibble value, as literals: an `as bv8` conversion of an int makes
      the solver's cost for the year proofs vary widely from one seed to another. */
  function NibbleBits(n: int): (x: bv8)
    requires 0 <= n < 16
    ensures x as int == n
  {
    if n == 0 then 0
    else if n == 1 then 1
    else if n == 2 then 2
    else if n == 3 then 3
    else if n == 4 then 4
    else if n == 5 then 5
    else if n == 6 then 6
    else if n == 7 then 7
    else if n == 8 then 8
    else if n == 9 then 9
    else if n == 10 then 10
    else if n == 11 then 11
    else if n == 12 then 12
    else if n == 13 then 13
    else if n == 14 then 14
    else 15
  }

  /** The 8 bits of a byte: the bits of its high nibble, then those of its low nibble. */
  function ByteBits(b: JByte): bv8
  {
    (NibbleBits(Unsigned(b) / 16) << 4) | NibbleBits(Unsigned(b) % 16)
  }

  lemma JoinedNibblesValue(h: bv8, l: bv8)
    requires h < 16 && l < 16
    ensures ((h << 4) | l) as int == 16 * (h as int) + l as int
  {
    assert (h << 4) | l == h * 16 + l;
  }

  /** The bits of a byte are those of its unsigned value. */
  lemma ByteBitsValue(b: JByte)
    ensures ByteBits(b) as int == Unsigned(b)
  {
    JoinedNibblesValue(NibbleBits(Unsigned(b) / 16), NibbleBits(Unsigned(b) % 16));
  }

  /** The ASCII code of a character, as the byte the scale puts on the wire. */
  function Ascii(c: char): (b: JByte)
    requires c as int < 128
    ensures b == c as int
  {
    c as int
  }

  /** The bytes of an ASCII string. */
  function AsciiBytes(s: string): (bs: seq<JByte>)
    requires forall i :: 0 <= i < |s| ==> s[i] as int < 128
    ensures |bs| == |s|
    ensures forall i :: 0 <= i < |s| ==> bs[i] == s[i] as int
  {
    if s == [] then [] else [Ascii(s[0])] + AsciiBytes(s[1..])
  }

  /** A byte sequence holding the codes of an ASCII string is its AsciiBytes. */
  lemma AsciiBytesAre(s: string, bs: seq<JByte>)
    requires |bs| == |s| && forall i :: 0 <= i < |s| ==> s[i] as int < 128 && bs[i] == s[i] as int
    ensures AsciiBytes(s) == bs
  {
  }

  /** The exceptions the core throws, with the message kind of a PacketExpection. */
  datatype Reason = NotData | NotAWeight

  datatype Error =
    | PacketExpection(reason: Reason)   // malformed or mismatched packet (checked, caught by the session)
    | InvalidMeasureException           // the scale reported an invalid reading (checked, caught)
    | NumberFormatException             // a library parser rejected its text (unchecked, never caught)
    | RuntimeException                  // an unchecked failure the core raises itself

  datatype Result<+T> = Success(value: T) | Failure(error: Error)

  datatype Option<+T> = None | Some(value: T)

  /** System.arraycopy(src, srcPos, dest, destPos, length) for arguments that are in bounds.
      The source array is passed as its contents before the copy, which is also what
      arraycopy guarantees when source and destination are the same array. */
  method ArrayCopy(src: seq<JByte>, srcPos: nat, dest: array<JByte>, destPos: nat, length: nat)
    requires srcPos + length <= |src| && destPos + length <= dest.Length
    modifies dest
    ensures dest[..] == old(dest[..destPos]) + src[srcPos..srcPos + length] + old(dest[destPos + length..])
    ensures length == dest.Length ==> dest[..] == src[srcPos..srcPos + length]
  {
    forall i | 0 <= i < length {
      dest[destPos + i] := src[srcPos + i];
    }
    assert dest[..] == old(dest[..destPos]) + src[srcPos..srcPos + length] + old(dest[destPos + length..]);
  }

  /** `new byte[length]` filled by System.arraycopy from `src` at `pos`. */
  method CopyRange(src: seq<JByte>, pos: nat, length: nat) returns (copy: array<JByte>)
    requires pos + length <= |src|
    ensures fresh(copy) && copy[..] == src[pos..pos + length]
  {
    copy := new JByte[length];
    ArrayCopy(src, pos, copy, 0, length);
  }
}
