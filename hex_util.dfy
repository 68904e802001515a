/** Diagnostic formatting of byte buffers (HexUtil.java). */
module HexUtil {
  import opened JavaBytes

  /** The digit of each nibble value, the reference for `ToHexChar`. */
  const HEX_DIGITS: string := "0123456789ABCDEF"

  /** toHexChar(b): the upper-case hex digit of the low nibble of `b`.
      `0xF & b` on a two's-complement int is `b % 16` with Dafny's non-negative remainder. */
  function ToHexChar(b: int): (c: char)
    ensures c == HEX_DIGITS[b % 16]
  {
    var nibble := b % 16;
    if nibble == 0xF then 'F'
    else if nibble == 0xE then 'E'
    else if nibble == 0xD then 'D'
    else if nibble == 0xC then 'C'
    else if nibble == 0xB then 'B'
    else if nibble == 0xA then 'A'
    else ('0' as int + nibble) as char
  }

  /** The value of an upper-case hex digit: the inverse of `ToHexChar` on 0..15. */
  function HexDigitValue(c: char): int
  {
    if '0' <= c <= '9' then c as int - '0' as int
    else if 'A' <= c <= 'F' then c as int - 'A' as int + 10
    else -1
  }

  /** toHexString(b): the hex digit of `b >> 4` (an arithmetic shift, i.e. `b / 16` rounded
      down, which Dafny's division does for a positive divisor) followed by that of `b`. */
  function ToHexString(b: int): (s: string)
    ensures |s| == 2
    ensures s[0] == HEX_DIGITS[(b / 16) % 16] && s[1] == HEX_DIGITS[b % 16]
  {
    "" + [ToHexChar(b / 16)] + [ToHexChar(b)]
  }

  /** The nibble of a hex digit is read back exactly. */
  lemma HexCharRoundTrip(n: int)
    requires 0 <= n < 16
    ensures HexDigitValue(ToHexChar(n)) == n
  {
  }

  /** For an unsigned byte, `ToHexString` gives exactly two digits whose value is the byte. */
  lemma {:induction false} HexStringRoundTrip(b: int)
    requires 0 <= b < 256
    ensures 16 * HexDigitValue(ToHexString(b)[0]) + HexDigitValue(ToHexString(b)[1]) == b
  {
    HexCharRoundTrip(b / 16);
    HexCharRoundTrip(b % 16);
    assert ToHexString(b)[0] == ToHexChar(b / 16);
    assert ToHexString(b)[1] == ToHexChar(b % 16);
  }

  // ---------------------------------------------------------------- dump

  /** The cells "XX " of the dump of `bs`, one per byte. */
  function HexCells(bs: seq<JByte>): string
  {
    if bs == [] then ""
    else HexCells(bs[..|bs| - 1]) + ToHexString(Unsigned(bs[|bs| - 1])) + " "
  }

  /** The text dump(bb, n) builds for the bytes `bs == bb[..n]`. */
  function DumpText(bs: seq<JByte>): (r: string)
    ensures |r| >= 3 && r[..2] == "[ " && r[|r| - 1] == ']'
  {
    "[ " + HexCells(bs) + "]"
  }

  lemma {:induction false} HexCellsLength(bs: seq<JByte>)
    ensures |HexCells(bs)| == 3 * |bs|
  {
    if bs != [] {
      HexCellsLength(bs[..|bs| - 1]);
    }
  }

  lemma {:induction false} HexCellsAt(bs: seq<JByte>, i: nat)
    requires i < |bs|
    ensures |HexCells(bs)| == 3 * |bs|
    ensures HexCells(bs)[3 * i .. 3 * i + 3] == ToHexString(Unsigned(bs[i])) + " "
  {
    HexCellsLength(bs);
    var init := bs[..|bs| - 1];
    HexCellsLength(init);
    assert HexCells(bs) == HexCells(init) + ToHexString(Unsigned(bs[|bs| - 1])) + " ";
    if i < |bs| - 1 {
      HexCellsAt(init, i);
      assert bs[i] == init[i];
      assert HexCells(bs)[3 * i .. 3 * i + 3] == HexCells(init)[3 * i .. 3 * i + 3];
    }
  }

  /** The dump of n bytes is "[ ", three characters per byte, then "]". */
  lemma DumpLength(bs: seq<JByte>)
    ensures |DumpText(bs)| == 3 * |bs| + 3
    ensures DumpText(bs)[..2] == "[ " && DumpText(bs)[|DumpText(bs)| - 1] == ']'
  {
    HexCellsLength(bs);
  }

  /** Byte i of the buffer is written at offset 2 + 3i as two hex digits and a space,
      and those two digits read back as the unsigned byte. */
  lemma DumpAt(bs: seq<JByte>, i: nat)
    requires i < |bs|
    ensures |DumpText(bs)| == 3 * |bs| + 3
    ensures DumpText(bs)[2 + 3 * i .. 5 + 3 * i] == ToHexString(Unsigned(bs[i])) + " "
    ensures 16 * HexDigitValue(DumpText(bs)[2 + 3 * i]) + HexDigitValue(DumpText(bs)[3 + 3 * i]) == Unsigned(bs[i])
  {
    HexCellsAt(bs, i);
    var d := DumpText(bs);
    assert d[2 + 3 * i .. 5 + 3 * i] == HexCells(bs)[3 * i .. 3 * i + 3];
    HexStringRoundTrip(Unsigned(bs[i]));
    assert d[2 + 3 * i] == ToHexString(Unsigned(bs[i]))[0];
    assert d[3 + 3 * i] == ToHexString(Unsigned(bs[i]))[1];
  }

  /** One more byte of the dump. */
  lemma DumpStep(bb: seq<JByte>, i: nat, before: string, after: string)
    requires i < |bb| && before == "[ " + HexCells(bb[..i])
    requires after == before + ToHexString(Unsigned(bb[i])) + " "
    ensures after == "[ " + HexCells(bb[..i + 1])
  {
    assert bb[..i + 1][..i] == bb[..i];
  }

  /** dump(bb, firstN): a RuntimeException when the buffer is shorter than `firstN`;
      otherwise the dump of its first `firstN` bytes (none when `firstN` is negative). */
  method Dump(bb: seq<JByte>, firstN: int) returns (r: Result<string>)
    ensures firstN > |bb| ==> r == Failure(RuntimeException)
    ensures firstN <= |bb| ==> r == Success(DumpText(bb[..if firstN < 0 then 0 else firstN]))
  {
    if |bb| < firstN {
      return Failure(RuntimeException);
    }
    var sb := "[ ";
    var i := 0;
    while i < firstN
      invariant 0 <= i <= if firstN < 0 then 0 else firstN
      invariant sb == "[ " + HexCells(bb[..i])
    {
      ghost var before := sb;
      var b := Unsigned(bb[i]);
      sb := sb + ToHexString(b) + " ";
      DumpStep(bb, i, before, sb);
      i := i + 1;
    }
    sb := sb + "]";
    return Success(sb);
  }

  /** dump(bb) is dump(bb, bb.length), which never fails. */
  method DumpAll(bb: seq<JByte>) returns (s: string)
    ensures s == DumpText(bb)
    ensures |s| == 3 * |bb| + 3
  {
    var r := Dump(bb, |bb|);
    assert bb[..|bb|] == bb;
    DumpLength(bb);
    s := r.value;
  }

  // ---------------------------------------------------------------- ascii

  /** The cell ascii() writes for one byte: "LF", "CR", or a space and the byte as a char. */
  function AsciiCell(b: JByte): (r: string)
    ensures |r| == 2
    ensures r == "LF" <==> b == 0x0A
    ensures r == "CR" <==> b == 0x0D
  {
    if b == 0x0A then "LF"
    else if b == 0x0D then "CR"
    else
      var cell := " " + [JavaChar(b)];
      assert cell[0] == ' ';
      cell
  }

  /** The cells of the ascii view of `bs`, each followed by a space. */
  function AsciiCells(bs: seq<JByte>): string
  {
    if bs == [] then ""
    else AsciiCells(bs[..|bs| - 1]) + AsciiCell(bs[|bs| - 1]) + " "
  }

  /** The text ascii(bb, n) builds for the bytes `bs == bb[..n]`. */
  function AsciiText(bs: seq<JByte>): (r: string)
    ensures |r| >= 3 && r[..2] == "[ " && r[|r| - 1] == ']'
  {
    "[ " + AsciiCells(bs) + "]"
  }

  lemma {:induction false} AsciiCellsLength(bs: seq<JByte>)
    ensures |AsciiCells(bs)| == 3 * |bs|
  {
    if bs != [] {
      AsciiCellsLength(bs[..|bs| - 1]);
    }
  }

  lemma {:induction false} AsciiCellsAt(bs: seq<JByte>, i: nat)
    requires i < |bs|
    ensures |AsciiCells(bs)| == 3 * |bs|
    ensures AsciiCells(bs)[3 * i .. 3 * i + 3] == AsciiCell(bs[i]) + " "
  {
    AsciiCellsLength(bs);
    var init := bs[..|bs| - 1];
    AsciiCellsLength(init);
    assert AsciiCells(bs) == AsciiCells(init) + AsciiCell(bs[|bs| - 1]) + " ";
    if i < |bs| - 1 {
      AsciiCellsAt(init, i);
      assert bs[i] == init[i];
      assert AsciiCells(bs)[3 * i .. 3 * i + 3] == AsciiCells(init)[3 * i .. 3 * i + 3];
    }
  }

  /** The ascii view of n bytes is "[ ", three characters per byte, then "]";
      line feed and carriage return are spelled out, any other byte is shown as its char. */
  lemma AsciiAt(bs: seq<JByte>, i: nat)
    requires i < |bs|
    ensures |AsciiText(bs)| == 3 * |bs| + 3
    ensures AsciiText(bs)[2 + 3 * i .. 5 + 3 * i] ==
            (if bs[i] == 0x0A then "LF " else if bs[i] == 0x0D then "CR " else [' ', JavaChar(bs[i]), ' '])
  {
    AsciiCellsAt(bs, i);
    assert AsciiText(bs)[2 + 3 * i .. 5 + 3 * i] == AsciiCells(bs)[3 * i .. 3 * i + 3];
  }

  /** One more byte of the ascii view. */
  lemma AsciiDumpStep(bb: seq<JByte>, i: nat, before: string, after: string)
    requires i < |bb| && before == "[ " + AsciiCells(bb[..i])
    requires after == before + AsciiCell(bb[i]) + " "
    ensures after == "[ " + AsciiCells(bb[..i + 1])
  {
    assert bb[..i + 1][..i] == bb[..i];
  }

  /** ascii(bb, firstN): a RuntimeException when the buffer is shorter than `firstN`;
      otherwise the ascii view of its first `firstN` bytes (none when `firstN` is negative). */
  method AsciiDump(bb: seq<JByte>, firstN: int) returns (r: Result<string>)
    ensures firstN > |bb| ==> r == Failure(RuntimeException)
    ensures firstN <= |bb| ==> r == Success(AsciiText(bb[..if firstN < 0 then 0 else firstN]))
  {
    if |bb| < firstN {
      return Failure(RuntimeException);
    }
    var sb := "[ ";
    var i := 0;
    while i < firstN
      invariant 0 <= i <= if firstN < 0 then 0 else firstN
      invariant sb == "[ " + AsciiCells(bb[..i])
    {
      ghost var before := sb;
      if bb[i] == 0x0A {
        sb := sb + "LF";
      } else if bb[i] == 0x0D {
        sb := sb + "CR";
      } else {
        sb := sb + " " + [JavaChar(bb[i])];
      }
      sb := sb + " ";
      AsciiDumpStep(bb, i, before, sb);
      i := i + 1;
    }
    sb := sb + "]";
    return Success(sb);
  }

  /** ascii(bb) is ascii(bb, bb.length), which never fails. */
  method AsciiDumpAll(bb: seq<JByte>) returns (s: string)
    ensures s == AsciiText(bb)
  {
    var r := AsciiDump(bb, |bb|);
    assert bb[..|bb|] == bb;
    s := r.value;
  }

  // ---------------------------------------------------------------- intFromAsciiHex

  /** intFromAsciiHex(b): Integer.parseInt of the one-character string `(char) b`.
      Despite the name this is a decimal parse: only '0'..'9' succeed, anything else
      (including 'A'..'F' and the chars U+FF80..U+FFFF of negative bytes) throws. */
  function IntFromAsciiHex(b: JByte): (r: Result<int>)
    ensures r.Success? <==> '0' as int <= b <= '9' as int
    ensures r.Success? ==> r.value == b - '0' as int && 0 <= r.value <= 9
    ensures r.Failure? ==> r.error == NumberFormatException
  {
    var c := JavaChar(b);
    if '0' <= c <= '9' then Success(c as int - '0' as int) else Failure(NumberFormatException)
  }
}
