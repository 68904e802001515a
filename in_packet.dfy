/** Packets received from the scale: frame splitting, classification and field extraction
    (InPacket.java). */
module InPackets {
  import opened JavaBytes

  /** Length of the data header, and of the weight sub-frame that follows it. */
  const HEADER_LENGTH: nat := 60
  const WEIGHT_LENGTH: nat := 21

  /** The ASCII markers of the protocol: "PWRQPI," opens a request for patient info,
      "PWCAPI" says the scale will not wait for it, "kg" and "lb" are the weight units. */
  const PATIENT_INFO_REQUEST: seq<JByte> := [0x50, 0x57, 0x52, 0x51, 0x50, 0x49, 0x2C]
  const CANNOT_WAIT: seq<JByte> := [0x50, 0x57, 0x43, 0x41, 0x50, 0x49]
  const KG: seq<JByte> := [0x6B, 0x67]
  const LB: seq<JByte> := [0x6C, 0x62]

  lemma MarkersAreAscii()
    ensures PATIENT_INFO_REQUEST == AsciiBytes("PWRQPI,") && CANNOT_WAIT == AsciiBytes("PWCAPI")
  {
    AsciiBytesAre("PWRQPI,", PATIENT_INFO_REQUEST);
    AsciiBytesAre("PWCAPI", CANNOT_WAIT);
  }

  lemma UnitsAreAscii()
    ensures KG == AsciiBytes("kg") && LB == AsciiBytes("lb")
  {
    AsciiBytesAre("kg", KG);
    AsciiBytesAre("lb", LB);
  }

  /** The type of a packet, InPacket.Type. */
  datatype Type =
    | RequestPatientInfo
    | CannotWaitAnymoreForPatientInfo
    | DataNotWeight
    | Weight
    | Unknown

  /** The six raw calendar fields of a date, before they are handed to java.util.Calendar. */
  datatype Date = Date(year: int, month: int, day: int, hour: int, minute: int, second: int)

  /** A weight in kilograms, kept as the float computation the source performs on the
      7 ASCII bytes of the weight field. */
  datatype Kilograms =
    | Parsed(text: seq<JByte>)      // Float.parseFloat(text): the scale already reported kg
    | FromPounds(text: seq<JByte>)  // round(Float.parseFloat(text) * 0.453592f) to one decimal

  /** Sign extension of the 8 bits of a byte to the 32 bits of a Java int. */
  function SignExtend(x: bv8): bv32
  {
    if x < 0x80 then x as bv32 else (x as bv32) | 0xFFFF_FF00
  }

  /** `(hi << 8) & 0xff00 | (lo << 0) & 0x00ff` on two bytes widened to int. */
  function YearOfBits(h: bv8, l: bv8): int
  {
    (((SignExtend(h) << 8) & 0xff00) | ((SignExtend(l) << 0) & 0x00ff)) as int
  }

  /** The year expression of getMeasureDate and getTrasmissionDate. */
  function JavaYear(hi: JByte, lo: JByte): int
  {
    YearOfBits(ByteBits(hi), ByteBits(lo))
  }

  /** The masks undo the sign extension of both bytes. */
  lemma MasksUndoSignExtension(h: bv8, l: bv8)
    ensures ((SignExtend(h) << 8) & 0xff00) | ((SignExtend(l) << 0) & 0x00ff) == ((h as bv32) << 8) | (l as bv32)
  {
  }

  lemma {:induction false} JoinedBytesValue(h: bv8, l: bv8)
    ensures (((h as bv32) << 8) | (l as bv32)) as int == (h as int) * 256 + l as int
  {
    assert ((h as bv32) << 8) | (l as bv32) == (h as bv32) * 256 + (l as bv32);
  }

  lemma {:induction false} YearOfBitsValue(h: bv8, l: bv8)
    ensures YearOfBits(h, l) == (h as int) * 256 + l as int
  {
    MasksUndoSignExtension(h, l);
    JoinedBytesValue(h, l);
  }

  /** The year is the little-endian unsigned 16-bit value of the two bytes. */
  lemma {:induction false} YearIsLittleEndian(hi: JByte, lo: JByte)
    ensures JavaYear(hi, lo) == Unsigned(hi) * 256 + Unsigned(lo)
    ensures 0 <= JavaYear(hi, lo) < 65536
  {
    YearOfBitsValue(ByteBits(hi), ByteBits(lo));
    ByteBitsValue(hi);
    ByteBitsValue(lo);
  }

  /** An incoming packet: the bytes copied out of the read buffer. The byte array of the
      source is assigned only by the constructor, so the packet is a value. */
  datatype InPacket = InPacket(packet: seq<JByte>)
  {
    /** "PWRQPI," followed by the two digits of a patient number. */
    predicate IsRequestPatientInfo()
      ensures IsRequestPatientInfo() <==> |packet| == 9 && packet[..7] == PATIENT_INFO_REQUEST
    {
      |packet| == 9 && packet[0] == 0x50 && packet[1] == 0x57 && packet[2] == 0x52 && packet[3] == 0x51
      && packet[4] == 0x50 && packet[5] == 0x49 && packet[6] == 0x2C
    }

    /** "PWCAPI": the scale will not wait for the patient info any longer. */
    predicate IsCannotWait()
      ensures IsCannotWait() <==> packet == CANNOT_WAIT
    {
      |packet| == 6 && packet[0] == 0x50 && packet[1] == 0x57 && packet[2] == 0x43 && packet[3] == 0x41
      && packet[4] == 0x50 && packet[5] == 0x49
    }

    /** A data packet of the UC-351PBT-Ci model: a full header, 0x02 first and the model
        bytes 0x42 0x01 at offset 6. */
    predicate IsData()
      ensures IsData() ==> |packet| >= HEADER_LENGTH && packet[6..8] == [0x42, 0x01]
      ensures IsData() ==> !IsRequestPatientInfo() && !IsCannotWait()
    {
      if |packet| < HEADER_LENGTH then false
      else if packet[0] != 0x02 then false
      else packet[6] == 0x42 && packet[7] == 0x01
    }

    /** A data packet carrying exactly one weight sub-frame. */
    predicate IsWeight()
      ensures IsWeight() ==> IsData() && |packet| == HEADER_LENGTH + WEIGHT_LENGTH
      ensures IsWeight() ==> packet[1..3] == [0x00, 0x15] && packet[60] == 0x53
    {
      if !IsData() then false
      else if |packet| != HEADER_LENGTH + WEIGHT_LENGTH then false
      else packet[0] == 0x02 && packet[1] == 0x00 && packet[2] == 0x15 && packet[60] == 0x53
    }

    /** getType(): the first of the checks that holds, in the source's order. */
    function GetType(): (t: Type)
      ensures t == RequestPatientInfo <==> |packet| == 9 && packet[..7] == PATIENT_INFO_REQUEST
      ensures t == CannotWaitAnymoreForPatientInfo <==> packet == CANNOT_WAIT
      ensures t == Weight <==> IsWeight()
      ensures t == DataNotWeight <==> IsData() && !IsWeight()
    {
      if IsRequestPatientInfo() then RequestPatientInfo
      else if IsCannotWait() then CannotWaitAnymoreForPatientInfo
      else if IsData() then (if IsWeight() then Weight else DataNotWeight)
      else Unknown
    }

    /** The six date fields stored from `offset` on: the year as two little-endian bytes,
        then month, day, hour, minute and second, each read as a signed byte. */
    function DateAt(offset: nat): (d: Date)
      requires offset + 7 <= |packet|
      ensures d.year == Unsigned(packet[offset + 1]) * 256 + Unsigned(packet[offset])
      ensures d.month == packet[offset + 2] && d.day == packet[offset + 3] && d.hour == packet[offset + 4]
      ensures d.minute == packet[offset + 5] && d.second == packet[offset + 6]
    {
      YearIsLittleEndian(packet[offset + 1], packet[offset]);
      Date(JavaYear(packet[offset + 1], packet[offset]), packet[offset + 2], packet[offset + 3],
           packet[offset + 4], packet[offset + 5], packet[offset + 6])
    }

    /** getMeasureDate(): the date at offset 9 of a data packet. */
    function MeasureDate(): (r: Result<Date>)
      ensures r.Failure? <==> !IsData()
      ensures r.Failure? ==> r.error == PacketExpection(NotData)
      ensures r.Success? ==> r.value.year == Unsigned(packet[10]) * 256 + Unsigned(packet[9])
      ensures r.Success? ==> 0 <= r.value.year < 65536
      ensures r.Success? ==> r.value == Date(Unsigned(packet[10]) * 256 + Unsigned(packet[9]),
                                             packet[11], packet[12], packet[13], packet[14], packet[15])
    {
      if !IsData() then Failure(PacketExpection(NotData))
      else
        YearIsLittleEndian(packet[10], packet[9]);
        Success(DateAt(9))
    }

    /** getTrasmissionDate(): the date at offset 16 of a data packet. */
    function TransmissionDate(): (r: Result<Date>)
      ensures r.Failure? <==> !IsData()
      ensures r.Failure? ==> r.error == PacketExpection(NotData)
      ensures r.Success? ==> r.value.year == Unsigned(packet[17]) * 256 + Unsigned(packet[16])
      ensures r.Success? ==> 0 <= r.value.year < 65536
      ensures r.Success? ==> r.value == Date(Unsigned(packet[17]) * 256 + Unsigned(packet[16]),
                                             packet[18], packet[19], packet[20], packet[21], packet[22])
    {
      if !IsData() then Failure(PacketExpection(NotData))
      else
        YearIsLittleEndian(packet[17], packet[16]);
        Success(DateAt(16))
    }

    /** getWeight(), stated on absolute offsets: the sub-frame starts at 60, so its status
        byte is 61, the weight text 63..69 and the unit 70..71. `floatSyntax` tells which
        texts Float.parseFloat accepts; it throws NumberFormatException on the others. */
    function WeightOf(floatSyntax: seq<JByte> -> bool): (r: Result<Kilograms>)
      ensures r.Success? || r.error == InvalidMeasureException ==> GetType() == Weight
      ensures r.Success? ==> (packet[61] == 'T' as int || packet[61] == 'L' as int) && floatSyntax(packet[63..70])
      ensures r.Success? ==> r.value.text == packet[63..70]
      ensures r.Success? ==> (r.value.Parsed? <==> packet[70..72] == KG)
      ensures r.Success? ==> (r.value.FromPounds? <==> packet[70..72] == LB)
    {
      if !IsWeight() then Failure(PacketExpection(NotAWeight))
      else
        var status := packet[61];
        if status == 'E' as int then Failure(InvalidMeasureException)
        else if status != 'T' as int && status != 'L' as int then Failure(PacketExpection(NotAWeight))
        else
          var text := packet[63..70];
          var unit := packet[70..72];
          if !floatSyntax(text) then Failure(NumberFormatException)
          else if unit == KG then Success(Parsed(text))
          else if unit == LB then Success(FromPounds(text))
          else Failure(PacketExpection(NotAWeight))
    }
  }

  /** The candidate checks of getType exclude one another, so their order does not
      change the type: a packet matching two of them does not exist. */
  lemma CandidatesAreExclusive(p: InPacket)
    ensures !(p.IsRequestPatientInfo() && p.IsCannotWait())
    ensures !(p.IsRequestPatientInfo() && p.IsData())
    ensures !(p.IsCannotWait() && p.IsData())
  {
  }

  /** A packet shorter than the header, or without the data marker, or without the model
      bytes, is never a data packet of either kind. */
  lemma NotDataIsNeverWeight(p: InPacket)
    requires |p.packet| < HEADER_LENGTH || p.packet[0] != 0x02 || p.packet[6..8] != [0x42, 0x01]
    ensures p.GetType() != DataNotWeight && p.GetType() != Weight
  {
    assert |p.packet| >= HEADER_LENGTH ==> p.packet[6..8] == [p.packet[6], p.packet[7]];
  }

  /** WEIGHT refines data: a weight packet is a data packet of exactly 81 bytes with the
      weight markers, so its measure date always exists. */
  lemma WeightRefinesData(p: InPacket)
    requires p.IsWeight()
    ensures p.IsData() && |p.packet| == 81
    ensures p.packet[1..3] == [0x00, 0x15] && p.packet[60] == 0x53
    ensures p.MeasureDate().Success?
  {
  }

  /** The outcomes of getWeight on a weight packet, in the order the source checks them. */
  lemma WeightOutcomes(p: InPacket, floatSyntax: seq<JByte> -> bool)
    ensures !p.IsWeight() ==> p.WeightOf(floatSyntax) == Failure(PacketExpection(NotAWeight))
    ensures p.IsWeight() && p.packet[61] == 'E' as int ==> p.WeightOf(floatSyntax) == Failure(InvalidMeasureException)
    ensures p.IsWeight() && p.packet[61] !in {'T' as int, 'L' as int, 'E' as int} ==>
              p.WeightOf(floatSyntax) == Failure(PacketExpection(NotAWeight))
    ensures p.IsWeight() && p.packet[61] in {'T' as int, 'L' as int} && floatSyntax(p.packet[63..70]) ==>
              p.WeightOf(floatSyntax) ==
                if p.packet[70..72] == KG then Success(Parsed(p.packet[63..70]))
                else if p.packet[70..72] == LB then Success(FromPounds(p.packet[63..70]))
                else Failure(PacketExpection(NotAWeight))
    ensures p.IsWeight() && p.packet[61] in {'T' as int, 'L' as int} && !floatSyntax(p.packet[63..70]) ==>
              p.WeightOf(floatSyntax) == Failure(NumberFormatException)
  {
  }

  // ---------------------------------------------------------------- imperative parts

  /** The packets parseStream makes of one read chunk. */
  function SplitChunk(chunk: seq<JByte>): (r: seq<InPacket>)
    requires |chunk| >= 1
    ensures |r| == 1 ==> r[0].packet == chunk
    ensures |r| == 2 ==> |r[0].packet| == 6 && r[0].packet + r[1].packet == chunk
    ensures |r| == 1 || |r| == 2
  {
    if chunk[0] == 0x50 && |chunk| > 9 then [InPacket(chunk[..6]), InPacket(chunk[6..])]
    else [InPacket(chunk)]
  }

  /** The bytes of a list of packets, one after the other. */
  function Concat(ps: seq<InPacket>): seq<JByte>
  {
    if ps == [] then [] else Concat(ps[..|ps| - 1]) + ps[|ps| - 1].packet
  }

  /** A chunk that starts with 'P' and is longer than 9 bytes is a 6-byte packet followed by
      the rest; any other chunk is one packet. */
  lemma SplitChunkCases(chunk: seq<JByte>)
    requires |chunk| >= 1
    ensures chunk[0] == 0x50 && |chunk| > 9 ==>
              |SplitChunk(chunk)| == 2 && SplitChunk(chunk)[0].packet == chunk[..6] && SplitChunk(chunk)[1].packet == chunk[6..]
    ensures !(chunk[0] == 0x50 && |chunk| > 9) ==> SplitChunk(chunk) == [InPacket(chunk)]
  {
  }

  /** Splitting loses and duplicates nothing. */
  lemma SplitChunkIsLossless(chunk: seq<JByte>)
    requires |chunk| >= 1
    ensures Concat(SplitChunk(chunk)) == chunk
    ensures 1 <= |SplitChunk(chunk)| <= 2
  {
    var ps := SplitChunk(chunk);
    if |ps| == 2 {
      assert ps[..1][..0] == [];
      assert Concat(ps[..1]) == chunk[..6];
      assert chunk[..6] + chunk[6..] == chunk;
    } else {
      assert ps[..0] == [];
    }
  }

  /** new InPacket(buffer, length): a packet holding a copy of the first `length` bytes. */
  method NewInPacket(buffer: array<JByte>, length: nat) returns (p: InPacket)
    requires length <= buffer.Length
    ensures p.packet == buffer[..length]
  {
    var copy := CopyRange(buffer[..], 0, length);
    p := InPacket(copy[..]);
  }

  /** parseStream(buffer, length): a chunk that starts with 'P' and is longer than 9 bytes
      is a 6-byte control packet followed by another packet; any other chunk is one packet.
      The source reads tmp[0] and allocates `length` bytes, hence 1 <= length. */
  method ParseStream(buffer: array<JByte>, length: nat) returns (packets: seq<InPacket>)
    requires 1 <= length <= buffer.Length
    ensures packets == SplitChunk(buffer[..length])
  {
    var tmp := CopyRange(buffer[..], 0, length);
    assert tmp[..] == buffer[..length];

    if tmp[0] == 0x50 && tmp.Length > 9 {
      var b1 := CopyRange(tmp[..], 0, 6);
      var b2 := CopyRange(tmp[..], b1.Length, tmp.Length - b1.Length);

      var p1 := NewInPacket(b1, b1.Length);
      var p2 := NewInPacket(b2, b2.Length);
      packets := [p1, p2];
      assert p1.packet == b1[..b1.Length] == buffer[..length][..6];
      assert p2.packet == b2[..b2.Length] == buffer[..length][6..];
    } else {
      var p := NewInPacket(tmp, tmp.Length);
      packets := [p];
      assert p.packet == tmp[..tmp.Length] == buffer[..length];
    }
  }

  /** getPatientNumber(): Integer.parseInt of the two bytes at sub-frame offset 17, that is
      bytes 77..78 of a weight packet. `parseInt` stands for the library decoding of the
      bytes to a String and its parse (None: NumberFormatException). */
  method GetPatientNumber(p: InPacket, parseInt: seq<JByte> -> Option<int>) returns (r: Result<int>)
    ensures !p.IsWeight() ==> r == Failure(PacketExpection(NotAWeight))
    ensures p.IsWeight() && parseInt(p.packet[77..79]).Some? ==> r == Success(parseInt(p.packet[77..79]).value)
    ensures p.IsWeight() && parseInt(p.packet[77..79]).None? ==> r == Failure(NumberFormatException)
  {
    if !p.IsWeight() {
      return Failure(PacketExpection(NotAWeight));
    }

    var ww := CopyRange(p.packet, HEADER_LENGTH, WEIGHT_LENGTH);
    var patientBytes := CopyRange(ww[..], 17, 2);
    assert patientBytes[..] == p.packet[77..79];

    match parseInt(patientBytes[..])
    case Some(patient) => r := Success(patient);
    case None => r := Failure(NumberFormatException);
  }

  /** getWeight(): copies the 21-byte sub-frame out of the packet, checks its marker and
      status, copies the weight text and the unit, parses and converts. It computes exactly
      `WeightOf`; every copy is in bounds, so the ArrayIndexOutOfBoundsException handler is
      never entered, and the re-check of the 'S' marker never fails. */
  method GetWeight(p: InPacket, floatSyntax: seq<JByte> -> bool) returns (r: Result<Kilograms>)
    ensures r == p.WeightOf(floatSyntax)
  {
    if !p.IsWeight() {
      return Failure(PacketExpection(NotAWeight));
    }

    var ww := CopyRange(p.packet, HEADER_LENGTH, WEIGHT_LENGTH);
    assert ww[0] == p.packet[60] && ww[1] == p.packet[61];

    // the source throws PacketExpection when ww[0] != 0x53; isWeight already checked it
    assert ww[0] == 0x53;

    var status := JavaChar(ww[1]);
    if status == 'E' {
      return Failure(InvalidMeasureException);
    } else if status != 'T' && status != 'L' {
      return Failure(PacketExpection(NotAWeight));
    }

    var weightBytes := CopyRange(ww[..], 3, 7);
    assert weightBytes[..] == p.packet[63..70];
    var unitBytes := CopyRange(ww[..], 10, 2);
    assert unitBytes[..] == p.packet[70..72];

    if !floatSyntax(weightBytes[..]) {
      return Failure(NumberFormatException);
    }

    if unitBytes[..] == KG {
      r := Success(Parsed(weightBytes[..]));
    } else if unitBytes[..] == LB {
      r := Success(FromPounds(weightBytes[..]));
    } else {
      r := Failure(PacketExpection(NotAWeight));
    }
  }
}
