/** The RTP header of sections 5.1 and 5.3.1 of RFC 3550: parser, printer, and the second reading
    of its length that SRTP does. */
module RtpHeader {
  import opened Bytes
  import S = Srtp
  import E = SrtpEndToEnd

  datatype Header = Header(
    version: byte, padding: bool, extension: bool, csrcCount: byte,
    marker: bool, payloadType: byte, sequence: u16, timestamp: u32, ssrc: u32,
    csrc: seq<u32>, extensionData: Option<seq<byte>>)
  {
    function Length(): nat {
      12 + |csrc| * 4 + if extensionData.Some? then |extensionData.value| else 0
    }

    function WithMarker(): Header {
      this.(marker := true)
    }
  }

  function NewHeader(payloadType: byte, sequence: u16, timestamp: u32, ssrc: u32): Header {
    Header(2, false, false, 0, false, payloadType, sequence, timestamp, ssrc, [], None)
  }

  datatype Packet = Packet(header: Header, payload: seq<byte>)

  // ----- Parser

  function Word(data: seq<byte>, at: nat): u32
    requires at + 4 <= |data|
  {
    Be32(data[at..at + 4])
  }

  /** `n` CSRCs from `at` on. */
  function Words(data: seq<byte>, at: nat, n: nat): seq<u32>
    requires at + 4 * n <= |data|
    decreases n
  {
    if n == 0 then [] else [Word(data, at)] + Words(data, at + 4, n - 1)
  }

  /** The header extension, its own header included. */
  function Extension(data: seq<byte>, at: nat): Option<seq<byte>> {
    if |data| < at + 4 then None
    else
      var end := at + 4 + Be16(data[at + 2..at + 4]) * 4;
      if |data| < end then None else Some(data[at..end])
  }

  function Parsed(data: seq<byte>): Option<Header> {
    if |data| < 12 || data[0] / 0x40 != 2 then None
    else
      var csrcCount := data[0] % 0x10;
      var csrcEnd := 12 + csrcCount * 4;
      if |data| < csrcEnd then None
      else
        var extended := data[0] / 0x10 % 2 == 1;
        var extensionData := if extended then Extension(data, csrcEnd) else None;
        if extended && extensionData.None? then None
        else
          Some(Header(2, data[0] / 0x20 % 2 == 1, extended, csrcCount,
                      data[1] / 0x80 == 1, data[1] % 0x80,
                      Be16(data[2..4]), Word(data, 4), Word(data, 8),
                      Words(data, 12, csrcCount), extensionData))
  }

  function ParsedPacket(data: seq<byte>): Option<Packet> {
    match Parsed(data)
    case None => None
    case Some(header) =>
      if header.Length() > |data| then None else Some(Packet(header, data[header.Length()..]))
  }

  // ----- Printer

  /** V, P, X and CC. What does not fit its field is cut off. */
  function FirstByte(h: Header): byte {
    h.version % 4 * 0x40 + (if h.padding then 0x20 else 0) + (if h.extension then 0x10 else 0) + |h.csrc| % 0x10
  }

  function SecondByte(h: Header): byte {
    (if h.marker then 0x80 else 0) + h.payloadType % 0x80
  }

  function PrintedWords(words: seq<u32>): (s: seq<byte>)
    ensures |s| == 4 * |words|
  {
    if words == [] then [] else ToBe32(words[0]) + PrintedWords(words[1..])
  }

  function Fixed(h: Header): (s: seq<byte>)
    ensures |s| == 12
  {
    [FirstByte(h), SecondByte(h)] + ToBe16(h.sequence) + ToBe32(h.timestamp) + ToBe32(h.ssrc)
  }

  function Printed(h: Header): (s: seq<byte>)
    ensures |s| == h.Length()
  {
    Fixed(h) + PrintedWords(h.csrc) + h.extensionData.UnwrapOr([])
  }

  function PrintedPacket(p: Packet): seq<byte> {
    Printed(p.header) + p.payload
  }

  // ----- Well-formed headers

  /** A header extension with its length field telling the truth. */
  predicate WellFormedExtension(e: seq<byte>) {
    |e| >= 4 && |e| == 4 + Be16(e[2..4]) * 4
  }

  predicate WellFormed(h: Header) {
    && h.version == 2
    && h.csrcCount == |h.csrc| <= 15
    && h.payloadType < 0x80
    && h.extension == h.extensionData.Some?
    && (h.extensionData.Some? ==> WellFormedExtension(h.extensionData.value))
  }

  // ----- Words

  lemma {:induction false} WordsPrinted(words: seq<u32>, data: seq<byte>, at: nat)
    requires at + 4 * |words| <= |data| && data[at..at + 4 * |words|] == PrintedWords(words)
    ensures Words(data, at, |words|) == words
  {
    if words != [] {
      var s := data[at..at + 4 * |words|];
      assert s[..4] == ToBe32(words[0]) == data[at..at + 4];
      assert s[4..] == PrintedWords(words[1..]) == data[at + 4..at + 4 + 4 * |words[1..]|];
      WordsPrinted(words[1..], data, at + 4);
    }
  }

  lemma {:induction false} PrintedWordsOf(data: seq<byte>, at: nat, n: nat)
    requires at + 4 * n <= |data|
    ensures |Words(data, at, n)| == n
    ensures PrintedWords(Words(data, at, n)) == data[at..at + 4 * n]
    decreases n
  {
    if n > 0 {
      PrintedWordsOf(data, at + 4, n - 1);
      PrintBe32(data[at..at + 4]);
      assert Words(data, at, n)[1..] == Words(data, at + 4, n - 1);
      assert data[at..at + 4] + data[at + 4..at + 4 * n] == data[at..at + 4 * n];
    }
  }

  // ----- Printing what was parsed

  lemma ParsedIsWellFormed(data: seq<byte>)
    requires Parsed(data).Some?
    ensures WellFormed(Parsed(data).value) && Parsed(data).value.Length() <= |data|
  {
    hide Extension, WellFormedExtension, Word;
    var h := Parsed(data).value;
    PrintedWordsOf(data, 12, h.csrcCount);
    if h.extension {
      ExtensionIsWellFormed(data, 12 + h.csrcCount * 4);
    }
  }

  lemma ExtensionIsWellFormed(data: seq<byte>, at: nat)
    requires Extension(data, at).Some?
    ensures var e := Extension(data, at).value;
            WellFormedExtension(e) && at + |e| <= |data| && e == data[at..at + |e|]
  {
    SliceOfSlice(data, at, at + |Extension(data, at).value|, 2, 4);
  }

  lemma FirstByteBack(b: byte, v: byte, p: bool, x: bool, cc: byte)
    requires b / 0x40 == 2 && p == (b / 0x20 % 2 == 1) && x == (b / 0x10 % 2 == 1) && cc == b % 0x10 && v == 2
    ensures b == v % 4 * 0x40 + (if p then 0x20 else 0) + (if x then 0x10 else 0) + cc % 0x10
  {
  }

  lemma SecondByteBack(b: byte)
    ensures b == (if b / 0x80 == 1 then 0x80 else 0) + b % 0x80 % 0x80
  {
  }

  /** The fields of a parsed header, each with the bytes it came from. */
  lemma FieldsBack(data: seq<byte>)
    requires Parsed(data).Some?
    ensures var h := Parsed(data).value;
            && |data| >= 12 && FirstByte(h) == data[0] && SecondByte(h) == data[1]
            && ToBe16(h.sequence) == data[2..4] && ToBe32(h.timestamp) == data[4..8] && ToBe32(h.ssrc) == data[8..12]
  {
    hide Be16, Be32, ToBe16, ToBe32, Extension;
    var h := Parsed(data).value;
    PrintedWordsOf(data, 12, h.csrcCount);
    hide Words;
    FirstByteBack(data[0], 2, h.padding, h.extension, h.csrcCount);
    SecondByteBack(data[1]);
    PrintBe16(data[2..4]);
    PrintBe32(data[4..8]);
    PrintBe32(data[8..12]);
  }

  lemma FixedBack(data: seq<byte>)
    requires Parsed(data).Some?
    ensures Fixed(Parsed(data).value) == data[..12]
  {
    hide Parsed, FirstByte, SecondByte, ToBe16, ToBe32;
    FieldsBack(data);
    assert data[..12] == [data[0], data[1]] + data[2..4] + data[4..8] + data[8..12];
  }

  /** A parsed header prints to the bytes it was parsed from. */
  lemma PrintsBack(data: seq<byte>)
    requires Parsed(data).Some?
    ensures var h := Parsed(data).value;
            h.Length() <= |data| && Printed(h) == data[..h.Length()]
  {
    hide Fixed, Extension, WellFormedExtension, Word;
    var h := Parsed(data).value;
    ParsedIsWellFormed(data);
    FixedBack(data);
    var csrcEnd := 12 + 4 * h.csrcCount;
    PrintedWordsOf(data, 12, h.csrcCount);
    assert data[..12] + data[12..csrcEnd] == data[..csrcEnd];
    if h.extension {
      ExtensionIsWellFormed(data, csrcEnd);
      assert data[..csrcEnd] + data[csrcEnd..h.Length()] == data[..h.Length()];
    }
  }

  /** Every accepted packet re-serializes to itself. */
  lemma PacketPrintsBack(data: seq<byte>)
    requires ParsedPacket(data).Some?
    ensures PrintedPacket(ParsedPacket(data).value) == data
  {
    PrintsBack(data);
    var n := Parsed(data).value.Length();
    assert data[..n] + data[n..] == data;
  }

  // ----- Parsing what was printed

  lemma FirstByteParses(h: Header)
    requires WellFormed(h)
    ensures var b := FirstByte(h);
            b / 0x40 == 2 && (b / 0x20 % 2 == 1) == h.padding && (b / 0x10 % 2 == 1) == h.extension
            && b % 0x10 == h.csrcCount
  {
  }

  lemma FixedParses(h: Header, data: seq<byte>)
    requires WellFormed(h) && |data| >= 12 && data[..12] == Fixed(h)
    ensures data[0] == FirstByte(h) && data[1] == SecondByte(h)
    ensures Be16(data[2..4]) == h.sequence && Word(data, 4) == h.timestamp && Word(data, 8) == h.ssrc
  {
    var f := Fixed(h);
    assert data[0] == data[..12][0] && data[1] == data[..12][1];
    assert data[2..4] == data[..12][2..4] && f[2..4] == ToBe16(h.sequence);
    assert data[4..8] == data[..12][4..8] && f[4..8] == ToBe32(h.timestamp);
    assert data[8..12] == data[..12][8..12] && f[8..12] == ToBe32(h.ssrc);
  }

  lemma ExtensionParses(e: seq<byte>, data: seq<byte>, at: nat)
    requires WellFormedExtension(e) && at + |e| <= |data| && data[at..at + |e|] == e
    ensures Extension(data, at) == Some(e)
  {
    SliceOfSlice(data, at, at + |e|, 2, 4);
  }

  /** A well-formed header followed by any payload parses back to itself. */
  lemma ParsesBack(h: Header, payload: seq<byte>)
    requires WellFormed(h)
    ensures Parsed(Printed(h) + payload) == Some(h)
  {
    hide Fixed, FirstByte, SecondByte, Extension, WellFormedExtension, Word;
    var data := Printed(h) + payload;
    var csrcEnd := 12 + 4 * |h.csrc|;
    assert data[..12] == Fixed(h);
    FixedParses(h, data);
    FirstByteParses(h);
    SecondByteParses(h);
    assert data[12..csrcEnd] == PrintedWords(h.csrc);
    WordsPrinted(h.csrc, data, 12);
    if h.extension {
      assert data[csrcEnd..csrcEnd + |h.extensionData.value|] == h.extensionData.value;
      ExtensionParses(h.extensionData.value, data, csrcEnd);
    }
  }

  lemma SecondByteParses(h: Header)
    requires WellFormed(h)
    ensures (SecondByte(h) / 0x80 == 1) == h.marker && SecondByte(h) % 0x80 == h.payloadType
  {
  }

  /** Printing and parsing gives a header back exactly when it is well formed. */
  lemma ParsesBackIff(h: Header, payload: seq<byte>)
    ensures Parsed(Printed(h) + payload) == Some(h) <==> WellFormed(h)
  {
    if WellFormed(h) {
      ParsesBack(h, payload);
    } else if Parsed(Printed(h) + payload) == Some(h) {
      ParsedIsWellFormed(Printed(h) + payload);
    }
  }

  lemma PacketParsesBackIff(p: Packet)
    ensures ParsedPacket(PrintedPacket(p)) == Some(p) <==> WellFormed(p.header)
  {
    ParsesBackIff(p.header, p.payload);
    assert PrintedPacket(p)[p.header.Length()..] == p.payload;
  }

  // ----- The second reading of the length

  /** SRTP's reading of the header length succeeds exactly when the parser does, on version 2,
      and then says the same. */
  lemma LengthsAgree(data: seq<byte>)
    requires data != [] && data[0] / 0x40 == 2
    ensures S.RtpHeaderLen(data) == match Parsed(data) case None => None case Some(h) => Some(h.Length())
  {
    if Parsed(data).Some? {
      PrintedWordsOf(data, 12, data[0] % 0x10);
    }
  }

  /** The parser reads nothing past the header. */
  lemma ParserIsLocal(data: seq<byte>, other: seq<byte>)
    requires Parsed(data).Some?
    requires var n := Parsed(data).value.Length(); n <= |data| && n <= |other| && other[..n] == data[..n]
    ensures Parsed(other) == Parsed(data)
  {
    var h := Parsed(data).value;
    PrintsBack(data);
    ParsedIsWellFormed(data);
    ParsesBack(h, other[h.Length()..]);
    assert other[..h.Length()] + other[h.Length()..] == other;
  }

  /** On both sides of encryption the header is the same: what goes out under SRTP has the
      header of the packet it protects, in the clear. */
  lemma HeaderStaysClear(keys: S.Keys, packet: seq<byte>, roc: u32)
    requires Parsed(packet).Some?
    ensures |packet| >= 12 && S.RtpHeaderLen(packet).Some?
    ensures var sealed := S.Sealed(keys, packet, roc);
            |sealed| >= S.AUTH_TAG_LEN && Parsed(S.Portion(sealed)) == Parsed(packet)
  {
    LengthsAgree(packet);
    E.SealedOpens(keys, packet, roc);
    var n := S.RtpHeaderLen(packet).value;
    var sealed := S.Sealed(keys, packet, roc);
    assert S.Portion(sealed)[..n] == packet[..n];
    ParserIsLocal(packet, S.Portion(sealed));
  }

  // ----- The parser and printer as the program runs them

  method Parse(data: seq<byte>) returns (header: Option<Header>)
    ensures header == Parsed(data)
  {
    hide Word, Words;
    if |data| < 12 {
      return None;
    }
    if data[0] / 0x40 % 4 != 2 {
      return None;
    }
    var csrcCount := data[0] % 0x10;
    var extended := data[0] / 0x10 % 2 == 1;
    var h := Header(2, data[0] / 0x20 % 2 == 1, extended, csrcCount, data[1] / 0x80 == 1, data[1] % 0x80,
                    Be16(data[2..4]), Word(data, 4), Word(data, 8), [], None);
    var csrcEnd := 12 + csrcCount * 4;
    if |data| < csrcEnd {
      return None;
    }
    var csrc := ParseCsrcs(data, csrcCount);
    h := h.(csrc := csrc);
    if extended {
      if |data| < csrcEnd + 4 {
        return None;
      }
      var extEnd := csrcEnd + 4 + Be16(data[csrcEnd + 2..csrcEnd + 4]) * 4;
      if |data| < extEnd {
        return None;
      }
      h := h.(extensionData := Some(data[csrcEnd..extEnd]));
    }
    return Some(h);
  }

  /** The CSRC list, one word at a time. */
  method ParseCsrcs(data: seq<byte>, count: nat) returns (csrc: seq<u32>)
    requires 12 + 4 * count <= |data|
    ensures csrc == Words(data, 12, count)
  {
    csrc := [];
    for i := 0 to count
      invariant csrc + Words(data, 12 + i * 4, count - i) == Words(data, 12, count)
    {
      csrc := csrc + [Word(data, 12 + i * 4)];
    }
    assert csrc + [] == csrc;
  }

  method Print(h: Header) returns (buf: seq<byte>)
    ensures buf == Printed(h)
  {
    buf := [FirstByte(h), SecondByte(h)];
    buf := buf + ToBe16(h.sequence);
    buf := buf + ToBe32(h.timestamp);
    buf := buf + ToBe32(h.ssrc);
    for i := 0 to |h.csrc|
      invariant buf + PrintedWords(h.csrc[i..]) == Fixed(h) + PrintedWords(h.csrc)
    {
      buf := buf + ToBe32(h.csrc[i]);
    }
    if h.extensionData.Some? {
      buf := buf + h.extensionData.value;
    }
  }

  /** The layout of section 5.1 of RFC 3550: each field of a header that parses is where it should be. */
  lemma FieldsAreInPlace(data: seq<byte>)
    requires Parsed(data).Some?
    ensures var h, n := Parsed(data).value, data[0] % 16;
            && |data| >= 12 + 4 * n && data[0] / 64 == 2 == h.version
            && (h.padding <==> data[0] % 64 >= 32) && (h.extension <==> data[0] % 32 >= 16) && h.csrcCount == n
            && (h.marker <==> data[1] >= 128) && h.payloadType == data[1] % 128
            && h.sequence == Be16(data[2..4]) && h.timestamp == Be32(data[4..8]) && h.ssrc == Be32(data[8..12])
            && |h.csrc| == n && forall i :: 0 <= i < n ==> h.csrc[i] == Be32(data[12 + 4 * i..16 + 4 * i])
  {
    WordsAre(data, 12, data[0] % 0x10);
  }

  lemma {:induction false} WordsAre(data: seq<byte>, at: nat, n: nat)
    requires at + 4 * n <= |data|
    ensures |Words(data, at, n)| == n
    ensures forall i :: 0 <= i < n ==> Words(data, at, n)[i] == Be32(data[at + 4 * i..at + 4 * i + 4])
    decreases n
  {
    hide Be32;
    if n > 0 { WordsAre(data, at + 4, n - 1); }
  }
}
