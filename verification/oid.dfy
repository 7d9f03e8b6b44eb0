/**
 * Object identifiers and the object-id header line of a commit buffer
 * (`tree <hex>\n`, `parent <hex>\n`), as read by `git_oid__parse`.
 */
module Oid {
  import opened Results
  import opened Text

  /** Bytes in a raw object id. */
  const RawSize := 20
  /** Hexadecimal digits in a textual object id. */
  const HexSize := 40

  type Byte = x: int | 0 <= x < 256

  /** A 20-byte object identifier; equality is byte-wise. */
  datatype ObjectId = ObjectId(bytes: seq<Byte>) {
    predicate Valid() {
      |bytes| == RawSize
    }
  }

  // ---------------------------------------------------------------------
  // Hexadecimal text

  /** The bytes a run of hexadecimal digit pairs spells, in either case. */
  function DecodeHex(h: seq<char>): (b: seq<Byte>)
    requires |h| % 2 == 0 && AllHex(h)
    ensures 2 * |b| == |h|
    decreases |h|
  {
    if |h| == 0 then [] else [HexValue(h[0]) * 16 + HexValue(h[1])] + DecodeHex(h[2..])
  }

  /** Byte `i` of the decoded text is the value of digit pair `i`, high digit first. */
  lemma {:induction false} DecodeHexAt(h: seq<char>, i: nat)
    requires |h| % 2 == 0 && AllHex(h) && 2 * i + 1 < |h|
    ensures DecodeHex(h)[i] == HexValue(h[2 * i]) * 16 + HexValue(h[2 * i + 1])
    decreases i
  {
    if i > 0 {
      DecodeHexAt(h[2..], i - 1);
      assert h[2..][2 * (i - 1)] == h[2 * i];
      assert h[2..][2 * (i - 1) + 1] == h[2 * i + 1];
    }
  }

  /** The canonical lower-case hexadecimal text of some bytes. */
  function EncodeHex(b: seq<Byte>): (h: seq<char>)
    ensures |h| == 2 * |b| && AllHex(h) && AllLowerHex(h)
    decreases |b|
  {
    if |b| == 0 then [] else [LowerHexChar(b[0] / 16), LowerHexChar(b[0] % 16)] + EncodeHex(b[1..])
  }

  /** Decoding peels off one digit pair at a time. */
  lemma DecodeStep(h: seq<char>)
    requires |h| >= 2 && |h| % 2 == 0 && AllHex(h)
    ensures |h[2..]| % 2 == 0 && AllHex(h[2..])
    ensures DecodeHex(h) == [HexValue(h[0]) * 16 + HexValue(h[1])] + DecodeHex(h[2..])
  {
  }

  /** Encoding produces one digit pair per byte, high digit first. */
  lemma EncodeStep(b: seq<Byte>)
    requires |b| > 0
    ensures |EncodeHex(b)| >= 2
    ensures EncodeHex(b)[0] == LowerHexChar(b[0] / 16) && EncodeHex(b)[1] == LowerHexChar(b[0] % 16)
    ensures EncodeHex(b)[2..] == EncodeHex(b[1..])
  {
  }

  /** Folding to lower case works digit by digit. */
  lemma LowerHexStep(h: seq<char>)
    requires |h| >= 2 && AllHex(h)
    ensures AllHex(h[2..])
    ensures LowerHex(h)[0] == LowerHexChar(HexValue(h[0])) && LowerHex(h)[1] == LowerHexChar(HexValue(h[1]))
    ensures LowerHex(h)[2..] == LowerHex(h[2..])
  {
    var l := LowerHex(h);
    LowerHexCharOfValue(l[0]);
    LowerHexCharOfValue(l[1]);
  }

  /** Two texts agreeing on their first two characters and on the rest are equal. */
  lemma SameByPairs(x: seq<char>, y: seq<char>)
    requires |x| >= 2 && |y| >= 2 && x[0] == y[0] && x[1] == y[1] && x[2..] == y[2..]
    ensures x == y
  {
    assert x == [x[0], x[1]] + x[2..];
    assert y == [y[0], y[1]] + y[2..];
  }

  /** A byte is its high digit times sixteen plus its low digit. */
  lemma ByteDigits(x: Byte)
    ensures HexValue(LowerHexChar(x / 16)) * 16 + HexValue(LowerHexChar(x % 16)) == x
  {
  }

  /** Decoding the canonical text gives back the bytes. */
  lemma {:induction false} DecodeEncode(b: seq<Byte>)
    ensures DecodeHex(EncodeHex(b)) == b
    decreases |b|
  {
    if |b| > 0 {
      var h := EncodeHex(b);
      EncodeStep(b);
      DecodeStep(h);
      DecodeEncode(b[1..]);
      ByteDigits(b[0]);
      assert b == [b[0]] + b[1..];
    }
  }

  /** Encoding decoded text gives that text folded to lower case. */
  lemma {:induction false} EncodeDecode(h: seq<char>)
    requires |h| % 2 == 0 && AllHex(h)
    ensures EncodeHex(DecodeHex(h)) == LowerHex(h)
    decreases |h|
  {
    if |h| > 0 {
      var b := DecodeHex(h);
      DecodeStep(h);
      EncodeStep(b);
      assert b[1..] == DecodeHex(h[2..]);
      EncodeDecode(h[2..]);
      var v := HexValue(h[0]) * 16 + HexValue(h[1]);
      assert v / 16 == HexValue(h[0]) && v % 16 == HexValue(h[1]);
      LowerHexStep(h);
      SameByPairs(EncodeHex(b), LowerHex(h));
    }
  }

  /** Two id texts name the same object exactly when they agree up to letter case. */
  lemma SameIdIgnoringCase(h1: seq<char>, h2: seq<char>)
    requires |h1| % 2 == 0 && AllHex(h1)
    requires |h2| % 2 == 0 && AllHex(h2)
    ensures DecodeHex(h1) == DecodeHex(h2) <==> LowerHex(h1) == LowerHex(h2)
  {
    EncodeDecode(h1);
    EncodeDecode(h2);
    if LowerHex(h1) == LowerHex(h2) {
      var b1, b2 := DecodeHex(h1), DecodeHex(h2);
      assert |b1| == |b2|;
      forall i | 0 <= i < |b1|
        ensures b1[i] == b2[i]
      {
        DecodeHexAt(h1, i);
        DecodeHexAt(h2, i);
        assert HexValue(h1[2 * i]) == HexValue(LowerHex(h1)[2 * i]) == HexValue(h2[2 * i]);
        assert HexValue(h1[2 * i + 1]) == HexValue(LowerHex(h1)[2 * i + 1]) == HexValue(h2[2 * i + 1]);
      }
    }
  }

  // ---------------------------------------------------------------------
  // Header lines

  /**
   * Reads `header`, then exactly 40 hexadecimal digits, then '\n', from the
   * start of `s` (the text from the cursor to the end of the buffer). The
   * header is compared character for character, so it carries its own
   * separator. Returns the id and the length of the line.
   */
  function ParseOidLine(s: seq<char>, header: seq<char>): (r: Result<(ObjectId, nat)>)
    ensures r.Ok? ==> r.value.0.Valid() && r.value.1 == |header| + HexSize + 1 <= |s|
    ensures r.Ok? ==> s[..|header|] == header && s[r.value.1 - 1] == '\n'
    ensures r.Err? ==> r.error == MalformedHeader
  {
    var idEnd := |header| + HexSize;
    if |s| < idEnd + 1 then Err(MalformedHeader)
    else if s[..|header|] != header then Err(MalformedHeader)
    else if s[idEnd] != '\n' then Err(MalformedHeader)
    else if !AllHex(s[|header|..idEnd]) then Err(MalformedHeader)
    else Ok((ObjectId(DecodeHex(s[|header|..idEnd])), idEnd + 1))
  }

  /** The canonical header line for an id. */
  function FormatOidLine(header: seq<char>, id: ObjectId): (line: seq<char>)
    requires id.Valid()
    ensures |line| == |header| + HexSize + 1
  {
    header + EncodeHex(id.bytes) + "\n"
  }

  /** `s` starts with the header, 40 hexadecimal digits `hex` and a newline. */
  ghost predicate OidLineAt(s: seq<char>, header: seq<char>, hex: seq<char>) {
    && |hex| == HexSize && AllHex(hex)
    && |header| + HexSize + 1 <= |s|
    && s[..|header| + HexSize + 1] == header + hex + "\n"
  }

  /** A header, 40 hexadecimal digits of either case and a newline always parse, to the id they spell. */
  lemma OidLineAccepts(header: seq<char>, hex: seq<char>, rest: seq<char>)
    requires |hex| == HexSize && AllHex(hex)
    ensures Parsed(ParseOidLine(header + hex + "\n" + rest, header), ObjectId(DecodeHex(hex)), |header| + HexSize + 1)
  {
    var s := header + hex + "\n" + rest;
    assert s[..|header|] == header;
    assert s[|header|..|header| + HexSize] == hex;
    assert s[|header| + HexSize] == '\n';
  }

  /**
   * The header parser accepts exactly the lines of `OidLineAt`, and the id
   * it returns is the one the hexadecimal text spells, whatever its case.
   */
  lemma OidLineExactly(s: seq<char>, header: seq<char>)
    ensures ParseOidLine(s, header).Ok? <==> exists hex :: OidLineAt(s, header, hex)
    ensures forall hex | OidLineAt(s, header, hex) ::
              Parsed(ParseOidLine(s, header), ObjectId(DecodeHex(hex)), |header| + HexSize + 1)
  {
    var idEnd := |header| + HexSize;
    forall hex | OidLineAt(s, header, hex)
      ensures Parsed(ParseOidLine(s, header), ObjectId(DecodeHex(hex)), idEnd + 1)
    {
      var line := s[..idEnd + 1];
      assert line[..|header|] == s[..|header|];
      assert line[|header|..idEnd] == s[|header|..idEnd];
      assert line[idEnd] == s[idEnd];
    }
    if ParseOidLine(s, header).Ok? {
      var hex := s[|header|..idEnd];
      assert s[..idEnd + 1] == s[..|header|] + hex + "\n";
      assert OidLineAt(s, header, hex);
    }
  }

  /** Formatting an id as a header line and reading it back gives the id, whatever follows the line. */
  lemma OidLineRoundTrip(header: seq<char>, id: ObjectId, rest: seq<char>)
    requires id.Valid()
    ensures Parsed(ParseOidLine(FormatOidLine(header, id) + rest, header), id, |FormatOidLine(header, id)|)
  {
    var hex := EncodeHex(id.bytes);
    assert FormatOidLine(header, id) + rest == header + hex + "\n" + rest;
    OidLineAccepts(header, hex, rest);
    DecodeEncode(id.bytes);
  }

  /**
   * The header parser reads nothing past its newline: text that agrees with
   * a parsed line up to it parses the same way.
   */
  lemma OidLineLocal(u: seq<char>, v: seq<char>, header: seq<char>)
    requires ParseOidLine(u, header).Ok?
    requires var n := ParseOidLine(u, header).value.1; n <= |v| && v[..n] == u[..n]
    ensures Parsed(ParseOidLine(v, header), ParseOidLine(u, header).value.0, ParseOidLine(u, header).value.1)
  {
    var n := |header| + HexSize + 1;
    assert forall k | 0 <= k < n :: v[k] == v[..n][k] == u[..n][k] == u[k];
    assert v[..|header|] == u[..|header|];
    assert v[|header|..n - 1] == u[|header|..n - 1];
  }

  /** Cut anywhere before its newline, a header line no longer parses. */
  lemma OidLineTruncated(s: seq<char>, header: seq<char>, k: nat)
    requires k <= |s| && ParseOidLine(s, header).Ok? && k < ParseOidLine(s, header).value.1
    ensures ParseOidLine(s[..k], header).Err?
  {
  }

  /** A prefix of text that is not a header line is not one either. */
  lemma OidLineCut(s: seq<char>, header: seq<char>, k: nat)
    requires k <= |s| && ParseOidLine(s, header).Err?
    ensures ParseOidLine(s[..k], header).Err?
  {
    if ParseOidLine(s[..k], header).Ok? {
      var n := |header| + HexSize + 1;
      assert s[..k][..n] == s[..n];
      OidLineLocal(s[..k], s, header);
    }
  }
}
