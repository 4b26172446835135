/** The chunked transfer coding (section 4.1 of RFC 7230) as the decoder understands it: a reference
    decoder on whole byte strings, and the grammar it accepts. */
module ChunkedGrammar {
  import opened Strconv

  const CRLF: string := "\r\n"

  /** How a decoded stream stops. The two CutOff cases are a source that ends too early. */
  datatype Ending = Complete | CutOff | CutOffAtChunkEnd | BadLine | BadSize | SizeTooLarge | BadChunkEnd | BadFinalLine

  /** All the payload a stream yields, why it stops, and the bytes left unread in the source. */
  datatype Outcome = Outcome(payload: string, ending: Ending, rest: string) {
    function After(first: string): Outcome {
      Outcome(first + payload, ending, rest)
    }
  }

  datatype LineResult = Line(text: string, rest: string) | LineCut | LineBad(rest: string)

  /** A line ends at its first CR, which LF must follow. */
  function SplitLine(s: string): (r: LineResult)
    ensures r.Line? ==> '\r' !in r.text && s == r.text + CRLF + r.rest
    ensures r.Line? || r.LineBad? ==> |r.rest| <= |s| - 2
  {
    var i := IndexOf(s, '\r');
    if i < 0 || i + 1 == |s| then LineCut
    else if s[i + 1] != '\n' then LineBad(s[i + 2..])
    else
      assert s == s[..i] + [s[i], s[i + 1]] + s[i + 2..];
      Line(s[..i], s[i + 2..])
  }

  lemma SplitLineAt(text: string, rest: string)
    requires '\r' !in text
    ensures SplitLine(text + CRLF + rest) == Line(text, rest)
  {
    var s := text + CRLF + rest;
    assert s == text + ['\r'] + (['\n'] + rest);
    IndexOfSplit(text, '\r', ['\n'] + rest);
    assert s[|text| + 2..] == rest;
  }

  /** The size text of a chunk's first line: what precedes any extension. */
  function SizeText(line: string): string {
    var i := IndexOf(line, ';');
    if i < 0 then line else line[..i]
  }

  function ChunkSize(line: string): (nat, Option<NumError>) {
    ParseUint(SizeText(line), 16, MAX_INT31)
  }

  /** Everything a decoder with `left` payload bytes to go (0: at a chunk's first line, negative:
      finished) makes of s. Fragmentation and buffers play no part in it. */
  function Decode(left: int, s: string): (o: Outcome)
    decreases |s|
    ensures |o.payload| + |o.rest| <= |s|
  {
    if left < 0 then Outcome("", Complete, s)
    else if left > 0 then
      if |s| < left then Outcome(s, CutOff, "")
      else if |s| < left + 2 then Outcome(s[..left], CutOffAtChunkEnd, "")
      else if s[left..left + 2] != CRLF then Outcome(s[..left], BadChunkEnd, s[left + 2..])
      else Decode(0, s[left + 2..]).After(s[..left])
    else
      match SplitLine(s)
      case LineCut => Outcome("", CutOff, "")
      case LineBad(rest) => Outcome("", BadLine, rest)
      case Line(text, rest) =>
        var (size, err) := ChunkSize(text);
        if err.Some? then Outcome("", if err.value.ErrSyntax? then BadSize else SizeTooLarge, rest)
        else if size > 0 then Decode(size, rest)
        else LastLine(rest)
  }

  /** Behind the last chunk's first line there must be one more CRLF; trailers are not understood. */
  function LastLine(s: string): (o: Outcome)
    ensures |o.rest| <= |s|
    ensures o.payload == ""
  {
    if |s| < 2 then Outcome("", CutOff, "")
    else if s[..2] != CRLF then Outcome("", BadFinalLine, s[2..])
    else Outcome("", Complete, s[2..])
  }

  /** One chunk: its size text (hex digits of either case, with any leading zeros), extension, and payload. */
  datatype Chunk = Chunk(size: string, ext: string, payload: string) {
    ghost predicate Valid() {
      && Denotes(size, |payload|, 16) && |payload| <= MAX_INT31
      && '\r' !in ext && (ext == "" || ext[0] == ';')
    }
  }

  /** A message: chunks with a payload, then the last chunk, which has none. No trailers. */
  ghost predicate ValidMessage(chunks: seq<Chunk>, last: Chunk) {
    && (forall c | c in chunks :: c.Valid() && c.payload != "")
    && last.Valid() && last.payload == ""
  }

  function Encode(chunks: seq<Chunk>, last: Chunk): string {
    if chunks == [] then last.size + last.ext + CRLF + CRLF
    else chunks[0].size + chunks[0].ext + CRLF + chunks[0].payload + CRLF + Encode(chunks[1..], last)
  }

  function Payload(chunks: seq<Chunk>): string {
    if chunks == [] then "" else chunks[0].payload + Payload(chunks[1..])
  }

  /** The first line of a valid chunk reads back as its size. */
  lemma ChunkLine(c: Chunk)
    requires c.Valid()
    ensures '\r' !in c.size + c.ext
    ensures ChunkSize(c.size + c.ext) == (|c.payload|, None)
  {
    ParseDenotesIff(c.size, |c.payload|, 16, MAX_INT31);
    ParseUintIff(c.size, 16, MAX_INT31);
    if c.ext == "" {
      assert c.size + c.ext == c.size;
    } else {
      assert c.size + c.ext == c.size + [';'] + c.ext[1..];
      IndexOfSplit(c.size, ';', c.ext[1..]);
    }
  }

  /** One chunk in front of `more` is delivered, and decoding goes on there. */
  lemma DecodeChunk(c: Chunk, more: string)
    requires c.Valid() && c.payload != ""
    ensures Decode(0, (c.size + c.ext) + CRLF + (c.payload + CRLF + more)) == Decode(0, more).After(c.payload)
  {
    ChunkLine(c);
    var body := c.payload + CRLF + more;
    SplitLineAt(c.size + c.ext, body);
    var n := |c.payload|;
    assert body[..n] == c.payload;
    assert body[n..n + 2] == CRLF;
    assert body[n + 2..] == more;
    assert Decode(n, body) == Decode(0, more).After(c.payload);
  }

  lemma DecodeLast(last: Chunk, tail: string)
    requires last.Valid() && last.payload == ""
    ensures Decode(0, (last.size + last.ext) + CRLF + (CRLF + tail)) == Outcome("", Complete, tail)
  {
    ChunkLine(last);
    SplitLineAt(last.size + last.ext, CRLF + tail);
    assert (CRLF + tail)[..2] == CRLF && (CRLF + tail)[2..] == tail;
  }

  lemma Regroup(a: string, b: string, c: string, d: string, e: string, f: string, g: string)
    ensures a + b + c + d + e + f + g == (a + b) + c + (d + e + (f + g))
  {
  }

  lemma EncodeRegroup(chunks: seq<Chunk>, last: Chunk, tail: string)
    ensures Encode(chunks, last) + tail ==
            if chunks == [] then (last.size + last.ext) + CRLF + (CRLF + tail)
            else (chunks[0].size + chunks[0].ext) + CRLF
                 + (chunks[0].payload + CRLF + (Encode(chunks[1..], last) + tail))
  {
    if chunks == [] {
      Regroup(last.size, last.ext, CRLF, CRLF, "", "", tail);
      assert last.size + last.ext + CRLF + CRLF + "" + "" == last.size + last.ext + CRLF + CRLF;
      assert CRLF + "" + ("" + tail) == CRLF + tail;
    } else {
      var c := chunks[0];
      Regroup(c.size, c.ext, CRLF, c.payload, CRLF, Encode(chunks[1..], last), tail);
    }
  }

  /** Decoding a valid message gives back exactly its payload and stops right behind it. */
  lemma {:induction false} DecodeEncode(chunks: seq<Chunk>, last: Chunk, tail: string)
    requires ValidMessage(chunks, last)
    ensures Decode(0, Encode(chunks, last) + tail) == Outcome(Payload(chunks), Complete, tail)
  {
    EncodeRegroup(chunks, last, tail);
    if chunks == [] {
      DecodeLast(last, tail);
    } else {
      DecodeEncode(chunks[1..], last, tail);
      DecodeChunk(chunks[0], Encode(chunks[1..], last) + tail);
    }
  }

  /** Splits a first line that parsed into size text and extension. */
  lemma LineIsChunk(line: string, payload: string) returns (c: Chunk)
    requires '\r' !in line && ChunkSize(line) == (|payload|, None)
    ensures c.Valid() && c.size + c.ext == line && c.payload == payload
  {
    var i := IndexOf(line, ';');
    ParseDenotesIff(SizeText(line), |payload|, 16, MAX_INT31);
    hide Denotes;
    if i < 0 {
      c := Chunk(line, "", payload);
      assert line + "" == line;
    } else {
      c := Chunk(line[..i], line[i..], payload);
      assert line[..i] + line[i..] == line;
    }
  }

  lemma InsideChunk(left: nat, s: string)
    requires left > 0 && Decode(left, s).ending == Complete
    ensures |s| >= left + 2
    ensures s == s[..left] + CRLF + s[left + 2..]
    ensures Decode(left, s) == Decode(0, s[left + 2..]).After(s[..left])
  {
    SplitAround(s, left);
  }

  lemma SplitAround(s: string, i: nat)
    requires i + 2 <= |s|
    ensures s == s[..i] + s[i..i + 2] + s[i + 2..]
  {
  }

  /** A stream decoded to completion starts with a valid chunk, or with the last one. */
  lemma FirstOfComplete(s: string) returns (c: Chunk, more: string)
    requires Decode(0, s).ending == Complete
    ensures c.Valid() && |more| < |s|
    ensures c.payload != "" ==>
              && s == (c.size + c.ext) + CRLF + (c.payload + CRLF + more)
              && Decode(0, s) == Decode(0, more).After(c.payload)
    ensures c.payload == "" ==>
              && s == (c.size + c.ext) + CRLF + (CRLF + more)
              && Decode(0, s) == Outcome("", Complete, more)
  {
    var Line(text, rest) := SplitLine(s);
    var (size, err) := ChunkSize(text);
    if size == 0 {
      c := LineIsChunk(text, "");
      more := rest[2..];
      assert rest == CRLF + more;
    } else {
      assert Decode(0, s) == Decode(size, rest);
      InsideChunk(size, rest);
      c := LineIsChunk(text, rest[..size]);
      more := rest[size + 2..];
    }
  }

  /** The converse: a stream decoded to completion is a valid message followed by what is left. */
  lemma {:induction false} CompleteIsMessage(s: string) returns (chunks: seq<Chunk>, last: Chunk)
    requires Decode(0, s).ending == Complete
    ensures ValidMessage(chunks, last)
    ensures s == Encode(chunks, last) + Decode(0, s).rest
    ensures Decode(0, s).payload == Payload(chunks)
    decreases |s|
  {
    var c, more := FirstOfComplete(s);
    if c.payload == "" {
      chunks, last := [], c;
      EncodeRegroup(chunks, last, more);
    } else {
      var cs;
      cs, last := CompleteIsMessage(more);
      chunks := [c] + cs;
      assert chunks[1..] == cs;
      EncodeRegroup(chunks, last, Decode(0, s).rest);
    }
  }

  ghost predicate StartsWithMessage(s: string) {
    exists chunks, last, tail :: ValidMessage(chunks, last) && s == Encode(chunks, last) + tail
  }

  /** The reference decoder reports completion on exactly the strings that start with a message. */
  lemma CompleteIff(s: string)
    ensures Decode(0, s).ending == Complete <==> StartsWithMessage(s)
  {
    if Decode(0, s).ending == Complete {
      var chunks, last := CompleteIsMessage(s);
      assert ValidMessage(chunks, last) && s == Encode(chunks, last) + Decode(0, s).rest;
    }
    forall chunks, last, tail | ValidMessage(chunks, last) && s == Encode(chunks, last) + tail
      ensures Decode(0, s).ending == Complete
    {
      DecodeEncode(chunks, last, tail);
    }
  }

  /** n in hex, in capitals. */
  function FormatCapitals(n: nat): string {
    if n < 16 then [CAPITAL_DIGITS[n]] else FormatCapitals(n / 16) + [CAPITAL_DIGITS[n % 16]]
  }

  lemma {:induction false} CapitalsDenote(n: nat)
    ensures Denotes(FormatCapitals(n), n, 16)
  {
    var s := FormatCapitals(n);
    if n >= 16 {
      CapitalsDenote(n / 16);
      assert s[..|s| - 1] == FormatCapitals(n / 16);
    }
  }

  function HexSize(n: nat, capitals: bool): string {
    if capitals then FormatCapitals(n) else FormatUint(n, 16)
  }

  lemma HexSizeDenotes(n: nat, capitals: bool)
    ensures Denotes(HexSize(n, capitals), n, 16)
    ensures Denotes("0", 0, 16)
  {
    assert IsDigitFor('0', 0);
    CapitalsDenote(n);
    FormatUintIff(n, FormatUint(n, 16), 16);
  }

  /** The usual senders: sizes in hex, in small letters or capitals, no extensions. Any non-empty payloads below
      2^31 bytes. */
  function Plain(payloads: seq<string>, capitals: bool): seq<Chunk> {
    if payloads == [] then []
    else [Chunk(HexSize(|payloads[0]|, capitals), "", payloads[0])] + Plain(payloads[1..], capitals)
  }

  lemma {:induction false} PlainIsValid(payloads: seq<string>, capitals: bool)
    requires forall p | p in payloads :: 0 < |p| <= MAX_INT31
    ensures ValidMessage(Plain(payloads, capitals), Chunk("0", "", ""))
    ensures |Plain(payloads, capitals)| == |payloads|
    ensures forall i | 0 <= i < |payloads| :: Plain(payloads, capitals)[i].payload == payloads[i]
  {
    hide Denotes, HexSize;
    HexSizeDenotes(0, capitals);
    if payloads != [] {
      assert payloads[0] in payloads;
      HexSizeDenotes(|payloads[0]|, capitals);
      PlainIsValid(payloads[1..], capitals);
    }
  }

  lemma Slices(s: string, n: nat, left: nat)
    requires n <= left <= |s|
    ensures s[n..][..left - n] == s[n..left]
    ensures s[n..][left - n..] == s[left..]
    ensures s[..n] + s[n..left] == s[..left]
  {
  }

  lemma Slice2(s: string, n: nat, left: nat)
    requires n <= left <= |s| - 2
    ensures s[n..][left - n..left - n + 2] == s[left..left + 2]
  {
  }

  /** Taking all of it leads to the chunk's closing CRLF. */
  lemma EndOfChunk(left: nat, s: string)
    requires 0 < left <= |s|
    ensures var t := s[left..];
            Decode(left, s) == if |t| < 2 then Outcome(s[..left], CutOffAtChunkEnd, "")
                               else if t[..2] != CRLF then Outcome(s[..left], BadChunkEnd, t[2..])
                               else Decode(0, t[2..]).After(s[..left])
  {
    if |s| >= left + 2 {
      Slice2(s, left, left);
      Slices(s, left, left + 2);
    }
  }

  /** Taking part of a chunk's payload leaves the decoding of what follows as it was. */
  lemma PartOfChunk(left: nat, s: string, n: nat)
    requires n < left && n <= |s|
    ensures Decode(left, s) == Decode(left - n, s[n..]).After(s[..n])
  {
    if |s| < left {
      assert s[..n] + s[n..] == s;
    } else {
      Slices(s, n, left);
      EndOfChunk(left, s);
      EndOfChunk(left - n, s[n..]);
      if |s| >= left + 2 {
        Regrouped(s[..n], s[n..left], Decode(0, s[left..][2..]).payload);
      }
    }
  }

  lemma Regrouped(a: string, b: string, c: string)
    ensures a + b + c == a + (b + c)
  {
  }
}
