/** The one coding the repository decodes itself, chunked, as an entry of the list of encodings: what its reader
    delivers out of a pipe is what the resumable decoder reads from the connection, and it has no writer. */
module ChunkedCoding {
  import opened Strconv
  import opened HttpChars
  import opened ChunkedGrammar
  import opened EncodingLists
  import opened Pipelines
  import ChunkedReader
  import Pipes

  const CHUNKED: string := "chunked"

  /** A decoder on a connection opens always, and delivers all the payload there is up to its first error. */
  function OpenDecoder(s: string): Pipes.Opened<Pipes.Reader> {
    Pipes.Opened(Decode(0, s).payload)
  }

  /** Its writer is missing. */
  function ChunkedEncoding(): Encoding {
    Encoding(CHUNKED, OpenDecoder, Pipes.Nil())
  }

  lemma ChunkedReads(s: string)
    ensures ChunkedEncoding().reader(s) == Pipes.Opened(Decode(0, s).payload)
  {
  }

  /** s is the message of these chunks, and they carry x. */
  ghost predicate Spells(chunks: seq<Chunk>, last: Chunk, s: string, x: string) {
    ValidMessage(chunks, last) && s == Encode(chunks, last) && Payload(chunks) == x
  }

  /** A message of any chunks that carries x. */
  ghost predicate IsMessage(s: string, x: string) {
    exists chunks, last :: Spells(chunks, last, s, x)
  }

  /** A sender of the coding: free to choose the chunks, their size texts and extensions. */
  ghost predicate WritesMessages(enc: Encoder) {
    forall x :: IsMessage(enc(x), x)
  }

  lemma MessageReads(s: string, x: string, tail: string)
    requires IsMessage(s, x)
    ensures Decode(0, s + tail) == Outcome(x, Complete, tail)
  {
    var chunks, last :| Spells(chunks, last, s, x);
    DecodeEncode(chunks, last, tail);
  }

  /** Senders of messages are exactly those whose texts the decoder reads to a clean end, whole. */
  lemma WritesMessagesIff(enc: Encoder)
    ensures WritesMessages(enc) <==> forall x :: Decode(0, enc(x)) == Outcome(x, Complete, "")
  {
    hide Decode;
    if WritesMessages(enc) {
      forall x
        ensures Decode(0, enc(x)) == Outcome(x, Complete, "")
      {
        assert IsMessage(enc(x), x) && enc(x) + "" == enc(x);
        MessageReads(enc(x), x, "");
      }
    }
    if forall x :: Decode(0, enc(x)) == Outcome(x, Complete, "") {
      forall x
        ensures IsMessage(enc(x), x)
      {
        assert Decode(0, enc(x)) == Outcome(x, Complete, "");
        var chunks, last := CompleteIsMessage(enc(x));
        assert Encode(chunks, last) + "" == Encode(chunks, last);
        assert Spells(chunks, last, enc(x), x);
      }
    }
  }

  /** Its reader undoes every such sender, so the list can hold it like any other coding. */
  lemma ChunkedDecodes(enc: Encoder)
    requires WritesMessages(enc)
    ensures Decodes(ChunkedEncoding(), enc)
  {
    hide Decode;
    WritesMessagesIff(enc);
  }

  function Pieces(x: string, n: nat): (r: seq<string>)
    requires n > 0
    ensures forall p | p in r :: 0 < |p| <= n
  {
    if x == "" then [] else if |x| <= n then [x] else [x[..n]] + Pieces(x[n..], n)
  }

  /** The usual senders, with chunks of n bytes. */
  function Chunked(n: nat, capitals: bool): Encoder
    requires n > 0
  {
    x => Encode(Plain(Pieces(x, n), capitals), Chunk("0", "", ""))
  }

  lemma {:induction false} PiecesCarry(x: string, n: nat, capitals: bool)
    requires n > 0
    ensures Payload(Plain(Pieces(x, n), capitals)) == x
    decreases |x|
  {
    hide Plain, Payload, Pieces;
    PiecesStep(x, n);
    if x == "" {
      NoPieces(capitals);
    } else {
      if |x| <= n {
        PlainCarries(x, [], capitals);
      } else {
        PiecesCarry(x[n..], n, capitals);
        PlainCarries(x[..n], Pieces(x[n..], n), capitals);
        assert x[..n] + x[n..] == x;
      }
    }
  }

  lemma PiecesStep(x: string, n: nat)
    requires n > 0
    ensures Pieces(x, n) == if x == "" then [] else if |x| <= n then [x] else [x[..n]] + Pieces(x[n..], n)
  {
  }

  lemma NoPieces(capitals: bool)
    ensures Payload(Plain([], capitals)) == ""
  {
  }

  lemma PlainCarries(first: string, more: seq<string>, capitals: bool)
    ensures Payload(Plain([first] + more, capitals)) == first + Payload(Plain(more, capitals))
    ensures more == [] ==> Payload(Plain([first], capitals)) == first
  {
    hide HexSize;
    assert ([first] + more)[1..] == more;
    var c := Plain([first] + more, capitals)[0];
    assert ([c] + Plain(more, capitals))[1..] == Plain(more, capitals);
    if more == [] {
      assert [first] + more == [first] && first + "" == first;
    }
  }

  lemma ChunkedWrites(n: nat, capitals: bool)
    requires 0 < n <= MAX_INT31
    ensures WritesMessages(Chunked(n, capitals))
  {
    forall x
      ensures IsMessage(Chunked(n, capitals)(x), x)
    {
      PlainIsValid(Pieces(x, n), capitals);
      PiecesCarry(x, n, capitals);
      assert Spells(Plain(Pieces(x, n), capitals), Chunk("0", "", ""), Chunked(n, capitals)(x), x);
    }
  }

  /** A connection that carries x under the codings `front` and then chunked, and goes on with tail. */
  ghost predicate Carries(s: string, m: map<string, Encoding>, encs: map<string, Encoder>, front: seq<string>,
                          x: string, tail: string)
  {
    && KnownReaders(m, encs, front)
    && CHUNKED in encs && WritesMessages(encs[CHUNKED])
    && s == encs[CHUNKED](Encoded(encs, front, x)) + tail
  }

  /** The readers for the codes are known and deliver x from s. */
  ghost predicate Delivers(s: string, m: map<string, Encoding>, codes: seq<string>, x: string) {
    && (forall k | 0 <= k < |codes| :: ToLower(codes[k]) in m)
    && Pipes.Chain(s, Readers(m, codes)) == Pipes.Opened(x)
  }

  lemma CarriedReads(s: string, m: map<string, Encoding>, encs: map<string, Encoder>, front: seq<string>,
                     x: string, tail: string)
    requires Carries(s, m, encs, front, x, tail)
    ensures Decode(0, s) == Outcome(Encoded(encs, front, x), Complete, tail)
    ensures Delivers(Encoded(encs, front, x), m, front, x)
  {
    hide Decode, Encoded, ToLower, Decodes, Readers, Pipes.Chain;
    var body := Encoded(encs, front, x);
    assert IsMessage(encs[CHUNKED](body), body);
    MessageReads(encs[CHUNKED](body), body, tail);
    ReadersUndo(m, encs, front, x);
  }

  lemma LastIsChunked(last: string)
    requires Recased(last, "chunked")
    ensures ToLower(last) == CHUNKED
  {
    RecasedLower(last, "chunked");
  }

  /** The pipe opened for these codings delivers the data, whatever follows it on the connection. */
  lemma CarriedOpens(s: string, m: map<string, Encoding>, encs: map<string, Encoder>, front: seq<string>,
                     last: string, x: string, tail: string)
    requires Carries(s, m, encs, front, x, tail)
    requires Recased(last, "chunked") && CHUNKED in m && m[CHUNKED] == ChunkedEncoding()
    ensures Delivers(s, m, front + [last], x)
  {
    hide Decode, Encoded, ToLower, Decodes, Readers, Pipes.Chain, ChunkedEncoding, WritesMessages;
    ChunkedReads(s);
    LastIsChunked(last);
    var codes := front + [last];
    assert codes[..|codes| - 1] == front && codes[|codes| - 1] == last;
    CarriedReads(s, m, encs, front, x, tail);
    ReadersLast(m, codes);
    ChainCons(s, m[CHUNKED].reader, Readers(m, front));
  }

  /** Reading a new decoder to its end, fragments and buffers of any size, gives what the reader of
      ChunkedEncoding gives in a pipe. From a connection that carries coded data it takes the message alone, and
      the readers of the other codings make the data of it. */
  method ReadConnection(source: ChunkedReader.Source, buffered: bool, bufferSize: nat -> nat)
    returns (data: string, err: ChunkedReader.ReadError)
    requires forall i :: bufferSize(i) > 0
    modifies source
    ensures ChunkedEncoding().reader(old(source.rest)) == Pipes.Opened(data)
    ensures err == ChunkedReader.Report(Decode(0, old(source.rest)).ending, source.end)
    ensures forall m, encs, front, x, tail | Carries(old(source.rest), m, encs, front, x, tail) ::
              && Delivers(data, m, front, x)
              && err == ChunkedReader.EOF && source.rest == tail
  {
    hide Decode, Carries, Delivers, Encoded, ChunkedEncoding;
    ghost var all := source.rest;
    ChunkedReads(all);
    var r := new ChunkedReader.Reader.NewPipe(source, buffered);
    data, err := ChunkedReader.ReadAll(r, bufferSize);
    forall m, encs, front, x, tail | Carries(all, m, encs, front, x, tail)
      ensures Delivers(data, m, front, x)
      ensures err == ChunkedReader.EOF && source.rest == tail
    {
      CarriedReads(all, m, encs, front, x, tail);
    }
  }

  /** It cannot write: calling its writer panics. */
  lemma ChunkedIsWriterless()
    ensures Writerless(ChunkedEncoding())
  {
    hide OpenDecoder;
  }
  /** With codings that can write besides, the pipe for writing a body panics exactly if chunked is listed. */
  lemma ChunkedPanicsIff(m: map<string, Encoding>, encs: map<string, Encoder>, codes: seq<string>)
    requires OthersWrite(m, encs, codes, CHUNKED) && (CHUNKED in m ==> m[CHUNKED] == ChunkedEncoding())
    ensures Pipes.Chain(Pipes.Connection, Writers(m, codes)).Panic? <==> "chunked" in codes
    ensures Pipes.Chain(Pipes.Connection, Writers(m, codes)).Opened? <==> "chunked" !in codes
  {
    hide ChunkedEncoding, Writerless, Codec, Pipes.Chain, Writers;
    ChunkedIsWriterless();
    WriterlessPanicsIff(m, encs, codes, CHUNKED);
  }
}
