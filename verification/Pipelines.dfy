/** What the pipes made from a list of codings do to data: the readers undo the codings, the writers apply
    them in the opposite order. */
module Pipelines {
  import opened Strconv
  import opened HttpChars
  import opened Pipes
  import opened EncodingLists

  type Encoder = string -> string

  /** The encoding reads back what enc makes of the data. */
  ghost predicate Decodes(e: Encoding, enc: Encoder) {
    forall x :: e.reader(enc(x)) == Opened(x)
  }

  /** And it writes what enc makes of the data. */
  ghost predicate Codec(e: Encoding, enc: Encoder) {
    Decodes(e, enc) && forall w :: e.writer(w) == Opened(Encode(enc, w))
  }

  /** Every code, in lower case, names an encoding that reads what its encoder makes. */
  ghost predicate KnownReaders(m: map<string, Encoding>, encs: map<string, Encoder>, codes: seq<string>) {
    forall k | 0 <= k < |codes| ::
      var c := ToLower(codes[k]);
      c in m && c in encs && Decodes(m[c], encs[c])
  }

  /** Every code, in lower case, names a codec. */
  ghost predicate Known(m: map<string, Encoding>, encs: map<string, Encoder>, codes: seq<string>) {
    forall k | 0 <= k < |codes| ::
      var c := ToLower(codes[k]);
      c in m && c in encs && Codec(m[c], encs[c])
  }

  /** The codings applied in the order listed (section 3.3.1 of RFC 7230). */
  ghost function Encoded(encs: map<string, Encoder>, codes: seq<string>, x: string): string
    requires forall k | 0 <= k < |codes| :: ToLower(codes[k]) in encs
  {
    if codes == [] then x
    else encs[ToLower(codes[|codes| - 1])](Encoded(encs, codes[..|codes| - 1], x))
  }

  lemma {:induction false} ChainCons<T>(source: T, g: Generator<T>, gs: seq<Generator<T>>)
    ensures Chain(source, [g] + gs) == if g(source).Opened? then Chain(g(source).value, gs) else g(source)
  {
    var all := [g] + gs;
    if gs == [] {
      assert all[..0] == [] && all[|all| - 1] == g;
    } else {
      ChainCons(source, g, gs[..|gs| - 1]);
      assert all[..|all| - 1] == [g] + gs[..|gs| - 1];
      assert all[|all| - 1] == gs[|gs| - 1];
    }
  }

  lemma DecodesReads(e: Encoding, enc: Encoder, x: string)
    requires Decodes(e, enc)
    ensures e.reader(enc(x)) == Opened(x)
  {
  }

  lemma CodecWrites(e: Encoding, enc: Encoder, w: Writer)
    requires Codec(e, enc)
    ensures e.writer(w) == Opened(Encode(enc, w))
  {
  }

  lemma ReadersLast(m: map<string, Encoding>, codes: seq<string>)
    requires codes != [] && forall k | 0 <= k < |codes| :: ToLower(codes[k]) in m
    ensures Readers(m, codes) == [m[ToLower(codes[|codes| - 1])].reader] + Readers(m, codes[..|codes| - 1])
  {
    hide ToLower;
  }

  /** Reading through the readers for the codes gives back what the codes encoded, in whatever case they are
      written. */
  lemma {:induction false} ReadersUndo(m: map<string, Encoding>, encs: map<string, Encoder>,
                                       codes: seq<string>, x: string)
    requires KnownReaders(m, encs, codes)
    ensures Chain(Encoded(encs, codes, x), Readers(m, codes)) == Opened(x)
  {
    if codes == [] {
      assert Readers(m, codes) == [];
    } else {
      hide ToLower, Chain, Decodes, Readers;
      var front, last := codes[..|codes| - 1], ToLower(codes[|codes| - 1]);
      ReadersUndo(m, encs, front, x);
      ReadersLast(m, codes);
      ChainCons(Encoded(encs, codes, x), m[last].reader, Readers(m, front));
      DecodesReads(m[last], encs[last], Encoded(encs, front, x));
    }
  }

  lemma KnownRead(m: map<string, Encoding>, encs: map<string, Encoder>, codes: seq<string>)
    requires Known(m, encs, codes)
    ensures KnownReaders(m, encs, codes)
  {
    hide ToLower, Decodes;
  }

  ghost function Writers(m: map<string, Encoding>, codes: seq<string>): seq<Generator<Writer>>
    requires forall k | 0 <= k < |codes| :: codes[k] in m
  {
    seq(|codes|, k requires 0 <= k < |codes| => m[codes[k]].writer)
  }

  ghost predicate AllLower(codes: seq<string>) {
    forall k | 0 <= k < |codes| :: IsLower(codes[k])
  }

  function Reverse(codes: seq<string>): (r: seq<string>)
    ensures |r| == |codes|
    ensures forall k | 0 <= k < |r| :: r[k] == codes[|codes| - 1 - k]
  {
    if codes == [] then [] else [codes[|codes| - 1]] + Reverse(codes[..|codes| - 1])
  }

  lemma {:induction false} EncodedCons(encs: map<string, Encoder>, c: string, codes: seq<string>, x: string)
    requires ToLower(c) in encs && forall k | 0 <= k < |codes| :: ToLower(codes[k]) in encs
    ensures Encoded(encs, [c] + codes, x) == Encoded(encs, codes, encs[ToLower(c)](x))
  {
    var all := [c] + codes;
    if codes == [] {
      assert all[..0] == [];
    } else {
      EncodedCons(encs, c, codes[..|codes| - 1], x);
      assert all[..|all| - 1] == [c] + codes[..|codes| - 1];
    }
  }

  lemma WritersLast(m: map<string, Encoding>, codes: seq<string>)
    requires codes != [] && forall k | 0 <= k < |codes| :: codes[k] in m
    ensures var n := |codes| - 1;
            var before := Chain(Connection, Writers(m, codes[..n]));
            Chain(Connection, Writers(m, codes)) ==
            if before.Opened? then m[codes[n]].writer(before.value) else before
  {
    assert Writers(m, codes)[..|codes| - 1] == Writers(m, codes[..|codes| - 1]);
  }

  lemma LowerKnown(m: map<string, Encoding>, encs: map<string, Encoder>, codes: seq<string>)
    requires Known(m, encs, codes) && AllLower(codes)
    ensures forall k | 0 <= k < |codes| :: ToLower(codes[k]) == codes[k] && codes[k] in m
  {
    forall k | 0 <= k < |codes|
      ensures ToLower(codes[k]) == codes[k]
    {
      LowerIff(codes[k]);
    }
  }

  lemma ReverseKnown(m: map<string, Encoding>, encs: map<string, Encoder>, codes: seq<string>)
    requires Known(m, encs, codes)
    ensures Known(m, encs, Reverse(codes))
  {
    hide ToLower, Codec;
  }

  /** The pipe of writers for lower-case codes opens, and applies the last code first. */
  lemma {:induction false} WritersReverse(m: map<string, Encoding>, encs: map<string, Encoder>,
                                          codes: seq<string>, x: string)
    requires Known(m, encs, codes) && AllLower(codes)
    ensures forall k | 0 <= k < |codes| :: codes[k] in m
    ensures Known(m, encs, Reverse(codes))
    ensures Chain(Connection, Writers(m, codes)).Opened?
    ensures Emitted(Chain(Connection, Writers(m, codes)).value, x) == Encoded(encs, Reverse(codes), x)
  {
    LowerKnown(m, encs, codes);
    ReverseKnown(m, encs, codes);
    if codes == [] {
      assert Writers(m, codes) == [];
    } else {
      hide ToLower, Codec, Chain, Writers, Encoded;
      var n := |codes| - 1;
      var front, last := codes[..n], codes[n];
      WritersReverse(m, encs, front, encs[last](x));
      WritersLast(m, codes);
      CodecWrites(m[last], encs[last], Chain(Connection, Writers(m, front)).value);
      EncodedCons(encs, last, Reverse(front), x);
    }
  }

  /** So what it writes is read back by the readers for the reversed codes. */
  lemma WritersUndone(m: map<string, Encoding>, encs: map<string, Encoder>, codes: seq<string>, x: string)
    requires Known(m, encs, codes) && AllLower(codes)
    ensures forall k | 0 <= k < |codes| :: codes[k] in m
    ensures Known(m, encs, Reverse(codes)) && Chain(Connection, Writers(m, codes)).Opened?
    ensures Chain(Emitted(Chain(Connection, Writers(m, codes)).value, x), Readers(m, Reverse(codes))) == Opened(x)
  {
    WritersReverse(m, encs, codes, x);
    KnownRead(m, encs, Reverse(codes));
    ReadersUndo(m, encs, Reverse(codes), x);
  }

  // ---------------------------------------------------------------- the order of the codes as listed

  function Strip(c: char): Generator<Reader> {
    s => if s != "" && s[|s| - 1] == c then Opened(s[..|s| - 1]) else Failed
  }

  function Mark(c: char): Encoder {
    x => x + [c]
  }

  /** A coding that puts one mark behind the data. */
  function Marking(name: string, c: char): Encoding {
    Encoding(name, Strip(c), w => Opened(Encode(Mark(c), w)))
  }

  lemma MarkingIsCodec(name: string, c: char)
    ensures Codec(Marking(name, c), Mark(c))
  {
    forall x
      ensures Strip(c)(Mark(c)(x)) == Opened(x)
    {
      assert (x + [c])[..|x|] == x;
    }
  }

  /** The mark of a code: one code is marked 'a', all others 'b'. */
  function MarkOf(code: string, one: string): char {
    if code == one then 'a' else 'b'
  }

  function Marks(codes: seq<string>, one: string): string {
    seq(|codes|, k requires 0 <= k < |codes| => MarkOf(codes[k], one))
  }

  function MarkCodings(codes: seq<string>, one: string): map<string, Encoding> {
    map c | c in codes :: Marking(c, MarkOf(c, one))
  }

  function MarkEncoders(codes: seq<string>, one: string): map<string, Encoder> {
    map c | c in codes :: Mark(MarkOf(c, one))
  }

  lemma MarksKnown(codes: seq<string>, one: string)
    requires AllLower(codes)
    ensures Known(MarkCodings(codes, one), MarkEncoders(codes, one), codes)
    ensures forall k | 0 <= k < |codes| :: ToLower(codes[k]) == codes[k] && codes[k] in codes
  {
    hide ToLower, Codec, Marking, Mark;
    forall k | 0 <= k < |codes|
      ensures ToLower(codes[k]) == codes[k]
      ensures Codec(Marking(codes[k], MarkOf(codes[k], one)), Mark(MarkOf(codes[k], one)))
    {
      LowerIff(codes[k]);
      MarkingIsCodec(codes[k], MarkOf(codes[k], one));
    }
  }

  ghost predicate MarkedBy(encs: map<string, Encoder>, one: string, codes: seq<string>) {
    forall k | 0 <= k < |codes| ::
      ToLower(codes[k]) in encs && encs[ToLower(codes[k])] == Mark(MarkOf(codes[k], one))
  }

  /** Encoding with them appends the marks in order. */
  lemma {:induction false} EncodedMarks(encs: map<string, Encoder>, one: string, codes: seq<string>, x: string)
    requires MarkedBy(encs, one, codes)
    ensures Encoded(encs, codes, x) == x + Marks(codes, one)
  {
    if codes == [] {
      assert x + Marks(codes, one) == x;
    } else {
      hide ToLower, Marks;
      var n := |codes| - 1;
      EncodedMarks(encs, one, codes[..n], x);
      MarksLast(codes, one);
      var front, mark := Marks(codes[..n], one), [MarkOf(codes[n], one)];
      assert x + front + mark == x + (front + mark);
    }
  }

  lemma MarksLast(codes: seq<string>, one: string)
    requires codes != []
    ensures Marks(codes, one) == Marks(codes[..|codes| - 1], one) + [MarkOf(codes[|codes| - 1], one)]
  {
  }

  ghost predicate StrippedBy(m: map<string, Encoding>, one: string, codes: seq<string>) {
    forall k | 0 <= k < |codes| ::
      ToLower(codes[k]) in m && m[ToLower(codes[k])].reader == Strip(MarkOf(codes[k], one))
  }

  /** Their readers take off those marks, or fail. */
  lemma {:induction false} ReadMarks(m: map<string, Encoding>, one: string, codes: seq<string>, source: string)
    requires StrippedBy(m, one, codes)
    ensures var read := Chain(source, Readers(m, codes));
            read == Failed || (read.Opened? && source == read.value + Marks(codes, one))
  {
    if codes == [] {
      assert Readers(m, codes) == [] && source + Marks(codes, one) == source;
    } else {
      hide ToLower, Chain, Readers, Marks;
      var n := |codes| - 1;
      var c := MarkOf(codes[n], one);
      ReadersLast(m, codes);
      ChainCons(source, Strip(c), Readers(m, codes[..n]));
      MarksLast(codes, one);
      if source != "" && source[|source| - 1] == c {
        var shorter := source[..|source| - 1];
        ReadMarks(m, one, codes[..n], shorter);
        var read := Chain(shorter, Readers(m, codes[..n]));
        if read.Opened? {
          assert source == shorter + [c];
          assert read.value + Marks(codes[..n], one) + [c] == read.value + (Marks(codes[..n], one) + [c]);
        }
      }
    }
  }

  /** A mismatch between the list and its reverse shows in the marks. */
  lemma MarksDiffer(codes: seq<string>, k: nat, x: string, y: string)
    requires k < |codes| && codes[k] != Reverse(codes)[k]
    ensures x + Marks(codes, codes[k]) != x + Marks(Reverse(codes), codes[k])
    ensures |x| == |y| ==> x + Marks(codes, codes[k]) != y + Marks(Reverse(codes), codes[k])
  {
    var one := codes[k];
    assert (x + Marks(codes, one))[|x| + k] == 'a';
    assert (x + Marks(Reverse(codes), one))[|x| + k] == 'b';
    assert |x| == |y| ==> (y + Marks(Reverse(codes), one))[|x| + k] == 'b';
  }

  /** What the writers for the codes make of x. */
  ghost function Written(m: map<string, Encoding>, codes: seq<string>, x: string): string
    requires forall k | 0 <= k < |codes| :: codes[k] in m
    requires Chain(Connection, Writers(m, codes)).Opened?
  {
    Emitted(Chain(Connection, Writers(m, codes)).value, x)
  }

  /** The writers open, and write the codings in the order listed. */
  ghost predicate WritesInOrder(m: map<string, Encoding>, encs: map<string, Encoder>, codes: seq<string>, x: string)
    requires Known(m, encs, codes)
  {
    && (forall k | 0 <= k < |codes| :: codes[k] in m)
    && Chain(Connection, Writers(m, codes)).Opened?
    && Written(m, codes, x) == Encoded(encs, codes, x)
  }

  /** The readers for the same codes read back what the writers wrote. */
  ghost predicate ReadsBack(m: map<string, Encoding>, encs: map<string, Encoder>, codes: seq<string>, x: string)
    requires Known(m, encs, codes)
  {
    && (forall k | 0 <= k < |codes| :: codes[k] in m)
    && Chain(Connection, Writers(m, codes)).Opened?
    && Chain(Written(m, codes, x), Readers(m, codes)) == Opened(x)
  }

  /** For a list that is not its own reverse there are codings with which no data is written in the listed
      order, and no data is read back by the readers for the same codes. */
  lemma OrderMatters(codes: seq<string>) returns (m: map<string, Encoding>, encs: map<string, Encoder>)
    requires AllLower(codes) && Reverse(codes) != codes
    ensures Known(m, encs, codes)
    ensures forall x :: !WritesInOrder(m, encs, codes, x)
    ensures forall k | 0 <= k < |codes| :: codes[k] in m
    ensures Chain(Connection, Writers(m, codes)).Opened?
    ensures forall x :: Chain(Written(m, codes, x), Readers(m, codes)) == Failed
  {
    var k :| 0 <= k < |codes| && codes[k] != Reverse(codes)[k];
    m, encs := MarkCodings(codes, codes[k]), MarkEncoders(codes, codes[k]);
    MarksKnown(codes, codes[k]);
    ReverseMarked(codes, codes[k]);
    hide MarkCodings, MarkEncoders, Chain, Codec, Writers, Readers, Emitted, ToLower, Encoded;
    MarksGoWrong(m, encs, codes, k, "");
    forall x
      ensures !WritesInOrder(m, encs, codes, x)
      ensures Chain(Written(m, codes, x), Readers(m, codes)) == Failed
    {
      MarksGoWrong(m, encs, codes, k, x);
    }
  }

  lemma MarksGoWrong(m: map<string, Encoding>, encs: map<string, Encoder>, codes: seq<string>, k: nat, x: string)
    requires Known(m, encs, codes) && AllLower(codes) && k < |codes| && codes[k] != Reverse(codes)[k]
    requires MarkedBy(encs, codes[k], codes) && MarkedBy(encs, codes[k], Reverse(codes))
    requires StrippedBy(m, codes[k], codes)
    ensures forall k | 0 <= k < |codes| :: codes[k] in m
    ensures Chain(Connection, Writers(m, codes)).Opened?
    ensures !WritesInOrder(m, encs, codes, x)
    ensures Chain(Written(m, codes, x), Readers(m, codes)) == Failed
  {
    hide Codec, Chain, Encoded, Writers, Readers, Emitted, Marks, ToLower;
    var one := codes[k];
    WritersReverse(m, encs, codes, x);
    EncodedMarks(encs, one, codes, x);
    EncodedMarks(encs, one, Reverse(codes), x);
    ReadMarks(m, one, codes, Written(m, codes, x));
    var read := Chain(Written(m, codes, x), Readers(m, codes));
    if read.Opened? {
      SameLengths(codes, one, x, read.value);
      MarksDiffer(codes, k, read.value, x);
    }
    MarksDiffer(codes, k, x, x);
  }

  lemma ReverseMarked(codes: seq<string>, one: string)
    requires AllLower(codes)
    ensures MarkedBy(MarkEncoders(codes, one), one, codes) && MarkedBy(MarkEncoders(codes, one), one, Reverse(codes))
    ensures StrippedBy(MarkCodings(codes, one), one, codes)
  {
    hide ToLower, Strip, Mark;
    MarksKnown(codes, one);
    forall k | 0 <= k < |codes|
      ensures Reverse(codes)[k] in codes && ToLower(Reverse(codes)[k]) == Reverse(codes)[k]
    {
      assert Reverse(codes)[k] == codes[|codes| - 1 - k];
    }
  }

  lemma SameLengths(codes: seq<string>, one: string, x: string, y: string)
    ensures y + Marks(codes, one) == x + Marks(Reverse(codes), one) ==> |x| == |y|
  {
    assert |y + Marks(codes, one)| == |y| + |codes| && |x + Marks(Reverse(codes), one)| == |x| + |codes|;
  }

  /** Pipes of writers apply the codings in the order listed, whatever the codings and the data, exactly for
      the lists that are their own reverse. */
  lemma WritersInOrderIff(codes: seq<string>)
    requires AllLower(codes)
    ensures (forall m, encs, x | Known(m, encs, codes) :: WritesInOrder(m, encs, codes, x)) <==> Reverse(codes) == codes
  {
    hide Known, Encoded, Chain, Writers, Emitted;
    if Reverse(codes) == codes {
      forall m, encs, x | Known(m, encs, codes)
        ensures WritesInOrder(m, encs, codes, x)
      {
        WritersReverse(m, encs, codes, x);
      }
    } else {
      var m, encs := OrderMatters(codes);
      assert !WritesInOrder(m, encs, codes, "");
    }
  }

  /** And exactly those are read back by the readers for the same codes. */
  lemma ReadsBackIff(codes: seq<string>)
    requires AllLower(codes)
    ensures (forall m, encs, x | Known(m, encs, codes) :: ReadsBack(m, encs, codes, x)) <==> Reverse(codes) == codes
  {
    hide Known, Encoded, Chain, Writers, Readers, Emitted;
    if Reverse(codes) == codes {
      forall m, encs, x | Known(m, encs, codes)
        ensures ReadsBack(m, encs, codes, x)
      {
        WritersUndone(m, encs, codes, x);
      }
    } else {
      var m, encs := OrderMatters(codes);
      assert !ReadsBack(m, encs, codes, "");
    }
  }

  // ---------------------------------------------------------------- bodies

  /** The reader of a message body: readers for its transfer codings, From the connection; None is the
      answer for a coding that is not supported. */
  method OpenBody(list: List, codes: seq<string>, raw: Reader) returns (out: Option<Opened<Pipe<Reader>>>)
    requires list.Valid()
    ensures out == None <==> exists k | 0 <= k < |codes| :: ToLower(codes[k]) !in list.contents
    ensures out.Some? ==>
              var read := Chain(raw, Readers(list.contents, codes));
              match out.value {
                case Opened(pipe) => pipe.ends.Length > 0 && read == Opened(pipe.ends[0])
                case Panic => read == Panic
                case Failed => read == Failed
              }
    ensures forall encs, x | KnownReaders(list.contents, encs, codes) && raw == Encoded(encs, codes, x) ::
              out.Some? && out.value.Opened? && out.value.value.ends.Length > 0 && out.value.value.ends[0] == x
  {
    var readers, ok := list.GetReaderPipeGenerators(codes);
    hide Decodes, Encoded, Chain, ToLower, Readers;
    if !ok {
      return None;
    }
    var pipe := Build(raw, [readers]);
    FlattenOne(readers);
    forall encs, x | KnownReaders(list.contents, encs, codes) && raw == Encoded(encs, codes, x)
      ensures pipe.Opened? && pipe.value.ends.Length > 0 && pipe.value.ends[0] == x
    {
      ReadersUndo(list.contents, encs, codes, x);
    }
    return Some(pipe);
  }

  /** Data written goes through the codings last code first. */
  ghost predicate EncodesReversed(w: Writer, m: map<string, Encoding>, encs: map<string, Encoder>, codes: seq<string>) {
    Known(m, encs, Reverse(codes)) && forall x :: Emitted(w, x) == Encoded(encs, Reverse(codes), x)
  }

  /** The writer of a message body: writers for its transfer codings, To the connection. */
  method CreateBody(list: List, codes: seq<string>) returns (out: Option<Opened<Pipe<Writer>>>)
    requires list.Valid()
    ensures out == None <==> exists k | 0 <= k < |codes| :: codes[k] !in list.contents
    ensures out.Some? ==> (out.value.Opened? <==> Chain(Connection, Writers(list.contents, codes)).Opened?)
    ensures out.Some? ==> (out.value.Panic? <==> Chain(Connection, Writers(list.contents, codes)).Panic?)
    ensures forall encs | Known(list.contents, encs, codes) && AllLower(codes) ::
              && out.Some? && out.value.Opened? && out.value.value.ends.Length > 0
              && EncodesReversed(out.value.value.ends[0], list.contents, encs, codes)
  {
    var writers, ok := list.GetWriterPipeGenerators(codes);
    hide Codec, Encoded, Chain, ToLower, Emitted, Known, EncodesReversed;
    if !ok {
      forall encs | Known(list.contents, encs, codes) && AllLower(codes)
        ensures false
      {
        LowerKnown(list.contents, encs, codes);
      }
      return None;
    }
    var pipe := Build(Connection, [writers]);
    FlattenOne(writers);
    assert writers == Writers(list.contents, codes);
    forall encs | Known(list.contents, encs, codes) && AllLower(codes)
      ensures pipe.Opened? && pipe.value.ends.Length > 0
      ensures EncodesReversed(pipe.value.ends[0], list.contents, encs, codes)
    {
      WritersEncodeReversed(list.contents, encs, codes);
    }
    return Some(pipe);
  }

  lemma WritersEncodeReversed(m: map<string, Encoding>, encs: map<string, Encoder>, codes: seq<string>)
    requires Known(m, encs, codes) && AllLower(codes)
    ensures forall k | 0 <= k < |codes| :: codes[k] in m
    ensures Chain(Connection, Writers(m, codes)).Opened?
    ensures EncodesReversed(Chain(Connection, Writers(m, codes)).value, m, encs, codes)
  {
    hide Codec, Encoded, Chain, ToLower, Emitted, Writers;
    WritersReverse(m, encs, codes, "");
    forall x
      ensures Emitted(Chain(Connection, Writers(m, codes)).value, x) == Encoded(encs, Reverse(codes), x)
    {
      WritersReverse(m, encs, codes, x);
    }
  }

  lemma FlattenOne<T>(s: seq<T>)
    ensures Flatten([s]) == s
  {
    assert [s][..0] == [] && [s][0] == s;
  }

  /** The encoding has no writer. */
  ghost predicate Writerless(e: Encoding) {
    forall w :: e.writer(w) == Panic
  }

  /** All codes name encodings, which can write but for the one called c. */
  ghost predicate OthersWrite(m: map<string, Encoding>, encs: map<string, Encoder>, codes: seq<string>, c: string) {
    forall k | 0 <= k < |codes| ::
      codes[k] in m && (codes[k] != c ==> codes[k] in encs && Codec(m[codes[k]], encs[codes[k]]))
  }

  lemma NoWriters(m: map<string, Encoding>, codes: seq<string>)
    requires codes == []
    ensures Chain(Connection, Writers(m, codes)) == Opened(Connection)
  {
  }

  lemma WriterlessPanics(e: Encoding, w: Writer)
    requires Writerless(e)
    ensures e.writer(w) == Panic
  {
  }

  /** Where one encoding has no writer, the pipe of writers panics exactly if its code is listed, and opens
      otherwise. */
  lemma {:induction false} WriterlessPanicsIff(m: map<string, Encoding>, encs: map<string, Encoder>,
                                               codes: seq<string>, c: string)
    requires OthersWrite(m, encs, codes, c) && (c in m ==> Writerless(m[c]))
    ensures Chain(Connection, Writers(m, codes)).Panic? <==> c in codes
    ensures Chain(Connection, Writers(m, codes)).Opened? <==> c !in codes
  {
    hide Chain, Codec, Writers, Writerless;
    if codes == [] {
      NoWriters(m, codes);
    } else {
      var n := |codes| - 1;
      var front, last := codes[..n], codes[n];
      assert codes == front + [last];
      WriterlessPanicsIff(m, encs, front, c);
      WritersLast(m, codes);
      if c !in front {
        var before := Chain(Connection, Writers(m, front)).value;
        if last == c {
          WriterlessPanics(m[last], before);
        } else {
          CodecWrites(m[last], encs[last], before);
        }
      }
    }
  }

  /** On a list with an unknown code, taken on all the same, the writer pipe does not open. */
  lemma {:induction false} UnknownPanics(gs: seq<Generator<Writer>>, k: nat, w: Writer)
    requires k < |gs| && gs[k] == Nil()
    ensures !Chain(w, gs).Opened?
  {
    if Chain(w, gs[..k]).Opened? {
      ChainNext(w, gs, k);
      ChainFails(w, gs, k + 1);
    } else {
      ChainFails(w, gs, k);
    }
  }
}
