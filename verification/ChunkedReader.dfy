/** The resumable chunked decoder: a reader over a source that hands out fragments of any size,
    filling caller buffers of any size. Every call is tied to the reference decoder. */
module ChunkedReader {
  import opened Strconv
  import opened ChunkedGrammar

  /** io.EOF, a permanent failure of the source, ErrMalformedChunks, or a failed size parse. */
  datatype ReadError = EOF | Broken | Malformed | Num(e: NumError)

  /** What the reader reports for each ending, on a source that itself ends with `end`. */
  function Report(ending: Ending, end: ReadError): ReadError {
    match ending
    case Complete => EOF
    case CutOff => end
    case CutOffAtChunkEnd => end
    case BadLine => Malformed
    case BadChunkEnd => Malformed
    case BadFinalLine => Malformed
    case BadSize => Num(ErrSyntax)
    case SizeTooLarge => Num(ErrRange)
  }

  /** Where a failed reader stands: finished, except behind the payload of a chunk whose closing is missing
      or wrong. There the next call takes what follows for a chunk's first line. */
  function LeftAfter(ending: Ending): int {
    if ending.BadChunkEnd? || ending.CutOffAtChunkEnd? then 0 else -1
  }

  /** A byte source seen through readSource. `script` bounds how much each coming read hands out (0 is
      a read that yields nothing); once it is used up a read hands out all it can. `end` is the error
      given, with no bytes, when there are none left. */
  class Source {
    var rest: string
    var script: seq<nat>
    const end: ReadError

    constructor (data: string, script: seq<nat>, end: ReadError)
      ensures rest == data && this.script == script && this.end == end
    {
      this.rest, this.script, this.end := data, script, end;
    }

    ghost function Effort(): nat
      reads this
    {
      |rest| + |script|
    }

    /** Reads into buf[lo..hi]. An empty buffer reads nothing and is no error. */
    method Read(buf: array<char>, lo: nat, hi: nat) returns (n: nat, err: Option<ReadError>)
      requires lo <= hi <= buf.Length
      modifies this, buf
      ensures n <= hi - lo && n <= |old(rest)|
      ensures buf[..] == old(buf[..lo]) + old(rest)[..n] + old(buf[lo + n..])
      ensures rest == old(rest)[n..]
      ensures err == if lo < hi && old(rest) == "" then Some(end) else None
      ensures |script| <= |old(script)|
      ensures lo < hi && err == None ==> Effort() < old(Effort())
    {
      n, err := 0, None;
      if lo < hi {
        if rest == "" {
          err := Some(end);
        } else {
          n := if hi - lo < |rest| then hi - lo else |rest|;
          if script != [] {
            n := if script[0] < n then script[0] else n;
            script := script[1..];
          }
          forall k | 0 <= k < n {
            buf[lo + k] := rest[k];
          }
          rest := rest[n..];
        }
      }
    }

    /** bufio.Reader.ReadBytes: everything up to and including the first delim. */
    method ReadBytes(delim: char) returns (line: string, err: Option<ReadError>)
      modifies this`rest
      ensures old(rest) == line + rest
      ensures err == if delim in old(rest) then None else Some(end)
      ensures err == None ==> line != "" && line[|line| - 1] == delim && delim !in line[..|line| - 1]
      ensures err != None ==> rest == ""
    {
      var i := IndexOf(rest, delim);
      if i < 0 {
        line, err, rest := rest, Some(end), "";
      } else {
        line, err, rest := rest[..i + 1], None, rest[i + 1..];
      }
    }

    /** bufio.Reader.ReadByte. */
    method ReadByte() returns (b: char, err: Option<ReadError>)
      modifies this`rest
      ensures err == if old(rest) == "" then Some(end) else None
      ensures err == None ==> b == old(rest)[0] && rest == old(rest)[1..]
      ensures err != None ==> rest == ""
    {
      if rest == "" {
        b, err := '\0', Some(end);
      } else {
        b, err, rest := rest[0], None, rest[1..];
      }
    }
  }

  class Reader {
    const source: Source
    const buffered: bool // the source is a *bufio.Reader
    var bytesLeft: int   // -1 finished, 0 at the start of a chunk, else payload bytes to go
    const buf: array<char>

    constructor NewPipe(source: Source, buffered: bool)
      ensures this.source == source && this.buffered == buffered
      ensures Valid() && bytesLeft == 0 && fresh(buf)
    {
      this.source, this.buffered, bytesLeft := source, buffered, 0;
      buf := new char[5];
    }

    ghost predicate Valid()
      reads this
    {
      buf.Length == 5 && bytesLeft >= -1
    }

    /** All that is still to come, whatever the fragments and buffers. */
    ghost function Remaining(): Outcome
      reads this, source
    {
      Decode(bytesLeft, source.rest)
    }

    method Read1(i: nat) returns (err: Option<ReadError>)
      requires i < buf.Length
      modifies source, buf
      ensures old(source.rest) == "" ==> err == Some(source.end) && source.rest == ""
      ensures old(source.rest) != "" ==>
                && err == None && source.rest == old(source.rest)[1..]
                && buf[..] == old(buf[..])[i := old(source.rest)[0]]
      ensures |source.script| <= |old(source.script)|
    {
      var n;
      while true
        invariant source.rest == old(source.rest) && buf[..] == old(buf[..])
        invariant |source.script| <= |old(source.script)|
        decreases |source.script|
      {
        n, err := source.Read(buf, i, i + 1);
        if n == 1 || err != None {
          return;
        }
      }
    }

    method Read2() returns (err: Option<ReadError>)
      requires buf.Length == 5
      modifies source, buf
      ensures |old(source.rest)| < 2 ==> err == Some(source.end) && source.rest == ""
      ensures |old(source.rest)| >= 2 ==>
                && err == None && source.rest == old(source.rest)[2..]
                && buf[0] == old(source.rest)[0] && buf[1] == old(source.rest)[1]
      ensures |source.script| <= |old(source.script)|
    {
      var n;
      while true
        invariant source.rest == old(source.rest)
        invariant |source.script| <= |old(source.script)|
        decreases |source.script|
      {
        n, err := source.Read(buf, 0, 2);
        if n == 2 || err != None {
          return;
        } else if n == 1 {
          err := Read1(1);
          return;
        }
      }
    }

    /** What reading a line must give, told from the bytes there were before. */
    ghost predicate IsLine(all: string, line: string, err: Option<ReadError>)
      reads source
    {
      match SplitLine(all)
      case Line(text, rest) => err == None && line == text && source.rest == rest
      case LineCut => err == Some(source.end) && source.rest == ""
      case LineBad(rest) => err == Some(Malformed) && source.rest == rest
    }

    /** Both ways of reading a line agree with SplitLine, to the byte. */
    method ReadLine() returns (line: string, err: Option<ReadError>)
      requires buf.Length == 5
      modifies source, buf
      ensures IsLine(old(source.rest), line, err)
      ensures |source.rest| <= |old(source.rest)| && |source.script| <= |old(source.script)|
    {
      if buffered {
        line, err := ReadLineBuffered();
      } else {
        line, err := ReadLineByPairs();
      }
    }

    method ReadLineBuffered() returns (line: string, err: Option<ReadError>)
      modifies source`rest
      ensures IsLine(old(source.rest), line, err)
      ensures |source.rest| <= |old(source.rest)|
    {
      line, err := source.ReadBytes('\r');
      if err != None {
        return;
      }
      ghost var text := line[..|line| - 1];
      SplitAtCR(text, source.rest);
      assert line == text + ['\r'];
      var b;
      b, err := source.ReadByte();
      if err != None {
        return;
      }
      if b != '\n' {
        err := Some(Malformed);
      }
      line := line[..|line| - 1];
    }

    method ReadLineByPairs() returns (line: string, err: Option<ReadError>)
      requires buf.Length == 5
      modifies source, buf
      ensures IsLine(old(source.rest), line, err)
      ensures |source.rest| <= |old(source.rest)| && |source.script| <= |old(source.script)|
    {
      line := "";
      ghost var all := source.rest;
      while true
        invariant '\r' !in line && all == line + source.rest
        invariant |source.script| <= |old(source.script)|
        decreases |source.rest|
      {
        ghost var before := source.rest;
        err := Read2();
        if err != None {
          FreeOrLast(line, before);
          return;
        }
        PairTaken(line, before);
        assert buf[..2] == before[..2];
        if buf[0] == '\r' {
          if buf[1] != '\n' {
            err := Some(Malformed);
          }
          return;
        } else if buf[1] == '\r' {
          line, err := FinishOddLine(line + [buf[0]]);
          return;
        } else {
          line := line + buf[..2];
        }
      }
    }

    /** The CR was the second byte of a pair: one more byte decides. */
    method FinishOddLine(text: string) returns (line: string, err: Option<ReadError>)
      requires buf.Length == 5 && '\r' !in text
      modifies source, buf
      ensures IsLine(text + ['\r'] + old(source.rest), line, err)
      ensures |source.rest| <= |old(source.rest)| && |source.script| <= |old(source.script)|
    {
      SplitAtCR(text, source.rest);
      line := text;
      err := Read1(1);
      if err == None && buf[1] != '\n' {
        err := Some(Malformed);
      }
    }

    /** What SplitLine makes of CR-free text, a CR, and what follows. */
    static lemma SplitAtCR(text: string, rest: string)
      requires '\r' !in text
      ensures SplitLine(text + ['\r'] + rest) ==
              if rest == "" then LineCut
              else if rest[0] != '\n' then LineBad(rest[1..])
              else Line(text, rest[1..])
    {
      IndexOfSplit(text, '\r', rest);
      var s := text + ['\r'] + rest;
      assert rest != "" ==> s[|text| + 1] == rest[0] && s[|text| + 2..] == rest[1..];
    }

    static lemma PairTaken(line: string, before: string)
      requires '\r' !in line && |before| >= 2
      ensures line + before == line + before[..2] + before[2..]
      ensures before[0] == '\r' ==>
                SplitLine(line + before) ==
                (if before[1] != '\n' then LineBad(before[2..]) else Line(line, before[2..]))
      ensures before[1] == '\r' ==> line + before == line + [before[0]] + ['\r'] + before[2..]
    {
      hide SplitLine;
      TakePair(line, before);
      if before[0] == '\r' {
        SplitAtCR(line, before[1..]);
      }
    }

    static lemma TakePair(line: string, before: string)
      requires |before| >= 2
      ensures line + before == line + before[..2] + before[2..]
      ensures line + before == line + [before[0]] + before[1..]
      ensures line + before == line + [before[0]] + [before[1]] + before[2..]
      ensures before[1..] != "" && before[1..][0] == before[1] && before[1..][1..] == before[2..]
    {
    }

    /** With fewer than two bytes left behind a CR-free line, no line can end. */
    static lemma FreeOrLast(line: string, tail: string)
      requires '\r' !in line && |tail| < 2
      ensures SplitLine(line + tail) == LineCut
    {
      if |tail| == 1 && tail[0] == '\r' {
        assert line + tail == line + ['\r'] + "";
        SplitAtCR(line, "");
      }
    }

    method ReadBytesLeft() returns (err: Option<ReadError>)
      requires buf.Length == 5
      modifies this`bytesLeft, source, buf
      ensures |source.rest| <= |old(source.rest)|
      ensures match SplitLine(old(source.rest))
              case Line(text, rest) =>
                && source.rest == rest && bytesLeft == ChunkSize(text).0
                && err == (match ChunkSize(text).1 case None => None case Some(e) => Some(Num(e)))
              case LineCut => err == Some(source.end) && source.rest == ""
              case LineBad(rest) => err == Some(Malformed) && source.rest == rest
      ensures |source.script| <= |old(source.script)|
    {
      var line;
      line, err := ReadLine();
      if err != None {
        return;
      }
      var i := IndexOf(line, ';');
      var size := if i == -1 then line else line[..i];
      var (temp, e) := ParseUint(size, 16, MAX_INT31);
      bytesLeft := temp;
      err := match e case None => None case Some(x) => Some(Num(x));
    }

    method ConsumeCRLF() returns (err: Option<ReadError>)
      requires buf.Length == 5
      modifies source, buf
      ensures var all := old(source.rest);
              if |all| < 2 then err == Some(source.end) && source.rest == ""
              else err == (if all[..2] == CRLF then None else Some(Malformed)) && source.rest == all[2..]
      ensures |source.script| <= |old(source.script)|
    {
      err := Read2();
      if err != None {
        return;
      }
      if buf[0] != '\r' || buf[1] != '\n' {
        return Some(Malformed);
      }
    }

    /** What a failed call means for all there `was` to come: it was all delivered, the error is the
        reference ending and the source stands where the reference decoder stops. */
    static ghost predicate Failed(was: Outcome, piece: string, err: Option<ReadError>,
                                  left: int, rest: string, end: ReadError)
    {
      && was.payload == piece && was.rest == rest && err == Some(Report(was.ending, end))
      && left == LeftAfter(was.ending)
    }

    /** With no error, `piece` comes first and the rest still decodes as before. */
    static ghost predicate Delivers(was: Outcome, piece: string, err: Option<ReadError>,
                                    left: int, rest: string, end: ReadError)
    {
      if err == None then left > 0 && was == Decode(left, rest).After(piece)
      else Failed(was, piece, err, left, rest, end)
    }

    /** What ConsumeCRLF makes of the bytes there were. */
    static ghost predicate Consumed(all: string, err: Option<ReadError>, rest: string, end: ReadError) {
      if |all| < 2 then err == Some(end) && rest == ""
      else err == (if all[..2] == CRLF then None else Some(Malformed)) && rest == all[2..]
    }

    /** A first line that does not give a size. */
    static lemma LineFails(all: string, err: Option<ReadError>, rest: string, end: ReadError)
      requires match SplitLine(all)
               case Line(text, more) =>
                 && rest == more && ChunkSize(text).1 != None
                 && err == Some(Num(ChunkSize(text).1.value))
               case LineCut => err == Some(end) && rest == ""
               case LineBad(more) => err == Some(Malformed) && rest == more
      ensures Failed(Decode(0, all), "", err, -1, rest, end)
    {
    }

    static lemma LineGoesOn(all: string)
      ensures SplitLine(all).Line? && ChunkSize(SplitLine(all).text).1 == None ==>
                var size, rest := ChunkSize(SplitLine(all).text).0, SplitLine(all).rest;
                |rest| < |all| && Decode(0, all) == if size > 0 then Decode(size, rest) else LastLine(rest)
    {
    }

    static lemma LastLineEnds(all: string, err: Option<ReadError>, rest: string, end: ReadError)
      requires Consumed(all, err, rest, end)
      ensures Failed(LastLine(all), "", if err == None then Some(EOF) else err, -1, rest, end)
    {
    }

    /** Reads a chunk's first line; after the last chunk, also the final CRLF. */
    method StartChunk() returns (err: Option<ReadError>)
      requires Valid() && bytesLeft == 0
      modifies this`bytesLeft, source, buf
      ensures bytesLeft >= -1 && (err == None ==> bytesLeft > 0 && Remaining() == old(Remaining()))
      ensures err == None ==> |source.rest| < |old(source.rest)|
      ensures err != None ==> Failed(old(Remaining()), "", err, bytesLeft, source.rest, source.end)
      ensures |source.rest| <= |old(source.rest)| && |source.script| <= |old(source.script)|
    {
      hide Decode, SplitLine, ChunkSize, LastLine, Failed;
      ghost var all := source.rest;
      LineGoesOn(all);
      err := ReadBytesLeft();
      if err != None {
        LineFails(all, err, source.rest, source.end);
        bytesLeft := -1;
        return;
      }
      if bytesLeft == 0 {
        ghost var rest := source.rest;
        bytesLeft := -1;
        err := ConsumeCRLF();
        LastLineEnds(rest, err, source.rest, source.end);
        if err == None {
          err := Some(EOF);
        }
      }
    }

    static lemma NothingToRead(left: nat, end: ReadError)
      requires left > 0
      ensures Failed(Decode(left, ""), "", Some(end), -1, "", end)
    {
    }

    /** All of a chunk's payload has been taken, and its closing tried. */
    static lemma ChunkEnds(left: nat, s: string, err: Option<ReadError>, rest: string, end: ReadError)
      requires 0 < left <= |s| && Consumed(s[left..], err, rest, end)
      ensures err == None ==> Decode(left, s) == Decode(0, rest).After(s[..left]) && |rest| < |s|
      ensures err != None ==> Failed(Decode(left, s), s[..left], err, 0, rest, end)
    {
      hide Decode;
      EndOfChunk(left, s);
    }

    /** Reads payload of the current chunk and, at its end, the closing CRLF. */
    method ReadPayload(out: array<char>, lo: nat, hi: nat) returns (n: nat, err: Option<ReadError>)
      requires Valid() && bytesLeft > 0 && lo <= hi <= out.Length && out != buf
      modifies this`bytesLeft, source, buf, out
      ensures n <= hi - lo && bytesLeft >= -1
      ensures Same(old(out[..]), out[..], lo, n)
      ensures err == None ==> bytesLeft >= 0 && old(Remaining()) == Remaining().After(out[lo..lo + n])
      ensures err == None && bytesLeft == 0 ==> |source.rest| < |old(source.rest)|
      ensures err != None ==> Failed(old(Remaining()), out[lo..lo + n], err, bytesLeft, source.rest, source.end)
      ensures |source.rest| <= |old(source.rest)| && |source.script| <= |old(source.script)|
      ensures err == None && lo < hi ==> source.Effort() < old(source.Effort())
    {
      hide Decode, Failed, Same;
      ghost var left, s, before := bytesLeft, source.rest, out[..];
      var cap := if bytesLeft < hi - lo then bytesLeft else hi - lo;
      n, err := source.Read(out, lo, lo + cap);
      Placed(before, out[..], lo, s[..n]);
      if err != None {
        NothingToRead(left, source.end);
        bytesLeft := -1;
        return;
      }
      bytesLeft := bytesLeft - n;
      if bytesLeft != 0 {
        PartOfChunk(left, s, n);
        return;
      }
      ghost var tail := source.rest;
      err := ConsumeCRLF();
      assert Consumed(tail, err, source.rest, source.end);
      ChunkEnds(left, s, err, source.rest, source.end);
    }

    /** Fills out[lo..hi] with what comes next. */
    method Read(out: array<char>, lo: nat, hi: nat) returns (n: nat, err: Option<ReadError>)
      requires Valid() && lo <= hi <= out.Length && out != buf
      modifies this`bytesLeft, source, buf, out
      ensures Valid() && n <= hi - lo
      ensures Same(old(out[..]), out[..], lo, n)
      ensures Delivers(old(Remaining()), out[lo..lo + n], err, bytesLeft, source.rest, source.end)
      ensures |source.rest| <= |old(source.rest)| && |source.script| <= |old(source.script)|
      ensures err == None && lo < hi ==> source.Effort() < old(source.Effort())
      decreases |source.rest|
    {
      hide Decode, Failed, Same;
      ghost var was, first := Remaining(), out[..];
      SameSelf(first, lo);
      assert out[lo..lo] == "";
      n := 0;
      if bytesLeft < 0 {
        Finished(bytesLeft, source.rest, source.end);
        return 0, Some(EOF);
      } else if bytesLeft == 0 {
        err := StartChunk();
        if err != None {
          return;
        }
      }
      n, err := ReadPayload(out, lo, hi);
      if err != None || bytesLeft != 0 {
        return;
      }
      ghost var between, next := out[..], Remaining();
      var n2;
      n2, err := Read(out, lo + n, hi);
      SameThenSame(first, between, out[..], lo, n, n2);
      JoinReads(was, next, between[lo..lo + n], out[lo + n..lo + n + n2], err, bytesLeft, source.rest, source.end);
      n := n + n2;
    }

    static lemma Finished(left: int, s: string, end: ReadError)
      requires left == -1
      ensures Delivers(Decode(left, s), "", Some(EOF), -1, s, end)
    {
    }

    /** Two states of a caller's buffer agree outside [lo, lo + n). */
    static ghost predicate Same(a: string, b: string, lo: nat, n: nat)
    {
      lo + n <= |a| == |b| && a[..lo] == b[..lo] && a[lo + n..] == b[lo + n..]
    }

    static lemma SameSelf(a: string, lo: nat)
      requires lo <= |a|
      ensures Same(a, a, lo, 0)
    {
    }

    static lemma Placed(a: string, b: string, lo: nat, piece: string)
      requires lo + |piece| <= |a|
      requires b == a[..lo] + piece + a[lo + |piece|..]
      ensures Same(a, b, lo, |piece|) && b[lo..lo + |piece|] == piece
    {
    }

    static lemma SameThenSame(a: string, b: string, c: string, lo: nat, n: nat, n2: nat)
      requires Same(a, b, lo, n) && Same(b, c, lo + n, n2)
      ensures Same(a, c, lo, n + n2)
      ensures c[lo..lo + n + n2] == b[lo..lo + n] + c[lo + n..lo + n + n2]
    {
      assert c[..lo] == c[..lo + n][..lo];
      assert b[..lo] == b[..lo + n][..lo];
      assert c[lo..lo + n] == c[..lo + n][lo..];
      assert b[lo..lo + n] == b[..lo + n][lo..];
      assert b[lo + n + n2..] == b[lo + n..][n2..];
      assert a[lo + n + n2..] == a[lo + n..][n2..];
    }

    static lemma JoinReads(was: Outcome, next: Outcome, first: string, second: string,
                           err: Option<ReadError>, left: int, rest: string, end: ReadError)
      requires was == next.After(first) && Delivers(next, second, err, left, rest, end)
      ensures Delivers(was, first + second, err, left, rest, end)
    {
      Regrouped(first, second, Decode(left, rest).payload);
    }
  }

  /** Reads until the first error with buffers of any positive sizes. Neither they, nor the fragments,
      nor the kind of source change what is read, why reading stops, or where the source is left. */
  method ReadAll(r: Reader, bufferSize: nat -> nat) returns (data: string, err: ReadError)
    requires r.Valid() && forall i :: bufferSize(i) > 0
    modifies r`bytesLeft, r.source, r.buf
    ensures data == old(r.Remaining()).payload && r.source.rest == old(r.Remaining()).rest
    ensures err == Report(old(r.Remaining()).ending, r.source.end)
    ensures r.Valid() && r.bytesLeft == LeftAfter(old(r.Remaining()).ending)
    ensures old(r.bytesLeft) == 0 ==> forall chunks, last, tail |
              ValidMessage(chunks, last) && old(r.source.rest) == Encode(chunks, last) + tail ::
              data == Payload(chunks) && err == EOF && r.source.rest == tail
  {
    hide Decode;
    ghost var was := r.Remaining();
    var calls := 0;
    data := "";
    while true
      invariant r.Valid() && was == r.Remaining().After(data)
      decreases r.source.Effort()
    {
      var out := new char[bufferSize(calls)];
      ghost var next := r.Remaining();
      var n, e := r.Read(out, 0, out.Length);
      Reader.JoinReads(was, next, data, out[0..n], e, r.bytesLeft, r.source.rest, r.source.end);
      data := data + out[0..n];
      if e != None {
        err := e.value;
        break;
      }
      calls := calls + 1;
    }
    forall chunks, last, tail | ValidMessage(chunks, last) && old(r.source.rest) == Encode(chunks, last) + tail
      ensures old(r.bytesLeft) == 0 ==> data == Payload(chunks) && err == EOF && r.source.rest == tail
    {
      DecodeEncode(chunks, last, tail);
    }
  }

  /** A stream cut inside a chunk: two of five bytes. */
  const CUT_STREAM: string := "5\r\nab"

  lemma CutStreamIsCut()
    ensures Decode(0, CUT_STREAM) == Outcome("ab", CutOff, "")
  {
    assert CUT_STREAM == "5" + CRLF + "ab";
    SplitLineAt("5", "ab");
    assert FormatUint(5, 16) == "5";
    ParseFormat(5, 16, MAX_INT31);
    assert SizeText("5") == "5";
  }

  /** When the first error is io.EOF, the body read was a complete message, for all streams, exactly
      on sources whose own end is not io.EOF: a source that merely runs out looks like a finished body. */
  lemma EofMeansCompleteIff(end: ReadError)
    ensures (forall s :: Report(Decode(0, s).ending, end) == EOF ==> StartsWithMessage(s)) <==> end != EOF
  {
    if end == EOF {
      CutStreamIsCut();
      CompleteIff(CUT_STREAM);
      assert Report(Decode(0, CUT_STREAM).ending, end) == EOF;
    } else {
      forall s | Report(Decode(0, s).ending, end) == EOF
        ensures StartsWithMessage(s)
      {
        CompleteIff(s);
      }
    }
  }

  // ---------------------------------------------------------------- reading on after an error

  /** What is to come after a stream has ended with o. */
  function Afterwards(o: Outcome): Outcome {
    Decode(LeftAfter(o.ending), o.rest)
  }

  /** Nothing more is delivered, and io.EOF is the answer. */
  predicate Silent(o: Outcome, end: ReadError) {
    o.payload == "" && Report(o.ending, end) == EOF
  }

  /** A source cut off in a chunk's closing has nothing left. */
  lemma {:induction false} CutOffLeavesNothing(left: int, s: string)
    requires Decode(left, s).ending == CutOffAtChunkEnd
    ensures Decode(left, s).rest == ""
    decreases |s|, left
  {
    if left > 0 {
      if |s| >= left + 2 {
        CutOffLeavesNothing(0, s[left + 2..]);
      }
    } else {
      var line := SplitLine(s);
      CutOffLeavesNothing(ChunkSize(line.text).0, line.rest);
    }
  }

  /** Text that reads as an end, on a source that ends with `end`: no line, or the line of a chunk with nothing
      behind it, where the source itself ends in io.EOF; or the last chunk, with its CRLF or cut off before. */
  predicate Quiet(t: string, end: ReadError) {
    match SplitLine(t)
    case LineCut => end == EOF
    case LineBad(_) => false
    case Line(text, rest) =>
      var (size, err) := ChunkSize(text);
      && err == None
      && if size > 0 then rest == "" && end == EOF
         else if |rest| < 2 then end == EOF
         else rest[..2] == CRLF
  }

  /** Bytes behind a positive size are payload. */
  lemma PayloadFollows(size: nat, rest: string)
    requires size > 0
    ensures Decode(size, rest).payload == "" <==> rest == ""
    ensures rest == "" ==> Decode(size, rest).ending == CutOff
  {
    if rest != "" && |rest| >= size {
      EndOfChunk(size, rest);
    }
  }

  lemma QuietLine(t: string, end: ReadError)
    requires SplitLine(t).Line?
    ensures Silent(Decode(0, t), end) <==> Quiet(t, end)
  {
    hide Decode, SplitLine, ChunkSize, LastLine;
    var line := SplitLine(t);
    var (size, err) := ChunkSize(line.text);
    if err != None {
      BadSizeIsLoud(t, end);
    } else {
      Reader.LineGoesOn(t);
      if size > 0 {
        PayloadFollows(size, line.rest);
      } else {
        QuietLast(line.rest, end);
      }
    }
  }

  lemma BadSizeIsLoud(t: string, end: ReadError)
    requires SplitLine(t).Line? && ChunkSize(SplitLine(t).text).1 != None
    ensures !Silent(Decode(0, t), end)
  {
    hide SplitLine, ChunkSize;
  }

  lemma QuietLast(rest: string, end: ReadError)
    ensures Silent(LastLine(rest), end) <==> if |rest| < 2 then end == EOF else rest[..2] == CRLF
  {
  }

  /** Told from the text alone, whether nothing more is delivered and io.EOF is the answer. */
  lemma QuietIff(t: string, end: ReadError)
    ensures Silent(Decode(0, t), end) <==> Quiet(t, end)
  {
    if SplitLine(t).Line? {
      QuietLine(t, end);
    }
  }

  /** After an error the reader stays silent, except exactly behind a wrong chunk closing unless the text after
      it is an end, and behind a missing one on a source that does not end in io.EOF. */
  lemma SilentIff(left: int, s: string, end: ReadError)
    requires left >= -1
    ensures var o := Decode(left, s);
            Silent(Afterwards(o), end) <==>
            && (o.ending.BadChunkEnd? ==> Quiet(o.rest, end))
            && (o.ending.CutOffAtChunkEnd? ==> end == EOF)
  {
    hide Decode, Quiet;
    var o := Decode(left, s);
    if o.ending.CutOffAtChunkEnd? {
      CutOffLeavesNothing(left, s);
      NothingLeft(end);
    } else if o.ending.BadChunkEnd? {
      QuietIff(o.rest, end);
    } else {
      FinishedIsSilent(o.rest, end);
    }
  }

  lemma NothingLeft(end: ReadError)
    ensures Silent(Decode(0, ""), end) <==> end == EOF
  {
  }

  lemma FinishedIsSilent(s: string, end: ReadError)
    ensures Silent(Decode(-1, s), end)
  {
  }

  /** Reading to the first error, and then again to the next. */
  method ReadAllTwice(r: Reader, bufferSize: nat -> nat)
    returns (data: string, err: ReadError, more: string, err2: ReadError)
    requires r.Valid() && forall i :: bufferSize(i) > 0
    modifies r`bytesLeft, r.source, r.buf
    ensures data == old(r.Remaining()).payload && err == Report(old(r.Remaining()).ending, r.source.end)
    ensures more == Afterwards(old(r.Remaining())).payload
    ensures err2 == Report(Afterwards(old(r.Remaining())).ending, r.source.end)
    ensures more == "" && err2 == EOF <==>
            && (old(r.Remaining()).ending.BadChunkEnd? ==> Quiet(old(r.Remaining()).rest, r.source.end))
            && (old(r.Remaining()).ending.CutOffAtChunkEnd? ==> r.source.end == EOF)
  {
    hide Decode, Report, Silent, Quiet;
    ghost var left, rest := r.bytesLeft, r.source.rest;
    SilentIff(left, rest, r.source.end);
    data, err := ReadAll(r, bufferSize);
    more, err2 := ReadAll(r, bufferSize);
    SilentMeans(Afterwards(Decode(left, rest)), r.source.end);
  }

  lemma SilentMeans(o: Outcome, end: ReadError)
    ensures Silent(o, end) <==> o.payload == "" && Report(o.ending, end) == EOF
  {
  }

  const BAD_CLOSING: string := "1\r\naXX1\r\nb\r\n0\r\n\r\n"
  const AFTER_BAD_CLOSING: string := "1\r\nb\r\n0\r\n\r\n"

  /** A stream that goes on after an error: first "a" and malformed, then "b" and io.EOF. */
  lemma ReadsOnAfterError(end: ReadError)
    ensures Decode(0, BAD_CLOSING) == Outcome("a", BadChunkEnd, AFTER_BAD_CLOSING)
    ensures Afterwards(Decode(0, BAD_CLOSING)) == Outcome("b", Complete, "")
    ensures !Silent(Afterwards(Decode(0, BAD_CLOSING)), end)
  {
    hide Decode;
    BadClosingTexts();
    OneByteChunk("aXX" + AFTER_BAD_CLOSING);
    BadClosing(AFTER_BAD_CLOSING);
    OneByteChunk("b" + CRLF + ("0" + CRLF + CRLF));
    GoodClosing("0" + CRLF + CRLF);
    LastChunk();
    assert "b" + "" == "b";
  }

  lemma BadClosingTexts()
    ensures BAD_CLOSING == "1" + CRLF + ("aXX" + AFTER_BAD_CLOSING)
    ensures AFTER_BAD_CLOSING == "1" + CRLF + ("b" + CRLF + ("0" + CRLF + CRLF))
  {
  }

  lemma OneByteChunk(rest: string)
    ensures Decode(0, "1" + CRLF + rest) == Decode(1, rest)
  {
    SplitLineAt("1", rest);
    assert FormatUint(1, 16) == "1";
    ParseFormat(1, 16, MAX_INT31);
    assert SizeText("1") == "1";
  }

  lemma BadClosing(rest: string)
    ensures Decode(1, "aXX" + rest) == Outcome("a", BadChunkEnd, rest)
  {
    var s := "aXX" + rest;
    assert s[..1] == "a" && s[1..3] == "XX" && s[3..] == rest;
    assert "XX"[0] != CRLF[0];
  }

  lemma GoodClosing(rest: string)
    ensures Decode(1, "b" + CRLF + rest) == Decode(0, rest).After("b")
  {
    var s := "b" + CRLF + rest;
    assert s[..1] == "b" && s[1..3] == CRLF && s[3..] == rest;
  }

  lemma LastChunk()
    ensures Decode(0, "0" + CRLF + CRLF) == Outcome("", Complete, "")
  {
    SplitLineAt("0", CRLF);
    assert FormatUint(0, 16) == "0";
    ParseFormat(0, 16, MAX_INT31);
    assert SizeText("0") == "0";
    assert CRLF[2..] == "" && CRLF[..2] == CRLF;
  }
}
