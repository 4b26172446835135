/** Size and range of a message, kept in its Content-Range, Content-Length and Transfer-Encoding headers
    (section 4.2 of RFC 7233, section 3.3 of RFC 7230). */
module Metadata {
  import opened Strconv
  import opened Ranges

  type Header = map<string, seq<string>>

  const CONTENT_RANGE := "Content-Range"
  const CONTENT_LENGTH := "Content-Length"
  const TRANSFER_ENCODING := "Transfer-Encoding"
  const CHUNKED := "chunked"

  datatype MetaError =
    | MultipleContentRange
    | MalformedContentRange
    | BadNumber(e: NumError)
    | MalformedContentLength(e: NumError)
    | TooManyContentLength
    | RangeTooLarge
    | RangeNotSatisfiable

  /** A run-time panic, or a value with perhaps an error. */
  datatype Answer<T> = Panic | Answer(value: T, err: Option<MetaError>)

  /** The parts of the Content-Range header, if there is one. */
  datatype Parts = Parts(has: bool, range: string, size: string)

  // ---------------------------------------------------------------- reading

  function GetValues(h: Header, key: string): seq<string> {
    if key in h then h[key] else []
  }

  /** Slices cr[:6] whatever the length of the header's value. */
  function SplitContentRange(h: Header): Answer<Parts> {
    var crs := GetValues(h, CONTENT_RANGE);
    if |crs| < 1 then Answer(Parts(false, "", ""), None)
    else if |crs| > 1 then Answer(Parts(true, "", ""), Some(MultipleContentRange))
    else SplitValue(crs[0])
  }

  function SplitValue(cr: string): Answer<Parts> {
    if |cr| < 6 then Panic
    else if cr[..6] != "bytes " then Answer(Parts(true, "", ""), None)
    else
      var rest := cr[6..];
      var i := IndexOf(rest, '/');
      if i == -1 then Answer(Parts(true, "", ""), Some(MalformedContentRange))
      else Answer(Parts(true, rest[..i], rest[i + 1..]), None)
  }

  function SizeOf(h: Header): Answer<int> {
    var split := SplitContentRange(h);
    if split == Panic then Panic
    else if split.value.has then
      if split.value.size == "*" || split.err.Some? then
        Answer(-1, if split.value.range == "*" && split.err == None then Some(MalformedContentRange) else split.err)
      else
        var (size, err) := ParseUint(split.value.size, 10, MAX_INT64);
        Answer(size, if err == None then None else Some(BadNumber(err.value)))
    else
      var lengths := GetValues(h, CONTENT_LENGTH);
      if |lengths| == 0 then Answer(-1, None)
      else if |lengths| == 1 then
        var (length, err) := ParseUint(lengths[0], 10, MAX_INT64);
        Answer(length, if err == None then None else Some(MalformedContentLength(err.value)))
      else Answer(-1, Some(TooManyContentLength))
  }

  function RangeOf(h: Header): Answer<Range> {
    var split := SplitContentRange(h);
    if split == Panic then Panic
    else if !split.value.has || split.value.range == "*" || split.err.Some? then Answer(Range(0, -1), split.err)
    else ParsePositions(split.value.range)
  }

  function ParsePositions(text: string): Answer<Range> {
    var i := IndexOf(text, '-');
    if i == -1 then Answer(Range(0, -1), Some(MalformedContentRange))
    else
      var (start, err) := ParseUint(text[..i], 10, MAX_INT64);
      if err == Some(ErrSyntax) then Answer(Range(start, -1), Some(MalformedContentRange))
      else
        var (end, err2) := ParseUint(text[i + 1..], 10, MAX_INT64);
        var e := if err2 == None then err else err2;
        Answer(Range(start, end), if e == None then None else Some(BadNumber(e.value)))
  }

  // ---------------------------------------------------------------- updating

  function WithRange(h: Header, range: string, size: string): Header {
    h[CONTENT_RANGE := ["bytes " + range + "/" + size]]
  }

  predicate EndsChunked(codes: seq<string>) {
    codes != [] && codes[|codes| - 1] == CHUNKED
  }

  function WithoutLength(h: Header): Header {
    var h2 := h - {CONTENT_LENGTH};
    var codes := GetValues(h2, TRANSFER_ENCODING);
    if EndsChunked(codes) then h2 else h2[TRANSFER_ENCODING := codes + [CHUNKED]]
  }

  function WithLength(h: Header, l: int): Header {
    var h2 := h[CONTENT_LENGTH := [FormatInt(l)]];
    var codes := GetValues(h2, TRANSFER_ENCODING);
    if EndsChunked(codes) then h2[TRANSFER_ENCODING := codes[..|codes| - 1]] else h2
  }

  /** Header and answer after an update. */
  datatype Updated = Updated(h: Header, answer: Answer<()>)

  function AfterSetSize(h: Header, size: int): Updated {
    var split := SplitContentRange(h);
    if split == Panic || size < -1 then Updated(h, Panic)
    else if split.value.has then
      Updated(WithRange(h, split.value.range, if size < 0 then "*" else FormatInt(size)), Answer((), split.err))
    else Updated(if size < 0 then WithoutLength(h) else WithLength(h, size), Answer((), None))
  }

  function Positions(start: nat, end: nat): string {
    FormatUint(start, 10) + "-" + FormatUint(end, 10)
  }

  function AfterSetRange(h: Header, r: Range): Updated {
    var known := SizeOf(h);
    if known == Panic then Updated(h, Panic)
    else if known.value > -1 then
      var abs := r.Abs(known.value);
      if !abs.IsAbsolute() then Updated(h, Answer((), Some(RangeTooLarge)))
      else
        var h2 := WithRange(h, Positions(abs.start, abs.end), FormatUint(known.value, 10));
        Updated(WithLength(h2, Wrap64(abs.end - abs.start + 1)), Answer((), known.err))
    else if !r.IsAbsolute() then
      if known.err.Some? then Updated(h, Answer((), known.err))
      else Updated(WithRange(h, "*", "*"), Answer((), Some(RangeNotSatisfiable)))
    else
      var h2 := WithRange(h, Positions(r.start, r.end), "*");
      Updated(WithLength(h2, Wrap64(r.end - r.start + 1)), Answer((), known.err))
  }
}
