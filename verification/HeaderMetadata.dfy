/** The object whose methods keep size and range in the headers of a message. */
module MetadataObject {
  import opened Strconv
  import R = Ranges
  import opened Metadata
  import opened MetadataRuns

  class HeaderMetadata {
    var values: Header
    ghost var record: Record
    ghost var base: seq<string>

    /** The headers say what the record holds. Headers from elsewhere need not say anything consistent. */
    ghost predicate Valid()
      reads this
    {
      record.Valid() && Shows(values, record, base)
    }

    constructor (h: Header)
      ensures values == h
      ensures (exists b :: Plain(h, b)) ==>
                Valid() && record.size == -1 && record.range == Unset && record.length == None
    {
      values := h;
      record, base := Record(-1, Unset, None, false), [];
      new;
      if b :| Plain(h, b) {
        base := b;
        record := PlainShows(h, b);
      }
    }

    function Size(): (a: Answer<int>)
      reads this
      ensures Valid() ==> a == record.Size()
    {
      assert Valid() ==> SizeOf(values) == record.Size() by {
        if Valid() {
          SizeShows(values, record, base);
        }
      }
      SizeOf(values)
    }

    function Range(): (a: Answer<R.Range>)
      reads this
      ensures Valid() ==> a == record.Range()
    {
      assert Valid() ==> RangeOf(values) == record.Range() by {
        if Valid() {
          RangeShows(values, record, base);
        }
      }
      RangeOf(values)
    }

    method Set(key: string, value: string)
      modifies this`values
      ensures values == old(values)[key := [value]]
    {
      values := values[key := [value]];
    }

    method RemoveContentLength()
      modifies this`values
      ensures CONTENT_LENGTH !in values && EndsChunked(GetValues(values, TRANSFER_ENCODING))
      ensures var codes := GetValues(old(values), TRANSFER_ENCODING);
              GetValues(values, TRANSFER_ENCODING) in [codes, codes + [CHUNKED]]
      ensures EndsChunked(GetValues(old(values), TRANSFER_ENCODING)) ==>
                GetValues(values, TRANSFER_ENCODING) == GetValues(old(values), TRANSFER_ENCODING)
      ensures OthersKept(old(values), values)
      ensures values == WithoutLength(old(values))
    {
      KeysDiffer();
      values := values - {CONTENT_LENGTH};
      var codes := GetValues(values, TRANSFER_ENCODING);
      var last := |codes| - 1;
      if last < 0 || codes[last] != CHUNKED {
        values := values[TRANSFER_ENCODING := codes + [CHUNKED]];
      }
    }

    method SetContentLength(l: int)
      modifies this`values
      ensures GetValues(values, CONTENT_LENGTH) == [FormatInt(l)]
      ensures var codes := GetValues(old(values), TRANSFER_ENCODING);
              GetValues(values, TRANSFER_ENCODING) == if EndsChunked(codes) then codes[..|codes| - 1] else codes
      ensures forall b | GetValues(old(values), TRANSFER_ENCODING) in [b, b + [CHUNKED]] && !EndsChunked(b) ::
                GetValues(values, TRANSFER_ENCODING) == b
      ensures OthersKept(old(values), values)
      ensures values == WithLength(old(values), l)
    {
      KeysDiffer();
      hide FormatInt;
      Set(CONTENT_LENGTH, FormatInt(l));
      var codes := GetValues(values, TRANSFER_ENCODING);
      var last := |codes| - 1;
      if last > -1 && codes[last] == CHUNKED {
        values := values[TRANSFER_ENCODING := codes[..last]];
      }
      forall b | codes in [b, b + [CHUNKED]] && !EndsChunked(b)
        ensures GetValues(values, TRANSFER_ENCODING) == b
      {
        assert (b + [CHUNKED])[..|b|] == b;
      }
    }

    method SetContentRange(r: string, size: string)
      modifies this`values
      ensures values == WithRange(old(values), r, size)
    {
      Set(CONTENT_RANGE, "bytes " + r + "/" + size);
    }

    /** Valid headers follow the record, whatever the call answers; the last clause is for all headers. */
    method SetSize(size: int) returns (a: Answer<()>)
      requires IsInt64(size)
      modifies this
      ensures old(Valid()) ==> Valid() && (record, a) == Step(old(record), Op.SetSize(size)) && base == old(base)
      ensures SameElsewhere(old(values), values)
      ensures Updated(values, a) == AfterSetSize(old(values), size)
    {
      ghost var before := values;
      a := UpdateSize(size);
      ElsewhereKept(before, Op.SetSize(size));
      if record.Valid() && Shows(before, record, base) {
        StepRefines(before, record, base, Op.SetSize(size));
        record := Step(record, Op.SetSize(size)).0;
      }
    }

    method UpdateSize(size: int) returns (a: Answer<()>)
      modifies this`values
      ensures Updated(values, a) == AfterSetSize(old(values), size)
    {
      hide WithRange, WithLength, WithoutLength, SplitContentRange;
      var split := SplitContentRange(values);
      if split == Panic {
        return Panic;
      }
      if split.value.has {
        if size < 0 {
          if size != -1 {
            return Panic;
          }
          SetContentRange(split.value.range, "*");
        } else {
          SetContentRange(split.value.range, FormatInt(size));
        }
        return Answer((), split.err);
      }
      if size < 0 {
        if size != -1 {
          return Panic;
        }
        RemoveContentLength();
      } else {
        SetContentLength(size);
      }
      return Answer((), None);
    }

    /** The same for a range. */
    method SetRange(r: R.Range) returns (a: Answer<()>)
      requires r.Int64()
      modifies this
      ensures old(Valid()) ==> Valid() && (record, a) == Step(old(record), Op.SetRange(r)) && base == old(base)
      ensures SameElsewhere(old(values), values)
      ensures Updated(values, a) == AfterSetRange(old(values), r)
    {
      ghost var before := values;
      a := UpdateRange(r);
      ElsewhereKept(before, Op.SetRange(r));
      if record.Valid() && Shows(before, record, base) {
        StepRefines(before, record, base, Op.SetRange(r));
        record := Step(record, Op.SetRange(r)).0;
      }
    }

    method UpdateRange(r: R.Range) returns (a: Answer<()>)
      modifies this`values
      ensures Updated(values, a) == AfterSetRange(old(values), r)
    {
      hide WithRange, WithLength, SizeOf;
      var size := SizeOf(values);
      if size == Panic {
        return Panic;
      }
      if size.value > -1 {
        var abs := r.Abs(size.value);
        if abs.start < 0 || abs.end < 0 {
          return Answer((), Some(RangeTooLarge));
        }
        SetContentRange(Positions(abs.start, abs.end), FormatUint(size.value, 10));
        SetContentLength(Wrap64(abs.end - abs.start + 1));
      } else if r.start < 0 || r.end < 0 {
        if size.err.Some? {
          return Answer((), size.err);
        }
        SetContentRange("*", "*");
        return Answer((), Some(RangeNotSatisfiable));
      } else {
        SetContentRange(Positions(r.start, r.end), "*");
        SetContentLength(Wrap64(r.end - r.start + 1));
      }
      return Answer((), size.err);
    }
  }

  /** Only Content-Length and Transfer-Encoding differ. */
  ghost predicate OthersKept(h: Header, h2: Header) {
    forall k | k !in [CONTENT_LENGTH, TRANSFER_ENCODING] :: (k in h <==> k in h2) && GetValues(h, k) == GetValues(h2, k)
  }

  /** No update, on whatever headers, touches another header than the three. */
  lemma ElsewhereKept(h: Header, op: Op)
    ensures SameElsewhere(h, After(h, op).h)
  {
    hide SizeOf, SplitContentRange, FormatInt, Positions;
    KeysDiffer();
  }
}
