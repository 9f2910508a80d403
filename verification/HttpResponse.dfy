/** What a response on the wire means to `parse_response`: every framed response cut short is an
    error, bytes after the body change nothing, and the chunked decoder undoes the chunked coding. */
module HttpResponse {
  import opened Text
  import opened Numbers
  import opened Http

  // --- where a chunked body ends -------------------------------------------

  /** The bytes of `data` up to and including the CRLF of the zero size line, if it comes to one. */
  function ChunkedEnd(data: string, max: nat): nat
    decreases |data|
  {
    match ReadSize(data, max)
    case Err(_) => |data|
    case Ok((end, size)) =>
      if size == 0 then end + 2 else end + 2 + size + 2 + ChunkedEnd(Drop(data[end + 2..], size + 2), max)
  }

  lemma {:induction false} ChunkedEndInData(data: string, max: nat)
    requires Unchunk(data, max).Ok?
    ensures ChunkedEnd(data, max) <= |data|
    decreases |data|
  {
    hide Unchunk, ReadSize, ChunkedEnd;
    ChunksAreSized(data, max);
    ReadSizeInCut(data, |data|, max);
    var (end, size) := ReadSize(data, max).value;
    if size > 0 {
      OneChunk(data, max);
      ChunkedEndInData(Drop(data[end + 2..], size + 2), max);
      DropsWhole(data, end + 2, size, max);
    } else {
      NoChunk(data, max);
    }
  }

  /** A chunk is followed by more data: what follows, decoded, holds at least a size line. */
  lemma DropsWhole(data: string, from: nat, size: nat, max: nat)
    requires from <= |data| && Unchunk(Drop(data[from..], size + 2), max).Ok?
    ensures from + size + 2 + |Drop(data[from..], size + 2)| == |data|
  {}

  /** A size line is read the same from any prefix that holds it, and not at all from a shorter one. */
  lemma ReadSizeInCut(data: string, k: nat, max: nat)
    requires k <= |data| && ReadSize(data, max).Ok?
    ensures var (end, size) := ReadSize(data, max).value;
      && end + 2 <= |data|
      && (end + 2 <= k ==> ReadSize(data[..k], max) == ReadSize(data, max))
      && (end + 2 > k ==> ReadSize(data[..k], max).Err?)
  {
    FindInCut(data, CRLF, k);
    var (end, size) := ReadSize(data, max).value;
    if end + 2 <= k { assert data[..k][..end] == data[..end]; }
  }

  /** What a first chunk contributes, and what is left to decode behind it. */
  lemma OneChunk(data: string, max: nat)
    requires ReadSize(data, max).Ok? && ReadSize(data, max).value.1 > 0 && Unchunk(data, max).Ok?
    ensures var (end, size) := ReadSize(data, max).value;
      && end + 2 + size <= |data|
      && var more := Drop(data[end + 2..], size + 2);
      && |more| < |data| && Unchunk(more, max).Ok?
      && Unchunk(data, max) == Prepend(data[end + 2..][..size], Unchunk(more, max))
      && ChunkedEnd(data, max) == end + 2 + size + 2 + ChunkedEnd(more, max)
  {}

  lemma NoChunk(data: string, max: nat)
    requires ReadSize(data, max).Ok? && ReadSize(data, max).value.1 == 0 && Unchunk(data, max).Ok?
    ensures Unchunk(data, max) == Ok("") && ChunkedEnd(data, max) == ReadSize(data, max).value.0 + 2
  {}

  /** The first chunk of cut data, the cut being behind its size line. */
  lemma OneChunkCut(cut: string, end: nat, size: nat, max: nat)
    requires |cut| > 0 && ReadSize(cut, max) == Ok((end, size)) && end + 2 <= |cut| && size > 0
    ensures size > |cut| - end - 2 ==> Unchunk(cut, max).Err?
    ensures size <= |cut| - end - 2 ==>
              Unchunk(cut, max) == Prepend(cut[end + 2..][..size], Unchunk(Drop(cut[end + 2..], size + 2), max))
  {}

  lemma CutSlices(data: string, k: nat, from: nat, size: nat)
    requires from + size <= k <= |data|
    ensures data[..k][from..][..size] == data[from..][..size]
    ensures Drop(data[..k][from..], size + 2) ==
            Drop(data[from..], size + 2)[..if from + size + 2 <= k then k - from - size - 2 else 0]
  {}

  /** Cutting chunked data: before the CRLF of the zero size line it is an error, never a shorter
      body; from there on nothing changes. */
  lemma {:induction false} ChunkedCut(data: string, k: nat, max: nat)
    requires Unchunk(data, max).Ok? && k <= |data|
    ensures k < ChunkedEnd(data, max) ==> Unchunk(data[..k], max).Err?
    ensures k >= ChunkedEnd(data, max) ==> Unchunk(data[..k], max) == Unchunk(data, max)
    decreases |data|
  {
    hide Unchunk, ReadSize, ChunkedEnd;
    ChunksAreSized(data, max);
    ReadSizeInCut(data, k, max);
    CutEmpty(data[..k], max);
    if ReadSize(data, max).value.1 == 0 {
      NoChunk(data, max);
      CutLast(data[..k], max);
    } else {
      OneChunk(data, max);
      var (end, size) := ReadSize(data, max).value;
      var more := Drop(data[end + 2..], size + 2);
      ChunkedEndIsPositive(more, max);
      if end + 2 <= k {
        OneChunkCut(data[..k], end, size, max);
        if end + 2 + size <= k {
          CutSlices(data, k, end + 2, size);
          ChunkedCut(more, if end + 2 + size + 2 <= k then k - end - 2 - size - 2 else 0, max);
        }
      }
    }
  }

  lemma ChunksAreSized(data: string, max: nat)
    requires Unchunk(data, max).Ok?
    ensures |data| > 0 && ReadSize(data, max).Ok?
  {}

  lemma CutEmpty(cut: string, max: nat)
    ensures |cut| == 0 || ReadSize(cut, max).Err? ==> Unchunk(cut, max).Err?
  {}

  lemma CutLast(cut: string, max: nat)
    ensures |cut| > 0 && ReadSize(cut, max).Ok? && ReadSize(cut, max).value.1 == 0 ==> Unchunk(cut, max) == Ok("")
  {}

  lemma ChunkedEndIsPositive(data: string, max: nat)
    requires Unchunk(data, max).Ok?
    ensures ChunkedEnd(data, max) >= 2
  {}

  // --- a whole response cut short ------------------------------------------

  /** How the head of a response frames its body. */
  function FramingIn(bytes: string, max: nat): Framing {
    match Find(bytes, CRLFCRLF)
    case None => ToTheEnd
    case Some(split) => FramingOf(HeadersOf(bytes[..split]), max)
  }

  /** Where the body of an accepted, framed response is complete. */
  function Complete(bytes: string, max: nat): nat
    requires Parse(bytes, true, max).Ok?
  {
    var split := Find(bytes, CRLFCRLF).value;
    var rest := bytes[split + 4..];
    match FramingIn(bytes, max)
    case Chunked => split + 4 + ChunkedEnd(rest, max)
    case Length(len) => split + 4 + len
    case ToTheEnd => |bytes|
  }

  lemma CutBody(rest: string, framing: Framing, k: nat, max: nat)
    requires k <= |rest| && BodyOf(rest, framing, max).Ok? && !framing.ToTheEnd?
    ensures var end := if framing.Chunked? then ChunkedEnd(rest, max) else framing.len;
      && (k < end ==> BodyOf(rest[..k], framing, max).Err?)
      && (k >= end ==> BodyOf(rest[..k], framing, max) == BodyOf(rest, framing, max))
  {
    match framing
    case Chunked => ChunkedCut(rest, k, max);
    case Length(len) => if k >= len { assert rest[..k][..len] == rest[..len]; }
  }

  /** The head of a cut response: there when the cut is behind it, missing otherwise. */
  lemma CutHead(bytes: string, k: nat, split: nat)
    requires k <= |bytes| && Find(bytes, CRLFCRLF) == Some(split)
    ensures k < split + 4 ==> Find(bytes[..k], CRLFCRLF) == None
    ensures k >= split + 4 ==> Find(bytes[..k], CRLFCRLF) == Some(split) && bytes[..k][..split] == bytes[..split] &&
                               bytes[..k][split + 4..] == bytes[split + 4..][..k - split - 4]
  {
    FindInCut(bytes, CRLFCRLF, k);
  }

  /** A body is complete within what was accepted. */
  lemma CompleteIsInside(bytes: string, max: nat)
    requires Parse(bytes, true, max).Ok?
    ensures Complete(bytes, max) <= |bytes|
  {
    hide Unchunk, ChunkedEnd, StatusOf, FramingOf, HeadersOf, Split;
    var split := Find(bytes, CRLFCRLF).value;
    if FramingIn(bytes, max).Chunked? { ChunkedEndInData(bytes[split + 4..], max); }
  }

  /** A framed response, cut anywhere, is accepted exactly when its body is complete, and then means
      the same: truncation is always an error, never a shorter body. */
  lemma TruncationIsAnError(bytes: string, k: nat, max: nat)
    requires Parse(bytes, true, max).Ok? && !FramingIn(bytes, max).ToTheEnd? && k <= |bytes|
    ensures Parse(bytes[..k], true, max).Ok? <==> k >= Complete(bytes, max)
    ensures k >= Complete(bytes, max) ==> Parse(bytes[..k], true, max) == Parse(bytes, true, max)
  {
    hide Unchunk, ChunkedEnd, StatusOf, FramingOf, HeadersOf, Split, BodyOf;
    var split := Find(bytes, CRLFCRLF).value;
    CutHead(bytes, k, split);
    if k >= split + 4 {
      CutBody(bytes[split + 4..], FramingIn(bytes, max), k - split - 4, max);
    }
  }

  /** One more turn of the decoder sees the same, whatever follows. */
  lemma {:induction false} ChunkedMore(data: string, more: string, max: nat)
    requires Unchunk(data, max).Ok?
    ensures Unchunk(data + more, max) == Unchunk(data, max)
    decreases |data|
  {
    hide Unchunk, ReadSize, ChunkedEnd;
    ChunksAreSized(data, max);
    SizeMore(data, more, max);
    var (end, size) := ReadSize(data, max).value;
    if size == 0 {
      NoChunk(data, max);
      CutLast(data + more, max);
    } else {
      OneChunk(data, max);
      var rest := Drop(data[end + 2..], size + 2);
      DropsWhole(data, end + 2, size, max);
      ChunkedMore(rest, more, max);
      OneChunkCut(data + more, end, size, max);
      var whole := (data + more)[end + 2..];
      assert whole == data[end + 2..] + more;
      assert whole[..size] == data[end + 2..][..size];
      DropMore(data[end + 2..], more, size + 2);
    }
  }

  lemma DropMore(s: string, more: string, n: nat)
    requires n <= |s|
    ensures Drop(s + more, n) == Drop(s, n) + more
  {}

  lemma SizeMore(data: string, more: string, max: nat)
    requires ReadSize(data, max).Ok?
    ensures ReadSize(data + more, max) == ReadSize(data, max)
  {
    var end := ReadSize(data, max).value.0;
    assert (data + more)[..|data|] == data;
    FindInCut(data + more, CRLF, |data|);
    FoundStays(data, more, CRLF);
    assert (data + more)[..end] == data[..end];
  }

  /** The other way round: whatever bytes follow an accepted, framed response, it means the same. */
  lemma BytesBehindChangeNothing(bytes: string, more: string, max: nat)
    requires Parse(bytes, true, max).Ok? && !FramingIn(bytes, max).ToTheEnd?
    ensures Parse(bytes + more, true, max) == Parse(bytes, true, max)
  {
    hide Unchunk, StatusOf, FramingOf, HeadersOf, Split;
    var split := Find(bytes, CRLFCRLF).value;
    FoundStays(bytes, more, CRLFCRLF);
    assert (bytes + more)[..split] == bytes[..split];
    assert (bytes + more)[split + 4..] == bytes[split + 4..] + more;
    BodyMore(bytes[split + 4..], more, FramingIn(bytes, max), max);
  }

  lemma BodyMore(rest: string, more: string, framing: Framing, max: nat)
    requires BodyOf(rest, framing, max).Ok? && !framing.ToTheEnd?
    ensures BodyOf(rest + more, framing, max) == BodyOf(rest, framing, max)
  {
    match framing
    case Chunked => ChunkedMore(rest, more, max);
    case Length(len) => assert (rest + more)[..len] == rest[..len];
  }

  /** A response framed by neither runs to the end of the stream, and there truncation is silent: the
      guarantee above holds exactly for the framed. */
  lemma UnframedTruncationIsSilent(bytes: string, k: nat, max: nat)
    requires Parse(bytes, true, max).Ok? && FramingIn(bytes, max).ToTheEnd? && k <= |bytes|
    ensures var split := Find(bytes, CRLFCRLF).value;
      k >= split + 4 ==>
        Parse(bytes[..k], true, max) ==
          Ok(Parse(bytes, true, max).value.(body := bytes[split + 4..k])) &&
        (k < |bytes| ==> Parse(bytes[..k], true, max) != Parse(bytes, true, max))
  {
    var split := Find(bytes, CRLFCRLF).value;
    CutHead(bytes, k, split);
    hide StatusOf, FramingOf, HeadersOf, Split;
    if k >= split + 4 {
      assert bytes[split + 4..][..k - split - 4] == bytes[split + 4..k];
    }
  }

  // --- the chunked coding --------------------------------------------------

  /** One chunk as a sender may write it: any spelling of its size, any extension. */
  datatype Chunk = Chunk(sizeText: string, ext: string, data: string)

  /** RFC 9112, section 7.1, as far as the decoder relies on it. */
  predicate WellSized(sizeText: string, ext: string, size: nat, max: nat) {
    && ParseUnsigned(Trim(sizeText), 16, max) == Some(size)
    && ';' !in sizeText
    && (|ext| > 0 ==> ext[0] == ';')
    && !Contains(sizeText + ext, CRLF)
  }

  predicate WellFormed(c: Chunk, max: nat) {
    |c.data| > 0 && WellSized(c.sizeText, c.ext, |c.data|, max)
  }

  /** The chunks, then the last one (its size zero), then whatever trails it. */
  function Encode(chunks: seq<Chunk>, last: Chunk, trailer: string): string {
    if |chunks| == 0 then last.sizeText + last.ext + CRLF + trailer
    else
      chunks[0].sizeText + chunks[0].ext + CRLF + (chunks[0].data + CRLF + Encode(chunks[1..], last, trailer))
  }

  function Payload(chunks: seq<Chunk>): string {
    if |chunks| == 0 then "" else chunks[0].data + Payload(chunks[1..])
  }

  lemma SizeLineReads(sizeText: string, ext: string, size: nat, rest: string, max: nat)
    requires WellSized(sizeText, ext, size, max)
    ensures ReadSize(sizeText + ext + CRLF + rest, max) == Ok((|sizeText + ext|, size))
  {
    var line := sizeText + ext;
    var data := line + CRLF + rest;
    NoCrlfIsClean(line);
    FindAfterClean(line, CRLF, rest);
    assert data[..|line|] == line;
    SizeTextOf(sizeText, ext);
  }

  lemma SizeTextOf(sizeText: string, ext: string)
    requires ';' !in sizeText && (|ext| > 0 ==> ext[0] == ';')
    ensures SizeText(sizeText + ext) == Trim(sizeText)
  {
    NoCharIsClean(sizeText, ';');
    if |ext| > 0 {
      assert sizeText + ext == sizeText + [';'] + ext[1..];
      FindAfterClean(sizeText, [';'], ext[1..]);
      assert (sizeText + ext)[..|sizeText|] == sizeText;
    } else {
      assert sizeText + ext == sizeText;
      FindFirst(sizeText, [';']);
      if Find(sizeText, [';']).Some? { AtChars(sizeText, Find(sizeText, [';']).value, [';']); }
    }
  }

  /** The decoder undoes the coding, for every list of non-empty chunks, every spelling of their
      sizes and every extension; and it stops right behind the zero size line. */
  lemma {:induction false} UnchunkEncode(chunks: seq<Chunk>, last: Chunk, trailer: string, max: nat)
    requires forall c | c in chunks :: WellFormed(c, max)
    requires WellSized(last.sizeText, last.ext, 0, max)
    ensures Unchunk(Encode(chunks, last, trailer), max) == Ok(Payload(chunks))
    ensures ChunkedEnd(Encode(chunks, last, trailer), max) == |Encode(chunks, last, trailer)| - |trailer|
  {
    var data := Encode(chunks, last, trailer);
    if |chunks| == 0 {
      SizeLineReads(last.sizeText, last.ext, 0, trailer, max);
    } else {
      var c, more := chunks[0], Encode(chunks[1..], last, trailer);
      var line := c.sizeText + c.ext;
      assert WellFormed(c, max);
      SizeLineReads(c.sizeText, c.ext, |c.data|, c.data + CRLF + more, max);
      assert data == line + CRLF + (c.data + CRLF + more);
      assert data[|line| + 2..] == c.data + CRLF + more;
      UnchunkEncode(chunks[1..], last, trailer, max);
      hide ReadSize, Encode, WellFormed, WellSized;
      assert (c.data + CRLF + more)[..|c.data|] == c.data;
      assert Drop(c.data + CRLF + more, |c.data| + 2) == more;
    }
  }

  /** Sizes as senders write them - each digit in either letter case, any number of leading zeros - are
      spellings the theorem above covers, up to the largest machine word. */
  lemma HexIsASpelling(n: nat, digits: string, zeros: nat, ext: string, max: nat)
    requires EqIgnoreCase(digits, Print(n, 16, false))
    requires n <= max && (|ext| > 0 ==> ext[0] == ';') && !Contains(ext, CRLF)
    ensures WellSized(Zeros(zeros) + digits, ext, n, max)
  {
    hide Value, ParseUnsigned, Print, Trim;
    var text := Zeros(zeros) + digits;
    ValuePrint(n, 16, false);
    ValueIgnoresCase(digits, Print(n, 16, false), 16);
    ValueZeros(zeros, digits, 16);
    ZerosSnoc(zeros);
    forall i | 0 <= i < |text| ensures DigitValue(text[i]).Some? {
      if i < |Zeros(zeros)| { assert text[i] in Zeros(zeros); } else { assert digits[i - |Zeros(zeros)|] in digits; }
    }
    SpelledIsSized(text, ext, n, max);
  }

  lemma ParsesToValue(text: string, n: nat, max: nat)
    requires |text| > 0 && DigitValue(text[0]).Some? && Value(text, 16) == Some(n) && n <= max
    ensures ParseUnsigned(text, 16, max) == Some(n)
  {
    hide Value;
  }

  lemma SpelledIsSized(text: string, ext: string, n: nat, max: nat)
    requires |text| > 0 && (forall i | 0 <= i < |text| :: DigitValue(text[i]).Some?) && Value(text, 16) == Some(n)
    requires n <= max && (|ext| > 0 ==> ext[0] == ';') && !Contains(ext, CRLF)
    ensures WellSized(text, ext, n, max)
  {
    hide Value, Trim, ParseUnsigned;
    ParsesToValue(text, n, max);
    forall c | c in text ensures DigitValue(c).Some? {
      var i :| 0 <= i < |text| && text[i] == c;
    }
    assert NoSpace(text) && ';' !in text && '\r' !in text && '\n' !in text && '+' !in text;
    TrimNoSpace(text);
    assert text[0] in text;
    forall i: nat ensures !At(text + ext, i, CRLF) {
      if i < |text| {
        if At(text + ext, i, CRLF) { AtChars(text + ext, i, CRLF); }
      } else {
        AtInSuffix(text, ext, i, CRLF);
      }
    }
  }
}
