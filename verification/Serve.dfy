/** The serving side: sniffing a request head, pumping a compressed reply, and the two-way copy. */
module Serve {
  import opened Text
  import opened Compress

  const MAX_HEAD_BYTES := 16384
  const READ_BYTES := 4096

  // --- sniffing ------------------------------------------------------------

  /** What one read of the request stream can give; running out of reads is end of stream. */
  datatype Read = Bytes(bytes: string) | Broken

  /** What `sniff` makes of the reads to come, with `buf` in hand; None when a read fails. */
  function SniffFrom(buf: string, pieces: seq<Read>): Option<(string, bool)>
    decreases |pieces|
  {
    if |buf| >= MAX_HEAD_BYTES || |pieces| == 0 || pieces[0] == Bytes("") then Some((buf, false))
    else if pieces[0].Broken? then None
    else
      var buf' := buf + pieces[0].bytes;
      match HeadEnd(buf')
      case Some(end) => Some((buf', WantsCompression(buf'[..end])))
      case None => SniffFrom(buf', pieces[1..])
  }

  method Sniff(pieces: seq<Read>) returns (r: Option<(string, bool)>)
    ensures r == SniffFrom("", pieces)
  {
    var buf := "";
    var next := 0;
    while |buf| < MAX_HEAD_BYTES
      invariant next <= |pieces| && SniffFrom("", pieces) == SniffFrom(buf, pieces[next..])
      decreases |pieces| - next
    {
      if next == |pieces| { break; }
      var read := pieces[next];
      if read.Broken? { return None; }
      if |read.bytes| == 0 { break; }
      ghost var before := buf;
      buf := buf + read.bytes;
      next := next + 1;
      assert pieces[next - 1..][1..] == pieces[next..];
      var end := HeadEnd(buf);
      if end.Some? { return Some((buf, WantsCompression(buf[..end.value]))); }
    }
    r := Some((buf, false));
  }

  /** The stream cut into reads of one to 4096 bytes. */
  ghost predicate Splits(pieces: seq<Read>, stream: string) {
    if |pieces| == 0 then stream == ""
    else
      && pieces[0].Bytes?
      && 1 <= |pieces[0].bytes| <= READ_BYTES
      && |pieces[0].bytes| <= |stream|
      && stream[..|pieces[0].bytes|] == pieces[0].bytes
      && Splits(pieces[1..], stream[|pieces[0].bytes|..])
  }

  lemma {:induction false} SniffOfRest(buf: string, pieces: seq<Read>, rest: string)
    requires Splits(pieces, rest) && HeadEnd(buf) == None && |buf| < MAX_HEAD_BYTES + READ_BYTES
    ensures SniffFrom(buf, pieces).Some?
    ensures var (got, wants) := SniffFrom(buf, pieces).value;
      && got <= buf + rest && |got| < MAX_HEAD_BYTES + READ_BYTES
      && match HeadEnd(buf + rest)
         case None => !wants && (got == buf + rest || |got| >= MAX_HEAD_BYTES)
         case Some(end) =>
           && (end <= MAX_HEAD_BYTES ==> wants == WantsCompression((buf + rest)[..end]) && end <= |got|)
           && (end >= MAX_HEAD_BYTES + READ_BYTES ==> !wants)
    decreases |pieces|
  {
    var stream := buf + rest;
    assert stream[..|buf|] == buf;
    FindInCut(stream, CRLFCRLF, |buf|);
    if |pieces| == 0 || |buf| >= MAX_HEAD_BYTES {
      assert |pieces| == 0 ==> stream == buf;
    } else {
      var bytes := pieces[0].bytes;
      var buf', rest' := buf + bytes, rest[|bytes|..];
      assert rest == bytes + rest' && buf' + rest' == stream;
      assert stream[..|buf'|] == buf';
      FindInCut(stream, CRLFCRLF, |buf'|);
      if HeadEnd(buf') == None {
        SniffOfRest(buf', pieces[1..], rest');
      } else {
        var end := HeadEnd(buf').value;
        assert buf'[..end] == stream[..end];
      }
    }
  }

  /** The decision depends on the head alone, not on how the request is split into reads nor on any
      byte behind the head, whenever the head ends within 16384 bytes; it is no whenever the head ends
      past 20479; and no more than 20479 bytes are ever held. */
  lemma SniffDecision(pieces: seq<Read>, stream: string)
    requires Splits(pieces, stream)
    ensures SniffFrom("", pieces).Some?
    ensures var (got, wants) := SniffFrom("", pieces).value;
      && got <= stream && |got| <= 20479
      && (HeadEnd(stream) == None ==> !wants)
      && (HeadEnd(stream).Some? && HeadEnd(stream).value <= 16384 ==>
            wants == WantsCompression(stream[..HeadEnd(stream).value]))
      && (HeadEnd(stream).Some? && HeadEnd(stream).value > 20479 ==> !wants)
  {
    FindFirst("", CRLFCRLF);
    assert "" + stream == stream;
    SniffOfRest("", pieces, stream);
  }

  /** The bytes of some reads, in order. */
  function Gathered(pieces: seq<Read>): string {
    if |pieces| == 0 then ""
    else (if pieces[0].Bytes? then pieces[0].bytes else "") + Gathered(pieces[1..])
  }

  /** After these reads, all of them good, the loop goes on: no head has ended, and the limit is not
      reached. */
  ghost predicate GoesOn(buf: string, pieces: seq<Read>) {
    && HeadEnd(buf + Gathered(pieces)) == None && |buf + Gathered(pieces)| < 16384
    && forall j | 0 <= j < |pieces| :: pieces[j].Bytes? && pieces[j].bytes != ""
  }

  /** What is handed back is exactly what was read, no byte lost: the bytes of the first `k` reads, `k`
      being the first number of them at which the head has ended, the limit is reached, or the stream
      has. And it is a yes exactly if the head has ended and asks. */
  lemma {:induction false} SniffExactly(buf: string, pieces: seq<Read>) returns (k: nat)
    requires SniffFrom(buf, pieces).Some? && HeadEnd(buf) == None
    ensures k <= |pieces| && forall j: nat | j < k :: GoesOn(buf, pieces[..j])
    ensures var (got, wants) := SniffFrom(buf, pieces).value;
      && got == buf + Gathered(pieces[..k])
      && (HeadEnd(got).Some? || |got| >= 16384 || k == |pieces| || pieces[k] == Bytes(""))
      && wants == (HeadEnd(got).Some? && WantsCompression(got[..HeadEnd(got).value]))
    decreases |pieces|
  {
    hide HeadEnd, WantsCompression;
    if |buf| >= MAX_HEAD_BYTES || |pieces| == 0 || pieces[0] == Bytes("") {
      k := 0;
      assert buf + Gathered(pieces[..0]) == buf;
    } else {
      var bytes := pieces[0].bytes;
      assert Gathered(pieces[..0]) == "" && buf + "" == buf;
      if HeadEnd(buf + bytes).Some? {
        k := 1;
        OneGathered(pieces);
      } else {
        var k' := SniffExactly(buf + bytes, pieces[1..]);
        k := k' + 1;
        forall j: nat | 1 <= j <= k ensures buf + Gathered(pieces[..j]) == (buf + bytes) + Gathered(pieces[1..][..j - 1]) {
          assert pieces[..j][1..] == pieces[1..][..j - 1];
        }
        forall j: nat | j < k ensures GoesOn(buf, pieces[..j]) {
          if j > 0 {
            assert GoesOn(buf + bytes, pieces[1..][..j - 1]);
            forall i | 0 <= i < j ensures pieces[..j][i].Bytes? && pieces[..j][i].bytes != "" {
              if i > 0 { assert pieces[..j][i] == pieces[1..][..j - 1][i - 1]; }
            }
          }
        }
      }
    }
  }

  lemma OneGathered(pieces: seq<Read>)
    requires |pieces| > 0 && pieces[0].Bytes?
    ensures Gathered(pieces[..1]) == pieces[0].bytes
  {
    assert pieces[..1][1..] == [];
  }

  /** A read that fails while the loop goes on fails the whole. */
  lemma {:induction false} BrokenReadFails(buf: string, front: seq<Read>, behind: seq<Read>)
    requires forall j: nat | j <= |front| :: GoesOn(buf, front[..j])
    ensures SniffFrom(buf, front + [Broken] + behind) == None
    decreases |front|
  {
    hide HeadEnd, WantsCompression;
    var pieces := front + [Broken] + behind;
    assert GoesOn(buf, front[..0]) && buf + "" == buf;
    if |front| == 0 {
    } else {
      assert GoesOn(buf, front[..1]) && front[..1][0] == front[0];
      var bytes := front[0].bytes;
      OneGathered(front);
      forall j: nat | j <= |front[1..]| ensures GoesOn(buf + bytes, front[1..][..j]) {
        assert GoesOn(buf, front[..j + 1]);
        assert front[..j + 1][1..] == front[1..][..j];
        assert buf + Gathered(front[..j + 1]) == (buf + bytes) + Gathered(front[1..][..j]);
        assert forall i | 0 <= i < j :: front[1..][..j][i] == front[..j + 1][i + 1];
      }
      assert pieces[1..] == front[1..] + [Broken] + behind;
      BrokenReadFails(buf + bytes, front[1..], behind);
    }
  }

  /** Whatever the reads, a yes means that the whole stream has a head, and that it asks. */
  lemma SniffOnlyIfAsked(pieces: seq<Read>, stream: string)
    requires Splits(pieces, stream) && SniffFrom("", pieces).Some? && SniffFrom("", pieces).value.1
    ensures HeadEnd(stream).Some? && WantsCompression(stream[..HeadEnd(stream).value])
  {
    hide SniffFrom, WantsCompression;
    FindFirst("", CRLFCRLF);
    SniffDecision(pieces, stream);
    var k := SniffExactly("", pieces);
    var got := SniffFrom("", pieces).value.0;
    assert stream[..|got|] == got;
    FindInCut(stream, CRLFCRLF, |got|);
    assert got[..HeadEnd(got).value] == stream[..HeadEnd(got).value];
  }

  function Chop(s: string): (pieces: seq<Read>)
    ensures Splits(pieces, s)
    decreases |s|
  {
    if |s| == 0 then []
    else
      var n := if |s| < READ_BYTES then |s| else READ_BYTES;
      [Bytes(s[..n])] + Chop(s[n..])
  }

  /** One read of `n` bytes that does not complete the head. */
  lemma SniffOn(stream: string, at: nat, n: nat, more: seq<Read>)
    requires at < MAX_HEAD_BYTES && 1 <= n && at + n <= |stream|
    requires match HeadEnd(stream) case None => true case Some(end) => end > at + n
    ensures SniffFrom(stream[..at], [Bytes(stream[at..at + n])] + more) == SniffFrom(stream[..at + n], more)
  {
    assert stream[..at] + stream[at..at + n] == stream[..at + n];
    FindInCut(stream, CRLFCRLF, at + n);
    assert ([Bytes(stream[at..at + n])] + more)[1..] == more;
  }

  lemma SplitsOn(stream: string, at: nat, n: nat, more: seq<Read>)
    requires 1 <= n <= READ_BYTES && at + n <= |stream| && Splits(more, stream[at + n..])
    ensures Splits([Bytes(stream[at..at + n])] + more, stream[at..])
  {
    assert ([Bytes(stream[at..at + n])] + more)[1..] == more;
    assert stream[at..][n..] == stream[at + n..];
    assert stream[at..][..n] == stream[at..at + n];
  }

  /** Four full reads, and the limit is reached with the head still open. */
  lemma ClosedSplit(stream: string) returns (pieces: seq<Read>)
    requires HeadEnd(stream).Some? && 16384 < HeadEnd(stream).value <= 20479
    ensures Splits(pieces, stream) && SniffFrom("", pieces) == Some((stream[..16384], false))
  {
    HeadEndInStream(stream);
    hide Splits, SniffFrom, HeadEnd, WantsCompression;
    var r4 := Chop(stream[16384..]);
    var r3 := [Bytes(stream[12288..16384])] + r4;
    var r2 := [Bytes(stream[8192..12288])] + r3;
    var r1 := [Bytes(stream[4096..8192])] + r2;
    pieces := [Bytes(stream[0..4096])] + r1;
    SplitsOn(stream, 12288, 4096, r4);
    SplitsOn(stream, 8192, 4096, r3);
    SplitsOn(stream, 4096, 4096, r2);
    SplitsOn(stream, 0, 4096, r1);
    SniffOn(stream, 0, 4096, r1);
    SniffOn(stream, 4096, 4096, r2);
    SniffOn(stream, 8192, 4096, r3);
    SniffOn(stream, 12288, 4096, r4);
    SniffFull(stream[..16384], r4);
    assert stream[..0] == "" && stream[0..] == stream;
  }

  /** The first read a byte short, and a fifth read is made. */
  lemma OpenSplit(stream: string) returns (pieces: seq<Read>)
    requires HeadEnd(stream).Some? && 16384 < HeadEnd(stream).value <= 20479
    ensures Splits(pieces, stream) && SniffFrom("", pieces).Some?
    ensures SniffFrom("", pieces).value.1 == WantsCompression(stream[..HeadEnd(stream).value])
  {
    hide Splits, SniffFrom, HeadEnd, WantsCompression;
    HeadEndInStream(stream);
    var n := if |stream| - 16383 < 4096 then |stream| - 16383 else 4096;
    var last := Chop(stream[16383 + n..]);
    var r4 := [Bytes(stream[16383..16383 + n])] + last;
    var r3 := [Bytes(stream[12287..16383])] + r4;
    var r2 := [Bytes(stream[8191..12287])] + r3;
    var r1 := [Bytes(stream[4095..8191])] + r2;
    pieces := [Bytes(stream[0..4095])] + r1;
    SplitsOn(stream, 16383, n, last);
    SplitsOn(stream, 12287, 4096, r4);
    SplitsOn(stream, 8191, 4096, r3);
    SplitsOn(stream, 4095, 4096, r2);
    SplitsOn(stream, 0, 4095, r1);
    SniffOn(stream, 0, 4095, r1);
    SniffOn(stream, 4095, 4096, r2);
    SniffOn(stream, 8191, 4096, r3);
    SniffOn(stream, 12287, 4096, r4);
    assert stream[..0] == "" && stream[0..] == stream;
    SniffHit(stream, 16383, n, last);
  }

  lemma HeadEndInStream(stream: string)
    ensures HeadEnd(stream).Some? ==> HeadEnd(stream).value <= |stream|
  {}

  /** The limit reached. */
  lemma SniffFull(buf: string, more: seq<Read>)
    requires |buf| >= MAX_HEAD_BYTES
    ensures SniffFrom(buf, more) == Some((buf, false))
  {}

  /** One read of `n` bytes that completes the head. */
  lemma SniffHit(stream: string, at: nat, n: nat, more: seq<Read>)
    requires at < MAX_HEAD_BYTES && 1 <= n && at + n <= |stream|
    requires HeadEnd(stream).Some? && HeadEnd(stream).value <= at + n
    ensures SniffFrom(stream[..at], [Bytes(stream[at..at + n])] + more) ==
            Some((stream[..at + n], WantsCompression(stream[..HeadEnd(stream).value])))
  {
    hide WantsCompression, Find;
    var buf := stream[..at] + stream[at..at + n];
    assert buf == stream[..at + n];
    FindInCut(stream, CRLFCRLF, at + n);
    assert buf[..HeadEnd(stream).value] == stream[..HeadEnd(stream).value];
  }

  /** Between the two bounds the split does decide: any request that asks for compression with a head
      ending there is heard under one split and not under another. */
  lemma SniffGap(stream: string) returns (heard: seq<Read>, missed: seq<Read>)
    requires HeadEnd(stream).Some? && 16384 < HeadEnd(stream).value <= 20479
    requires WantsCompression(stream[..HeadEnd(stream).value])
    ensures Splits(heard, stream) && Splits(missed, stream)
    ensures SniffFrom("", heard).Some? && SniffFrom("", heard).value.1
    ensures SniffFrom("", missed).Some? && !SniffFrom("", missed).value.1
  {
    heard := OpenSplit(stream);
    missed := ClosedSplit(stream);
  }

  // --- the compressed pump -------------------------------------------------

  /** The reads up to the first empty one, which is end of stream. */
  function UpToEnd(pieces: seq<string>): seq<string> {
    if |pieces| == 0 || |pieces[0]| == 0 then [] else [pieces[0]] + UpToEnd(pieces[1..])
  }

  lemma NothingOut(codec: Codec)
    ensures Concat([]) == "" && Emitted(codec, []) == ""
  {}

  /** The compressing half of the bridge: read, push, write what came out, until the reply ends. Nothing
      empty is written. */
  method PumpCompressed(codec: Codec, pieces: seq<string>) returns (writes: seq<string>)
    requires forall h: seq<string> :: |codec.finish(h)| >= 1
    ensures Concat(writes) == MAGIC + Stream(codec, UpToEnd(pieces))
    ensures forall w | w in writes :: w != ""
  {
    hide Emitted, Stream, Concat;
    NothingOut(codec);
    var encoder := new Encoder(codec);
    writes := [];
    var i := 0;
    while i < |pieces| && |pieces[i]| > 0
      invariant i <= |pieces| && encoder.Valid() && encoder.codec == codec && fresh(encoder)
      invariant UpToEnd(pieces) == encoder.pushed + UpToEnd(pieces[i..])
      invariant Concat(writes) == Emitted(codec, encoder.pushed)
      invariant forall w | w in writes :: w != ""
      decreases |pieces| - i
    {
      ghost var before := writes;
      var out := encoder.Push(pieces[i], "");
      if |out| > 0 {
        ConcatSnoc(writes, out);
        writes := writes + [out];
      }
      assert pieces[i..][1..] == pieces[i + 1..];
      i := i + 1;
    }
    assert UpToEnd(pieces[i..]) == [];
    var out := encoder.Finish("");
    assert encoder.pushed == UpToEnd(pieces);
    if |out| > 0 {
      ConcatSnoc(writes, out);
      writes := writes + [out];
    }
  }

  /** The pump is transparent: however the reply is cut into reads, none of them empty, the client
      decodes the reply, unless it is over the cap. */
  lemma PumpIsTransparent(codec: Codec, pieces: seq<string>, max: nat)
    requires Lawful(codec) && forall i | 0 <= i < |pieces| :: |pieces[i]| > 0
    ensures DecodeWithin(codec, MAGIC + Stream(codec, UpToEnd(pieces)), max) ==
            if |Concat(pieces)| <= max then Plain(Concat(pieces)) else TooLarge
  {
    UpToEndIsAll(pieces);
    EnvelopeDecodes(codec, pieces, max);
  }

  lemma {:induction false} UpToEndIsAll(pieces: seq<string>)
    requires forall i | 0 <= i < |pieces| :: |pieces[i]| > 0
    ensures UpToEnd(pieces) == pieces
  {
    if |pieces| == 0 {
    } else {
      UpToEndIsAll(pieces[1..]);
    }
  }
}
