/** The compression envelope around a response: who asks for it, how it is written, how it is undone. */
module Compress {
  import opened Text

  const ACCEPT_HEADER := "X-Quackhole-Accept-Encoding"
  const ACCEPT_VALUE := "gzip"
  const MAGIC := "\0QHZ1"

  // --- asking --------------------------------------------------------------

  /** How long the head at the front of `buf` is, with its blank line, once all of it is there. */
  function HeadEnd(buf: string): Option<nat> {
    match Find(buf, CRLFCRLF)
    case None => None
    case Some(i) => Some(i + 4)
  }

  predicate AsksForGzip(line: string) {
    match SplitOnce(line, ':')
    case None => false
    case Some((name, value)) =>
      EqIgnoreCase(Trim(name), ACCEPT_HEADER) &&
      exists v | v in Split(value, ",") :: EqIgnoreCase(Trim(v), ACCEPT_VALUE)
  }

  predicate WantsCompression(head: string) {
    exists line | line in Split(head, CRLF) :: AsksForGzip(line)
  }

  // --- the codec -----------------------------------------------------------

  /** A streaming codec seen from outside. Its sink is stateful: what a push releases, and what is
      left to release at the end, may depend on everything pushed before. `expand` gives the bytes a
      decoder gets out before it stops, and whether it stopped at a proper end of stream. */
  datatype Codec = Codec(
    push: seq<string> -> string,
    finish: seq<string> -> string,
    expand: string -> (string, bool))

  /** Everything the sink has released after the pushes `h`. */
  function Released(c: Codec, h: seq<string>): string {
    if |h| == 0 then "" else Released(c, h[..|h| - 1]) + c.push(h)
  }

  function Stream(c: Codec, h: seq<string>): string {
    Released(c, h) + c.finish(h)
  }

  /** The complete stream expands to everything pushed, its end always has bytes of its own (gzip's CRC
      and length), and a stream cut short is not taken for a complete one. */
  ghost predicate Lawful(c: Codec) {
    && (forall h: seq<string> :: c.expand(Stream(c, h)) == (Concat(h), true))
    && (forall h: seq<string> :: |c.finish(h)| >= 1)
    && (forall h: seq<string>, k: nat | k < |Stream(c, h)| :: !c.expand(Stream(c, h)[..k]).1)
  }

  // --- writing -------------------------------------------------------------

  /** What the encoder has handed out after the pushes `h`: the magic waits for the first byte. */
  function Emitted(c: Codec, h: seq<string>): string {
    if Released(c, h) == "" then "" else MAGIC + Released(c, h)
  }

  /** `emit`: move what is ready to `out`, the magic first, and only once. */
  method Emit(started: bool, ready: string, out: string) returns (started': bool, ready': string, out': string)
    ensures ready' == "" && started' == (started || ready != "")
    ensures out' == out + (if ready == "" then "" else (if started then "" else MAGIC) + ready)
  {
    started', ready', out' := started, ready, out;
    if |ready| == 0 { return; }
    if !started {
      started' := true;
      out' := out' + MAGIC;
    }
    out' := out' + ready;
    ready' := "";
  }

  class Encoder {
    const codec: Codec
    var started: bool
    var sink: string
    var pushed: seq<string>

    constructor (codec: Codec)
      ensures Valid() && pushed == [] && this.codec == codec
    {
      this.codec := codec;
      started, sink, pushed := false, "", [];
    }

    /** Between calls the sink is drained, and the flag says whether anything has gone out. */
    ghost predicate Valid()
      reads this
    {
      sink == "" && started == (Released(codec, pushed) != "")
    }

    method Push(chunk: string, out: string) returns (out': string)
      requires Valid()
      modifies this
      ensures Valid() && pushed == old(pushed) + [chunk]
      ensures out <= out' && Emitted(codec, pushed) == Emitted(codec, old(pushed)) + out'[|out|..]
    {
      pushed := pushed + [chunk];
      assert pushed[..|pushed| - 1] == old(pushed);
      sink := sink + codec.push(pushed);
      started, sink, out' := Emit(started, sink, out);
    }

    /** The end of the stream. The magic goes out here at the latest. */
    method Finish(out: string) returns (out': string)
      requires Valid() && |codec.finish(pushed)| >= 1
      modifies this
      ensures pushed == old(pushed)
      ensures out <= out' && Emitted(codec, pushed) + out'[|out|..] == MAGIC + Stream(codec, pushed)
    {
      var tail := sink + codec.finish(pushed);
      started, sink, out' := Emit(started, tail, out);
    }
  }

  /** What has gone out so far is always the beginning of the finished envelope. */
  lemma EmittedIsPrefix(c: Codec, h: seq<string>)
    ensures Emitted(c, h) <= MAGIC + Stream(c, h)
  {}

  // --- undoing -------------------------------------------------------------

  datatype Decoded = Plain(bytes: string) | Corrupt | TooLarge

  /** `decode_within`: the expansion is read through a reader that stops after `max + 1` bytes. */
  function DecodeWithin(c: Codec, raw: string, max: nat): Decoded {
    if !StartsWith(raw, MAGIC) then Plain(raw)
    else
      var (bytes, complete) := c.expand(raw[|MAGIC|..]);
      if |bytes| > max then TooLarge else if !complete then Corrupt else Plain(bytes)
  }

  /** Compression is transparent, up to the cap and not past it: the envelope of any pushes decodes
      to what was pushed exactly when that fits. */
  lemma EnvelopeDecodes(c: Codec, h: seq<string>, max: nat)
    requires Lawful(c)
    ensures DecodeWithin(c, MAGIC + Stream(c, h), max) == (if |Concat(h)| <= max then Plain(Concat(h)) else TooLarge)
  {
    var raw := MAGIC + Stream(c, h);
    assert raw[|MAGIC|..] == Stream(c, h);
  }

  /** An envelope cut short at any point is never taken for a shorter reply: it is refused, or - cut
      inside the magic - handed on as something that is no HTTP message. */
  lemma CutEnvelopeIsNoReply(c: Codec, h: seq<string>, k: nat, max: nat)
    requires Lawful(c) && k < |MAGIC + Stream(c, h)|
    ensures match DecodeWithin(c, (MAGIC + Stream(c, h))[..k], max)
            case Plain(bytes) => k < |MAGIC| && bytes == MAGIC[..k] && HeadEnd(bytes) == None
            case _ => true
  {
    var raw := (MAGIC + Stream(c, h))[..k];
    if k < |MAGIC| {
      assert raw == MAGIC[..k];
      assert |raw| >= 4 ==> raw[0..4][0] == '\0';
      FindFirst(raw, CRLFCRLF);
    } else {
      assert raw == MAGIC + Stream(c, h)[..k - |MAGIC|];
      assert raw[|MAGIC|..] == Stream(c, h)[..k - |MAGIC|];
    }
  }

  // --- a codec that keeps the law -----------------------------------------

  function Escape(s: string): string {
    if |s| == 0 then "" else ['.', s[0]] + Escape(s[1..])
  }

  function Unescape(s: string): (string, bool) {
    if |s| == 0 then ("", false)
    else if s[0] == '!' then ("", true)
    else if |s| == 1 then ("", false)
    else
      var (rest, complete) := Unescape(s[2..]);
      ([s[1]] + rest, complete)
  }

  const STORED := Codec(
    (h: seq<string>) => if |h| == 0 then "" else Escape(h[|h| - 1]),
    (h: seq<string>) => "!",
    (s: string) => Unescape(s))

  lemma {:induction false} EscapeAppend(a: string, b: string)
    ensures Escape(a + b) == Escape(a) + Escape(b)
  {
    if |a| == 0 {
      assert a + b == b;
    } else {
      assert (a + b)[1..] == a[1..] + b;
      EscapeAppend(a[1..], b);
    }
  }

  lemma {:induction false} StoredReleases(h: seq<string>)
    ensures Released(STORED, h) == Escape(Concat(h))
  {
    hide Escape, Unescape, Concat;
    if |h| == 0 {
      NothingStored();
    } else {
      var front, last := h[..|h| - 1], h[|h| - 1];
      StoredReleases(front);
      assert h == front + [last];
      ConcatSnoc(front, last);
      EscapeAppend(Concat(front), last);
    }
  }

  lemma NothingStored()
    ensures Escape(Concat([])) == ""
  {}

  lemma {:induction false} UnescapeEscape(s: string)
    ensures Unescape(Escape(s) + "!") == (s, true)
  {
    if |s| == 0 {
    } else {
      var e := Escape(s) + "!";
      assert e == ['.', s[0]] + (Escape(s[1..]) + "!");
      assert e[2..] == Escape(s[1..]) + "!";
      UnescapeEscape(s[1..]);
      assert [s[0]] + s[1..] == s;
    }
  }

  /** The law asked of a codec can be kept. */
  lemma StoredIsLawful()
    ensures Lawful(STORED)
  {
    forall h: seq<string> ensures STORED.expand(Stream(STORED, h)) == (Concat(h), true) && |STORED.finish(h)| >= 1 {
      StoredReleases(h);
      UnescapeEscape(Concat(h));
    }
    forall h: seq<string>, k: nat | k < |Stream(STORED, h)| ensures !STORED.expand(Stream(STORED, h)[..k]).1 {
      StoredReleases(h);
      UnescapeEscapeCut(Concat(h), k);
    }
  }

  lemma {:induction false} UnescapeEscapeCut(s: string, k: nat)
    requires k < |Escape(s) + "!"|
    ensures !Unescape((Escape(s) + "!")[..k]).1
    decreases |s|
  {
    var e := Escape(s) + "!";
    if |s| == 0 || k < 2 {
    } else {
      assert e == ['.', s[0]] + (Escape(s[1..]) + "!");
      assert e[..k][2..] == (Escape(s[1..]) + "!")[..k - 2];
      UnescapeEscapeCut(s[1..], k - 2);
    }
  }
}
