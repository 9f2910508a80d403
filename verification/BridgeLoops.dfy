/** The loops on either side of the shared slot, as each thread runs them. */
module BridgeLoops {
  import opened Text
  import opened Protocol

  /** The control words and the data area. */
  class SharedBuffer {
    var state: nat
    var len: nat
    var flags: nat
    const data: array<char>

    constructor (cap: nat)
      ensures state == IDLE && data.Length == cap && fresh(data)
    {
      state, len, flags := IDLE, 0, 0;
      data := new char[cap](_ => '\0');
    }

    ghost predicate Valid()
      reads this
    {
      len <= data.Length
    }

    /** The chunk on offer, if any. */
    ghost function Offered(): Option<Frame>
      reads this, data
      requires Valid()
    {
      if state == IDLE then None else Some(Frame(data[..len], flags, state))
    }

    /** `writeChunk` once STATE is IDLE. A payload larger than the buffer is refused, nothing stored. */
    method WriteChunk(bytes: string, fl: nat, st: nat) returns (ok: bool)
      requires Valid() && state == IDLE && st != IDLE
      modifies this, data
      ensures Valid() && ok == (|bytes| <= data.Length)
      ensures ok ==> Offered() == Some(Frame(bytes, fl, st))
      ensures !ok ==> Offered() == None && data[..] == old(data[..]) && len == old(len) && flags == old(flags)
    {
      ok := |bytes| <= data.Length;
      if !ok { return; }
      var i := 0;
      while i < |bytes|
        invariant i <= |bytes|
        invariant data[..i] == bytes[..i]
        invariant state == old(state) && len == old(len) && flags == old(flags)
      {
        data[i] := bytes[i];
        i := i + 1;
      }
      len := |bytes|;
      flags := fl;
      state := st;
      assert bytes[..|bytes|] == bytes;
    }

    /** The shim's half: load, slice, release. */
    method TakeChunk() returns (f: Frame)
      requires Valid() && state != IDLE
      modifies this
      ensures Valid() && state == IDLE && Some(f) == old(Offered())
      ensures len == old(len) && flags == old(flags)
    {
      var st, fl := state, flags;
      var payload := data[..len];
      state := IDLE;
      f := Frame(payload, fl, st);
    }
  }

  /** The chunk loop of the bridge: what it hands to `writeChunk`, one after the other. */
  method CutBody(body: string, limit: nat) returns (frames: seq<Frame>)
    requires limit >= 1
    ensures frames == BodyFrames(body, limit)
    ensures |frames| == ChunkCount(|body|, limit) && Concat(Payloads(frames)) == body
    ensures forall i | 0 <= i < |frames| :: |frames[i].bytes| <= limit && (HasMore(frames[i].flags) <==> i < |frames| - 1)
  {
    if |body| == 0 {
      frames := [Frame(body, 0, CHUNK)];
      assert Payloads(frames) == [""];
      return;
    }
    frames := [];
    var at := 0;
    while at < |body|
      invariant DataFrames(body, 0, limit) == frames + DataFrames(body, at, limit)
      decreases |body| - at
    {
      var end := Min(at + limit, |body|);
      frames := frames + [Frame(body[at..end], if end < |body| then MORE else 0, CHUNK)];
      at := at + limit;
    }
    DataFramesCarryBody(body, 0, limit);
    DataFramesCount(body, 0, limit);
    assert body[0..] == body;
  }

  function Total(chunks: seq<string>): (n: nat)
    ensures n == |Concat(chunks)|
  {
    if |chunks| == 0 then 0 else |chunks[0]| + Total(chunks[1..])
  }

  /** The shim puts the chunks it kept into one body. */
  method Reassemble(chunks: seq<string>) returns (body: array<char>)
    ensures body[..] == Concat(chunks) && fresh(body)
  {
    body := new char[Total(chunks)](_ => '\0');
    var at := 0;
    for k := 0 to |chunks|
      invariant at == |Concat(chunks[..k])| && at + |Concat(chunks[k..])| == body.Length
      invariant body[..at] == Concat(chunks[..k])
    {
      var chunk := chunks[k];
      assert chunks[..k + 1] == chunks[..k] + [chunk];
      ConcatSnoc(chunks[..k], chunk);
      assert chunks[k..][1..] == chunks[k + 1..];
      var i := 0;
      while i < |chunk|
        invariant i <= |chunk| && at + |chunk| <= body.Length
        invariant body[..at + i] == Concat(chunks[..k]) + chunk[..i]
      {
        body[at + i] := chunk[i];
        i := i + 1;
      }
      assert chunk[..|chunk|] == chunk;
      at := at + |chunk|;
    }
    assert chunks[..|chunks|] == chunks;
    assert body[..at] == body[..];
  }
}
