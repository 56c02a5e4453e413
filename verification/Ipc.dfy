/** The newline-delimited JSON stream of `crates/node/ops/ipc.rs` and its vectorised byte search. */
module Ipc {
  import opened Common
  import opened Bytes

  // ----- vectorised search -----

  function TrailingZeros(x: nat): nat
    requires x > 0
  {
    if x % 2 == 1 then 0 else 1 + TrailingZeros(x / 2)
  }

  lemma TrailingZerosDouble(x: nat)
    requires x > 0
    ensures TrailingZeros(2 * x) == 1 + TrailingZeros(x)
  {
    assert (2 * x) / 2 == x;
  }

  lemma TrailingZerosOfShift(x: nat)
    requires x > 0
    ensures TrailingZeros(256 * x) == 8 + TrailingZeros(x)
  {
    TrailingZerosDouble(x);
    TrailingZerosDouble(2 * x);
    TrailingZerosDouble(4 * x);
    TrailingZerosDouble(8 * x);
    TrailingZerosDouble(16 * x);
    TrailingZerosDouble(32 * x);
    TrailingZerosDouble(64 * x);
    TrailingZerosDouble(128 * x);
  }

  /** The comparison of `bytes` with `c`, 255 for a match and 0 otherwise in each byte, read as one
      little-endian number. */
  function Lane(bytes: seq<byte>, c: byte): nat {
    if bytes == [] then 0
    else (if bytes[0] == c then 255 else 0) + 256 * Lane(bytes[1..], c)
  }

  type u64 = x: int | 0 <= x < 0x1_0000_0000_0000_0000

  /** A lane of eight bytes fits 64 bits. */
  lemma {:induction false} LaneFits(bytes: seq<byte>, c: byte)
    requires |bytes| == 8
    ensures Lane(bytes, c) < 0x1_0000_0000_0000_0000
  {
    var l1 := Lane(bytes[1..], c);
    var l2 := Lane(bytes[1..][1..], c);
    var l3 := Lane(bytes[1..][1..][1..], c);
    var l4 := Lane(bytes[1..][1..][1..][1..], c);
    var l5 := Lane(bytes[1..][1..][1..][1..][1..], c);
    var l6 := Lane(bytes[1..][1..][1..][1..][1..][1..], c);
    var l7 := Lane(bytes[1..][1..][1..][1..][1..][1..][1..], c);
    assert Lane(bytes[1..][1..][1..][1..][1..][1..][1..][1..], c) == 0;
  }

  /** The lowest set bit of a lane gives the first match. */
  lemma {:induction false} LaneFindsFirst(bytes: seq<byte>, c: byte)
    ensures Lane(bytes, c) == 0 <==> c !in bytes
    ensures Lane(bytes, c) != 0 ==> Position(bytes, c) == Some(TrailingZeros(Lane(bytes, c)) / 8)
  {
    if bytes != [] {
      var rest := Lane(bytes[1..], c);
      LaneFindsFirst(bytes[1..], c);
      if bytes[0] != c && rest != 0 {
        TrailingZerosOfShift(rest);
      }
    }
  }

  lemma HalvesOfChunk(s: seq<byte>, i: nat)
    requires i + 16 <= |s|
    ensures s[i..i + 16][..8] == s[i..i + 8] && s[i..i + 16][8..] == s[i + 8..i + 8 + 8]
  {
    assert s[i..i + 16][..8] == s[i..i + 8];
    assert s[i..i + 16][8..] == s[i + 8..i + 16];
  }

  /** `neon_memchr` on a slice that starts at address `address`: an alignment prologue, sixteen bytes
      at a time as two lanes, and a tail. */
  method NeonMemchr(s: seq<byte>, c: byte, address: nat) returns (r: Option<nat>)
    ensures r == Position(s, c)
  {
    var i := 0;
    while i < |s| && (address + i) % 16 != 0
      invariant i <= |s| && c !in s[..i]
    {
      if s[i] == c {
        PositionUnique(s, c, i);
        return Some(i);
      }
      i := i + 1;
    }
    while i + 16 <= |s|
      invariant i <= |s| && c !in s[..i]
    {
      var chunk := s[i..i + 16];
      HalvesOfChunk(s, i);
      LaneFits(chunk[..8], c);
      LaneFits(chunk[8..], c);
      var result0: u64 := Lane(chunk[..8], c);
      LaneInSlice(s, c, i);
      if result0 != 0 {
        return Some(i + TrailingZeros(result0) / 8);
      }
      var result1: u64 := Lane(chunk[8..], c);
      LaneInSlice(s, c, i + 8);
      if result1 != 0 {
        return Some(i + 8 + TrailingZeros(result1) / 8);
      }
      i := i + 16;
    }
    while i < |s|
      invariant i <= |s| && c !in s[..i]
    {
      if s[i] == c {
        PositionUnique(s, c, i);
        return Some(i);
      }
      i := i + 1;
    }
    assert s[..i] == s;
    PositionSpec(s, c);
    return None;
  }

  lemma SliceOfChunk(s: seq<byte>, i: nat, k: nat)
    requires i + 8 <= |s| && k < 8
    ensures s[..i + k] == s[..i] + s[i..i + 8][..k] && s[i + k] == s[i..i + 8][k]
  {
  }

  /** Eight bytes of a slice whose earlier bytes do not match. */
  lemma {:induction false} LaneInSlice(s: seq<byte>, c: byte, i: nat)
    requires i + 8 <= |s| && c !in s[..i]
    ensures var lane := Lane(s[i..i + 8], c);
            if lane == 0 then c !in s[..i + 8] else Position(s, c) == Some(i + TrailingZeros(lane) / 8)
  {
    var chunk := s[i..i + 8];
    LaneFindsFirst(chunk, c);
    PositionSpec(chunk, c);
    if Lane(chunk, c) == 0 {
      assert s[..i + 8] == s[..i] + chunk;
    } else {
      var k := Position(chunk, c).value;
      SliceOfChunk(s, i, k);
      PositionUnique(s, c, i + k);
    }
  }

  // ----- framing -----

  /** The bytes up to and including the first newline, or all of them. */
  function FirstFrame(b: seq<byte>): (f: seq<byte>)
    ensures f <= b && (b != [] ==> f != [])
  {
    match Position(b, LF)
    case None => b
    case Some(i) => PositionSpec(b, LF); b[..i + 1]
  }

  /** The stream cut after each newline, with a final fragment that has none. */
  function Frames(b: seq<byte>): seq<seq<byte>> {
    if b == [] then [] else [FirstFrame(b)] + Frames(b[|FirstFrame(b)|..])
  }

  /** A frame has no newline before its end, and one at its end unless it is the last. */
  predicate IsFrame(f: seq<byte>, last: bool) {
    f != [] && LF !in f[..|f| - 1] && (!last ==> f[|f| - 1] == LF)
  }

  lemma FirstIsFrame(b: seq<byte>)
    requires b != []
    ensures IsFrame(FirstFrame(b), FirstFrame(b) == b)
  {
    var f := FirstFrame(b);
    PositionSpec(b, LF);
    assert f[..|f| - 1] == b[..|f| - 1];
  }

  /** Cutting into frames loses nothing, and only the last frame may lack its newline. */
  lemma {:induction false} FramesAreTheStream(b: seq<byte>)
    ensures Flatten(Frames(b)) == b
    ensures forall k :: 0 <= k < |Frames(b)| ==> IsFrame(Frames(b)[k], k + 1 == |Frames(b)|)
  {
    if b != [] {
      var f := FirstFrame(b);
      var rest := b[|f|..];
      FirstIsFrame(b);
      FramesAreTheStream(rest);
      assert f + rest == b && ([f] + Frames(rest))[1..] == Frames(rest);
      assert f == b ==> rest == [];
    }
  }

  predicate NonEmpty(chunks: seq<seq<byte>>) {
    forall i :: 0 <= i < |chunks| ==> chunks[i] != []
  }

  datatype Reply<J> = Msg(json: J) | ParseError

  class IpcJsonStream<J> {
    const parse: seq<byte> -> Option<J>
    const nullValue: J
    /** What the buffered reader holds, and the reads still to come. */
    var available: seq<byte>
    var pending: seq<seq<byte>>
    var buffer: seq<byte>

    ghost predicate Valid()
      reads this
    {
      NonEmpty(pending)
    }

    /** The bytes not yet consumed. */
    ghost function Rest(): seq<byte>
      reads this
    {
      available + Flatten(pending)
    }

    constructor (parse: seq<byte> -> Option<J>, nullValue: J, pending: seq<seq<byte>>)
      requires NonEmpty(pending)
      ensures Valid() && Rest() == Flatten(pending) && buffer == []
      ensures this.parse == parse && this.nullValue == nullValue
    {
      this.parse, this.nullValue := parse, nullValue;
      this.available, this.pending, this.buffer := [], pending, [];
    }

    /** `poll_fill_buf` of the buffered reader: empty only at the end of the stream. */
    method FillBuf()
      requires Valid()
      modifies this`available, this`pending
      ensures Valid() && Rest() == old(Rest()) && available <= Rest() && (available == [] <==> Rest() == [])
    {
      if available == [] && pending != [] {
        available, pending := pending[0], pending[1..];
      }
    }

    method Consume(n: nat)
      requires Valid() && n <= |available|
      modifies this`available
      ensures Valid() && available == old(available)[n..]
    {
      available := available[n..];
    }

    /** The newline is in the available bytes: parsed in place, or copied behind what was buffered before. */
    method TakeFrame(i: nat, ghost s: seq<byte>) returns (nread: Option<nat>, json: Option<J>)
      requires Valid() && s == buffer + available + Flatten(pending)
      requires Position(buffer, LF) == None && Position(available, LF) == Some(i)
      modifies this
      ensures Valid()
      ensures nread.None? ==> buffer == [] && parse(FirstFrame(s)).None? && Rest() == s
      ensures nread.Some? ==>
                && nread.value == |FirstFrame(s)| > 0 && s == FirstFrame(s) + Rest()
                && (json.Some? ==> json == parse(FirstFrame(s)) && buffer == [])
                && (json.None? ==> buffer == FirstFrame(s))
    {
      FrameOfParts(buffer, available, Flatten(pending));
      var read := |buffer|;
      if read == 0 {
        assert buffer + available[..i + 1] == available[..i + 1] && buffer + available == available;
        json := parse(available[..i + 1]);
        if json.None? { return None, None; }
      } else {
        buffer := buffer + available[..i + 1];
        json := None;
      }
      Consume(i + 1);
      nread := Some(read + i + 1);
    }

    /** There is no newline in the available bytes: all of them are buffered. */
    method BufferAll(ghost s: seq<byte>) returns (used: nat)
      requires Valid() && s == buffer + available + Flatten(pending) && (available == [] ==> Rest() == [])
      requires Position(buffer, LF) == None && Position(available, LF) == None
      modifies this
      ensures Valid() && s == buffer + Rest() && Position(buffer, LF) == None
      ensures |Rest()| == old(|Rest()|) - used
      ensures used == 0 ==> Rest() == [] && buffer == FirstFrame(s)
    {
      FrameOfParts(buffer, available, Flatten(pending));
      PositionOfConcat(buffer, available, LF);
      used := |available|;
      buffer := buffer + available;
      Consume(used);
    }

    /** `read_msg_internal`: the length of the frame, and its value when it was parsed in place. */
    method ReadMsgInternal() returns (nread: Option<nat>, json: Option<J>)
      requires Valid() && buffer == []
      modifies this
      ensures Valid()
      ensures nread.None? ==>
                old(Rest()) != [] && parse(FirstFrame(old(Rest()))).None? && Rest() == old(Rest()) && buffer == []
      ensures nread.Some? ==>
                && nread.value == |FirstFrame(old(Rest()))| && old(Rest()) == FirstFrame(old(Rest())) + Rest()
                && (json.Some? ==> nread.value > 0 && json == parse(FirstFrame(old(Rest()))) && buffer == [])
                && (json.None? ==> buffer == FirstFrame(old(Rest())))
    {
      ghost var s := Rest();
      while true
        invariant Valid() && s == buffer + Rest() && Position(buffer, LF) == None
        decreases |Rest()|
      {
        FillBuf();
        assert s == buffer + available + Flatten(pending);
        var newline := Position(available, LF);
        if newline.Some? {
          assert available != [];
          nread, json := TakeFrame(newline.value, s);
          return;
        }
        var used := BufferAll(s);
        if used == 0 {
          return Some(|buffer|), None;
        }
      }
    }

    /** `read_msg`: one frame per call, whatever the reads; the buffer is empty between messages. */
    method ReadMsg() returns (r: Reply<J>)
      requires Valid() && buffer == []
      modifies this
      ensures Valid()
      ensures old(Rest()) == [] ==> r == Msg(nullValue) && Rest() == [] && buffer == []
      ensures old(Rest()) != [] && parse(FirstFrame(old(Rest()))).Some? ==>
                && r == Msg(parse(FirstFrame(old(Rest()))).value)
                && old(Rest()) == FirstFrame(old(Rest())) + Rest() && buffer == []
      ensures old(Rest()) != [] && parse(FirstFrame(old(Rest()))).None? ==> r == ParseError
    {
      var nread, json := ReadMsgInternal();
      if nread.None? { return ParseError; }
      if nread.value == 0 { return Msg(nullValue); }
      if json.None? {
        assert buffer[..nread.value] == buffer;
        json := parse(buffer[..nread.value]);
        if json.None? { return ParseError; }
      }
      buffer := [];
      return Msg(json.value);
    }
  }

  /** Where the first frame ends, given that nothing read so far holds a newline. */
  lemma {:induction false} FrameOfParts(read: seq<byte>, available: seq<byte>, later: seq<byte>)
    requires Position(read, LF) == None && (available == [] ==> later == [])
    ensures var s := read + available + later;
            match Position(available, LF)
            case Some(i) =>
              FirstFrame(s) == read + available[..i + 1] && s == FirstFrame(s) + (available[i + 1..] + later)
            case None => available == [] ==> FirstFrame(s) == read
  {
    var s := read + available + later;
    assert s == read + (available + later);
    PositionSpec(available, LF);
    PositionOfConcat(read, available + later, LF);
    PositionOfConcat(available, later, LF);
    match Position(available, LF) {
      case Some(i) =>
        assert s[..|read| + i + 1] == read + available[..i + 1];
      case None =>
    }
  }

  /** Reading moves on by one frame. */
  lemma NextFrame(frames: seq<seq<byte>>, k: nat, rest: seq<byte>)
    requires k <= |frames| && frames[k..] == Frames(rest)
    ensures rest == [] <==> k == |frames|
    ensures rest != [] ==> frames[k] == FirstFrame(rest) && frames[k + 1..] == Frames(rest[|frames[k]|..])
  {
    if rest != [] {
      assert frames[k..][0] == frames[k] && frames[k..][1..] == frames[k + 1..];
    }
  }

  /** One call of `read_msg`, in terms of the frames of the whole stream. */
  method ReadFrame<J>(stream: IpcJsonStream<J>, ghost frames: seq<seq<byte>>, ghost k: nat) returns (r: Reply<J>)
    requires stream.Valid() && stream.buffer == [] && k <= |frames| && frames[k..] == Frames(stream.Rest())
    modifies stream
    ensures stream.Valid()
    ensures k == |frames| ==> r == Msg(stream.nullValue)
    ensures k < |frames| ==>
              match stream.parse(frames[k])
              case None => r == ParseError
              case Some(json) => r == Msg(json) && stream.buffer == [] && frames[k + 1..] == Frames(stream.Rest())
  {
    ghost var before := stream.Rest();
    NextFrame(frames, k, before);
    r := stream.ReadMsg();
    assert r.Msg? && before != [] ==> before[|FirstFrame(before)|..] == stream.Rest();
  }

  /** The messages are the values of the first frames, in order. */
  ghost predicate AreValues<J>(parse: seq<byte> -> Option<J>, frames: seq<seq<byte>>, messages: seq<J>) {
    |messages| <= |frames| && forall k :: 0 <= k < |messages| ==> Some(messages[k]) == parse(frames[k])
  }

  lemma OneMoreValue<J>(parse: seq<byte> -> Option<J>, frames: seq<seq<byte>>, messages: seq<J>)
    requires AreValues(parse, frames, messages) && |messages| < |frames|
    requires forall f <- frames :: parse(f).Some?
    ensures parse(frames[|messages|]).Some?
    ensures AreValues(parse, frames, messages + [parse(frames[|messages|]).value])
  {
    assert frames[|messages|] in frames;
  }

  lemma SomethingIsLeft(available: seq<byte>, pending: seq<seq<byte>>)
    requires NonEmpty(pending)
    ensures available + Flatten(pending) == [] <==> available == [] && pending == []
  {
    if pending != [] { assert pending[0] != []; }
  }

  /** Reading a whole stream in which every frame parses delivers the frames in order, then the null
      value of the end of the stream; how the bytes were cut into reads does not matter. */
  method ReadAll<J>(parse: seq<byte> -> Option<J>, nullValue: J, pending: seq<seq<byte>>)
    returns (messages: seq<J>, last: Reply<J>)
    requires NonEmpty(pending)
    requires forall f <- Frames(Flatten(pending)) :: parse(f).Some?
    ensures |messages| == |Frames(Flatten(pending))| && last == Msg(nullValue)
    ensures AreValues(parse, Frames(Flatten(pending)), messages)
  {
    var stream := new IpcJsonStream<J>(parse, nullValue, pending);
    ghost var frames := Frames(Flatten(pending));
    messages := [];
    while stream.available != [] || stream.pending != []
      invariant fresh(stream) && stream.Valid() && stream.buffer == []
      invariant stream.parse == parse && stream.nullValue == nullValue
      invariant |messages| <= |frames| && frames[|messages|..] == Frames(stream.Rest())
      invariant AreValues(parse, frames, messages)
      decreases |frames| - |messages|
    {
      SomethingIsLeft(stream.available, stream.pending);
      NextFrame(frames, |messages|, stream.Rest());
      OneMoreValue(parse, frames, messages);
      var r := ReadFrame(stream, frames, |messages|);
      messages := messages + [r.json];
    }
    SomethingIsLeft(stream.available, stream.pending);
    NextFrame(frames, |messages|, stream.Rest());
    last := ReadFrame(stream, frames, |messages|);
  }

  /** A frame that is delivered by a reader that stops at null. */
  predicate IsMessage<J(==)>(parse: seq<byte> -> Option<J>, nullValue: J, frame: seq<byte>) {
    parse(frame).Some? && parse(frame).value != nullValue
  }

  /** The messages are the frames before the first that is null or does not parse. */
  predicate Delivers<J(==)>(parse: seq<byte> -> Option<J>, nullValue: J, frames: seq<seq<byte>>, messages: seq<J>) {
    && |messages| <= |frames|
    && (forall k :: 0 <= k < |messages| ==>
          IsMessage(parse, nullValue, frames[k]) && parse(frames[k]) == Some(messages[k]))
    && (|messages| < |frames| ==> !IsMessage(parse, nullValue, frames[|messages|]))
  }

  lemma DeliverNext<J>(parse: seq<byte> -> Option<J>, nullValue: J, frames: seq<seq<byte>>, messages: seq<J>)
    requires |messages| <= |frames| && Delivers(parse, nullValue, frames[..|messages|], messages)
    ensures var k := |messages|;
            if k < |frames| && IsMessage(parse, nullValue, frames[k])
            then Delivers(parse, nullValue, frames[..k + 1], messages + [parse(frames[k]).value])
            else Delivers(parse, nullValue, frames, messages)
  {
  }

  /** The channel's read loop: null is taken for the end of the stream, and a frame that does not parse is thrown. */
  method ReadLoop<J(==)>(parse: seq<byte> -> Option<J>, nullValue: J, pending: seq<seq<byte>>)
    returns (messages: seq<J>, closed: bool)
    requires NonEmpty(pending)
    ensures var frames := Frames(Flatten(pending));
            && Delivers(parse, nullValue, frames, messages)
            && (closed <==> |messages| == |frames| || parse(frames[|messages|]) == Some(nullValue))
  {
    var stream := new IpcJsonStream<J>(parse, nullValue, pending);
    ghost var frames := Frames(Flatten(pending));
    messages := [];
    while true
      invariant fresh(stream) && stream.Valid() && stream.buffer == []
      invariant stream.parse == parse && stream.nullValue == nullValue
      invariant |messages| <= |frames| && frames[|messages|..] == Frames(stream.Rest())
      invariant Delivers(parse, nullValue, frames[..|messages|], messages)
      decreases |frames| - |messages|
    {
      var r := ReadFrame(stream, frames, |messages|);
      DeliverNext(parse, nullValue, frames, messages);
      if r.ParseError? { return messages, false; }
      if r.json == nullValue { return messages, true; }
      messages := messages + [r.json];
    }
  }

  /** Nothing is lost exactly when every frame parses to something other than null: a message that is a JSON
      null closes the channel, and what was sent after it is not read. */
  lemma AllDeliveredIff<J>(parse: seq<byte> -> Option<J>, nullValue: J, frames: seq<seq<byte>>, messages: seq<J>)
    requires Delivers(parse, nullValue, frames, messages)
    ensures |messages| == |frames| <==> forall f <- frames :: IsMessage(parse, nullValue, f)
  {
    if |messages| < |frames| { assert frames[|messages|] in frames; }
  }
}
