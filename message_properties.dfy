/** What the framing codec of server/message.go guarantees, and where it
    does not: round trips, exact reads, truncated payloads, and the splitting
    of concatenated frames by DecodeMsgs. */
module MessageProperties {
  import opened BigEndian
  import opened Messages

  /** A frame as NewMsg builds it (length field equal to the payload size)
      whose length word Decode can read back without a panic: below 2^31,
      because Decode passes it through int32(...). */
  predicate WellFormed(f: Frame)
  {
    f.length as int == |f.payload| < 0x8000_0000
  }

  /** Decoding the wire image of a well-formed frame, followed by anything at
      all, gives back the frame and moves the cursor exactly past it. */
  lemma DecodeEncodeFrame(f: Frame, rest: seq<byte>)
    requires WellFormed(f)
    ensures Decodable(EncodeFrame(f) + rest)
    ensures DecodeFrame(EncodeFrame(f) + rest) == f
    ensures Advance(EncodeFrame(f) + rest) == MsgIdx + |f.payload|
  {
    var e := EncodeFrame(f);
    var b := e + rest;
    assert b[..LenIdx] == PutUint32(f.sequence);
    assert b[LenIdx..MsgIdx] == PutUint32(f.length);
    Uint32PutUint32(f.sequence);
    Uint32PutUint32(f.length);
    assert b[MsgIdx..MsgIdx + f.length as int] == f.payload;
  }

  /** Encode followed by Decode on the message class: a message built by
      NewMsg, encoded, and decoded into another message reproduces the
      sequence number, the length field and the payload, with nil errors. */
  method EncodeDecode(sequence: uint32, s: seq<byte>) returns (m: Message, encodeErr: Option<Error>, decodeErr: Option<Error>)
    requires |s| < 0x8000_0000
    ensures m.sequence == sequence && m.length as int == |s| && m.msg == s
    ensures encodeErr == None && decodeErr == None
  {
    var sent := new Message.NewMsg(sequence, s);
    var wire;
    wire, encodeErr := sent.Encode();
    DecodeEncodeFrame(sent.Value(), []);
    assert wire == EncodeFrame(sent.Value()) + [];
    m := new Message.NewMsg(0, []);
    decodeErr := m.Decode(wire);
  }

  /** Decoding never looks past the frame: when the whole payload is there,
      re-encoding what was decoded reproduces exactly the bytes consumed. */
  lemma EncodeDecodeFrame(b: seq<byte>)
    requires Decodable(b) && MsgIdx + HeaderLength(b) as int <= |b|
    ensures EncodeFrame(DecodeFrame(b)) == b[..Advance(b)]
  {
    var f := DecodeFrame(b);
    PutUint32Uint32(b[..LenIdx]);
    PutUint32Uint32(b[LenIdx..MsgIdx]);
    var e := EncodeFrame(f);
    assert e[..LenIdx] == b[..LenIdx];
    assert e[LenIdx..MsgIdx] == b[LenIdx..MsgIdx];
    assert e[MsgIdx..] == b[MsgIdx..Advance(b)];
    assert e == e[..LenIdx] + e[LenIdx..MsgIdx] + e[MsgIdx..];
    assert b[..Advance(b)] == b[..LenIdx] + b[LenIdx..MsgIdx] + b[MsgIdx..Advance(b)];
  }

  /** A frame cut short anywhere inside its payload still decodes without
      error: the header values are kept, the payload comes back empty, and
      the cursor moves past the header only. */
  lemma TruncatedFrame(f: Frame, k: nat)
    requires WellFormed(f) && k < |f.payload|
    ensures Decodable(EncodeFrame(f)[..MsgIdx + k])
    ensures DecodeFrame(EncodeFrame(f)[..MsgIdx + k]) == Frame(f.sequence, f.length, [])
    ensures Advance(EncodeFrame(f)[..MsgIdx + k]) == MsgIdx
  {
    var b := EncodeFrame(f)[..MsgIdx + k];
    assert b[..LenIdx] == PutUint32(f.sequence);
    assert b[LenIdx..MsgIdx] == PutUint32(f.length);
    Uint32PutUint32(f.sequence);
    Uint32PutUint32(f.length);
  }

  /** A length word of 2^31 or more turns negative under int32(...), so
      Decode panics on the frame however many bytes follow: such payloads
      can be encoded but never decoded. */
  lemma LongLengthUndecodable(f: Frame, rest: seq<byte>)
    requires f.length >= 0x8000_0000
    ensures !Decodable(EncodeFrame(f) + rest)
  {
    var b := EncodeFrame(f) + rest;
    assert b[LenIdx..MsgIdx] == PutUint32(f.length);
    Uint32PutUint32(f.length);
  }

  /** DecodeMsgs on a concatenation of one or more well-formed frames walks
      it without a panic and returns exactly those frames, in order. */
  lemma {:induction false} SplitEncoded(fs: seq<Frame>)
    requires |fs| >= 1
    requires forall i :: 0 <= i < |fs| ==> WellFormed(fs[i])
    ensures Splittable(EncodeAll(fs))
    ensures DecodeAll(EncodeAll(fs)) == fs
    decreases |fs|
  {
    var b := EncodeAll(fs);
    var tail := EncodeAll(fs[1..]);
    assert b == EncodeFrame(fs[0]) + tail;
    DecodeEncodeFrame(fs[0], tail);
    assert b[Advance(b)..] == tail;
    if |fs| == 1 {
      assert fs[1..] == [];
      assert tail == [];
    } else {
      SplitEncoded(fs[1..]);
      assert tail != [];
      assert fs == [fs[0]] + fs[1..];
    }
  }

  /** A frame decoded with its whole payload is, re-encoded, exactly the
      front of the buffer: the buffer is its wire image followed by the
      bytes DecodeMsgs goes on with. */
  lemma EncodeFront(b: seq<byte>)
    requires Decodable(b) && WellFormed(DecodeFrame(b))
    ensures b == EncodeFrame(DecodeFrame(b)) + b[Advance(b)..]
  {
    EncodeDecodeFrame(b);
    assert b == b[..Advance(b)] + b[Advance(b)..];
  }

  /** Conversely, when every frame DecodeMsgs finds carries its whole
      payload, sending those frames again reproduces the buffer. */
  lemma EncodeDecodeAll(b: seq<byte>)
    requires Splittable(b)
    requires forall i :: 0 <= i < |DecodeAll(b)| ==> WellFormed(DecodeAll(b)[i])
    ensures EncodeAll(DecodeAll(b)) == b
  {
    ReEncode(b, DecodeAll(b));
  }

  /** EncodeDecodeAll, with the frames found named `fs`. */
  lemma {:induction false} ReEncode(b: seq<byte>, fs: seq<Frame>)
    requires Splittable(b) && fs == DecodeAll(b)
    requires forall i :: 0 <= i < |fs| ==> WellFormed(fs[i])
    ensures EncodeAll(fs) == b
    decreases |b|
  {
    var rest := b[Advance(b)..];
    assert fs[0] == DecodeFrame(b);
    EncodeFront(b);
    if rest != [] {
      assert fs[1..] == DecodeAll(rest);
      ReEncode(rest, fs[1..]);
    }
  }

  /** The payload of a truncated frame is re-read as the next header: a
      frame announcing 100 payload bytes followed by only 8 bytes that form
      an empty frame with sequence 2 splits into two messages. */
  lemma TruncatedPayloadReparsed()
    ensures Splittable([0, 0, 0, 1, 0, 0, 0, 100, 0, 0, 0, 2, 0, 0, 0, 0])
    ensures DecodeAll([0, 0, 0, 1, 0, 0, 0, 100, 0, 0, 0, 2, 0, 0, 0, 0])
         == [Frame(1, 100, []), Frame(2, 0, [])]
  {
    var b: seq<byte> := [0, 0, 0, 1, 0, 0, 0, 100, 0, 0, 0, 2, 0, 0, 0, 0];
    var second := b[MsgIdx..];
    assert DecodeFrame(b) == Frame(1, 100, []);
    assert DecodeFrame(second) == Frame(2, 0, []);
    assert second[Advance(second)..] == [];
    assert b[Advance(b)..] == second;
  }

  /** An empty buffer is not one that DecodeMsgs can walk: its first Decode
      panics, rather than yielding no messages. */
  lemma EmptyBufferNotSplittable()
    ensures !Splittable([])
  {
  }
}
