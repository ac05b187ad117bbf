/** Messages over a TCP connection, as drpc_protocol.c frames them: a signature
    and a length, then the packed container, padded to whole cipher blocks and
    encrypted when there is a key. */
module Framing {
  import opened Bytes
  import opened Wrappers
  import opened Wire
  import opened Codec
  import opened Aes
  import opened AesCipher
  import opened AesModes

  function NextBy16(value: nat): (n: nat)
    ensures n % 16 == 0 && value <= n < value + 16
  {
    if value % 16 == 0 then value else (value / 16 + 1) * 16
  }

  /** The characters of DRPCv250+E and the NUL after them. */
  const SIGNATURE: seq<Byte> := [68, 82, 80, 67, 118, 50, 53, 48, 43, 69, NUL]

  const HEADER_LENGTH: nat := 19

  const FIXED_IV: Block := [0, 1, 2, 3, 4, 5, 6, 7, 8, 9, 10, 11, 12, 13, 14, 15]

  function Padded(b: seq<Byte>): (p: seq<Byte>)
    ensures |p| == NextBy16(|b|) && WholeBlocks(p)
  {
    b + Zeros(NextBy16(|b|) - |b|)
  }

  function Sealed(key: Option<Block>, padded: seq<Byte>): (body: seq<Byte>)
    requires WholeBlocks(padded)
    ensures |body| == |padded|
  {
    match key
    case None => padded
    case Some(k) => CbcEncrypt(RoundKeysOf(k), FIXED_IV, padded)
  }

  function Unsealed(key: Option<Block>, body: seq<Byte>): seq<Byte>
    requires key.Some? ==> WholeBlocks(body)
  {
    match key
    case None => body
    case Some(k) => CbcDecrypt(RoundKeysOf(k), FIXED_IV, body)
  }

  lemma UnsealedSealed(key: Option<Block>, padded: seq<Byte>)
    requires WholeBlocks(padded)
    ensures Unsealed(key, Sealed(key, padded)) == padded
  {
    hide CbcEncrypt, CbcDecrypt, RoundKeysOf;
    if key.Some? {
      CbcDecryptUndoesEncrypt(RoundKeysOf(key.value), FIXED_IV, padded);
    }
  }

  /** What drpc_tcp_send_message writes for a container packed as b. */
  function Frame(key: Option<Block>, b: seq<Byte>): (f: seq<Byte>)
    ensures |f| == HEADER_LENGTH + NextBy16(|b|)
  {
    SIGNATURE + Le64(NextBy16(|b|)) + Sealed(key, Padded(b))
  }

  /** The nineteen bytes before the body: DRPCv250+E with its NUL, and the length of the
      body, low byte first. */
  lemma FrameHeader(key: Option<Block>, b: seq<Byte>, i: nat)
    requires i < 8
    ensures var f := Frame(key, b);
      && f[..11] == [68, 82, 80, 67, 118, 50, 53, 48, 43, 69, 0]
      && f[11 + i] == ByteOf((|f| - 19) / Power256(i) % 256)
  {
    hide Sealed, Power256;
    LittleBytes(NextBy16(|b|), 8, i);
  }

  /** Without a key the body is the padded container. */
  lemma FrameInClear(b: seq<Byte>)
    ensures Frame(None, b)[19..] == b + Zeros(NextBy16(|b|) - |b|)
  {
    hide Le64;
  }

  /** With a key, block j of the body is block j of the padded container, added to
      the block before it, the first one to the bytes from 0 to 15, and encrypted. */
  lemma FrameEncrypted(k: Block, b: seq<Byte>, j: nat)
    requires 16 * j + 16 <= NextBy16(|b|)
    ensures IsCipherBlock(k, b, Frame(Some(k), b)[19..], j)
  {
    hide Le64, CbcEncrypt, RoundKeysOf, CipherOf, XorBlock, BlockAt;
    assert Frame(Some(k), b)[19..] == Sealed(Some(k), Padded(b));
    CbcBlock(RoundKeysOf(k), FIXED_IV, Padded(b), j);
  }

  /** The bytes of a message: DRPCv250+E with its NUL, the length of the body, low byte
      first, and the container, padded with zeros to whole blocks and, with a key, each
      block added to the one before it and encrypted. */
  ghost predicate IsFrame(key: Option<Block>, b: seq<Byte>, f: seq<Byte>) {
    && |f| >= 19 && f[..11] == [68, 82, 80, 67, 118, 50, 53, 48, 43, 69, 0]
    && (forall i | 0 <= i < 8 :: f[11 + i] == ByteOf((|f| - 19) / Power256(i) % 256))
    && |f| == 19 + NextBy16(|b|)
    && (key.None? ==> f[19..] == b + Zeros(NextBy16(|b|) - |b|))
    && (key.Some? ==> forall j: nat | 16 * j + 16 <= |f| - 19 :: IsCipherBlock(key.value, b, f[19..], j))
  }

  ghost predicate IsCipherBlock(k: Block, b: seq<Byte>, c: seq<Byte>, j: nat)
    requires 16 * j + 16 <= |c| == NextBy16(|b|)
  {
    var padded := b + Zeros(NextBy16(|b|) - |b|);
    var previous := if j == 0 then [0, 1, 2, 3, 4, 5, 6, 7, 8, 9, 10, 11, 12, 13, 14, 15] else BlockAt(c, j - 1);
    BlockAt(c, j) == CipherOf(XorBlock(BlockAt(padded, j), previous), RoundKeysOf(k))
  }

  lemma FrameIs(key: Option<Block>, b: seq<Byte>)
    ensures IsFrame(key, b, Frame(key, b))
  {
    hide Frame, Power256, IsCipherBlock;
    var f := Frame(key, b);
    forall i | 0 <= i < 8 ensures f[11 + i] == ByteOf((|f| - 19) / Power256(i) % 256) {
      FrameHeader(key, b, i);
    }
    FrameHeader(key, b, 0);
    if key.None? {
      FrameInClear(b);
    } else {
      forall j: nat | 16 * j + 16 <= |f| - 19 ensures IsCipherBlock(key.value, b, f[19..], j) {
        FrameEncrypted(key.value, b, j);
      }
    }
  }

  /** And what a receiver with the key makes of such a body. */
  lemma BodyDecrypted(k: Block, body: seq<Byte>, j: nat)
    requires WholeBlocks(body) && 16 * j + 16 <= |body|
    ensures |Unsealed(Some(k), body)| == |body|
    ensures BlockAt(Unsealed(Some(k), body), j) == XorBlock(InvCipherOf(BlockAt(body, j), RoundKeysOf(k)),
      if j == 0 then [0, 1, 2, 3, 4, 5, 6, 7, 8, 9, 10, 11, 12, 13, 14, 15] else BlockAt(body, j - 1))
  {
    hide CbcDecrypt, RoundKeysOf, InvCipherOf, XorBlock, BlockAt;
    CbcDecryptBlock(RoundKeysOf(k), FIXED_IV, body, j);
  }

  /** What drpc_tcp_recv_message makes of the bytes to come, and how many it takes.
      Undefined is what C leaves undefined: a body that is no struct, or one to
      decrypt that does not consist of whole blocks. */
  datatype Received = Failed(used: nat) | Undefined | Got(fields: map<Chars, Value>, used: nat)

  function Receive(key: Option<Block>, stream: seq<Byte>): Received {
    if |stream| < HEADER_LENGTH then Failed(|stream|)
    else if stream[..11] != SIGNATURE then Failed(HEADER_LENGTH)
    else
      var length := FromLe64(stream[11..]);
      if HEADER_LENGTH + length > |stream| then Failed(|stream|)
      else
        var body := stream[HEADER_LENGTH..HEADER_LENGTH + length];
        if key.Some? && !WholeBlocks(body) then Undefined
        else
          var fields := DecodeStruct(Unsealed(key, body));
          if fields.None? then Undefined else Got(fields.value, HEADER_LENGTH + length)
  }

  /** What is refused, and how much of the stream that takes. */
  lemma Refused(key: Option<Block>, stream: seq<Byte>)
    ensures |stream| < 19 ==> Receive(key, stream) == Failed(|stream|)
    ensures |stream| >= 19 && stream[..11] != [68, 82, 80, 67, 118, 50, 53, 48, 43, 69, 0] ==>
      Receive(key, stream) == Failed(19)
    ensures |stream| >= 19 && stream[..11] == [68, 82, 80, 67, 118, 50, 53, 48, 43, 69, 0] ==>
      (Receive(key, stream).Failed? <==> |stream| < 19 + FromLittle(stream[11..19]))
    ensures |stream| >= 19 && stream[..11] == [68, 82, 80, 67, 118, 50, 53, 48, 43, 69, 0] ==>
      Receive(key, stream).Failed? ==> Receive(key, stream) == Failed(|stream|)
    ensures Receive(key, stream).Got? ==> Receive(key, stream).used == 19 + FromLittle(stream[11..19]) <= |stream|
  {
    hide FromLittle, Unsealed, DecodeStruct;
    if |stream| >= 19 {
      assert stream[11..][..8] == stream[11..19];
    }
  }

  function BytesOfStruct(fields: seq<Field>): seq<Byte> {
    EncodePackets(FieldPackets(fields))
  }

  /** A container that the setters can have built and a length can describe. */
  predicate Sendable(fields: seq<Field>) {
    WellFormed(Struct(fields)) && |BytesOfStruct(fields)| + 15 < TWO_64
  }

  function FieldsMeaning(fields: seq<Field>): map<Chars, Value> {
    SetAll(Pairs(fields))
  }

  /** One message is received as it was sent, and nothing after it is touched. */
  lemma FrameRoundTrip(key: Option<Block>, fields: seq<Field>, rest: seq<Byte>)
    requires Sendable(fields)
    ensures var f := Frame(key, BytesOfStruct(fields));
      Receive(key, f + rest) == Got(FieldsMeaning(fields), |f|)
  {
    hide Receive, Sealed, Unsealed, DecodeStruct, FieldsMeaning, Le64, FromLe64, WellFormed, BytesOfStruct;
    BodyRoundTrip(key, fields);
    ReceiveFramed(key, Sealed(key, Padded(BytesOfStruct(fields))), rest);
  }

  lemma ReceiveFramed(key: Option<Block>, body: seq<Byte>, rest: seq<Byte>)
    requires WholeBlocks(body) && |body| < TWO_64 && DecodeStruct(Unsealed(key, body)).Some?
    ensures Receive(key, SIGNATURE + Le64(|body|) + body + rest)
         == Got(DecodeStruct(Unsealed(key, body)).value, HEADER_LENGTH + |body|)
  {
    hide Unsealed, DecodeStruct, Le64, FromLe64;
    HeaderRoundTrip(|body|, body, rest);
  }

  lemma HeaderRoundTrip(length: nat, body: seq<Byte>, rest: seq<Byte>)
    requires |body| == length < TWO_64
    ensures var s := SIGNATURE + Le64(length) + body + rest;
      && s[..11] == SIGNATURE && FromLe64(s[11..]) == length
      && s[HEADER_LENGTH..HEADER_LENGTH + length] == body
  {
    hide Le64, FromLe64;
    var s := SIGNATURE + Le64(length) + body + rest;
    Le64RoundTrip(length, body + rest);
    assert s[11..] == Le64(length) + (body + rest);
  }

  lemma BodyRoundTrip(key: Option<Block>, fields: seq<Field>)
    requires Sendable(fields)
    ensures DecodeStruct(Unsealed(key, Sealed(key, Padded(BytesOfStruct(fields))))) == Some(FieldsMeaning(fields))
  {
    hide Sealed, Unsealed, DecodeStruct, EncodePackets, WellFormed;
    UnsealedSealed(key, Padded(BytesOfStruct(fields)));
    InnerPackets(Struct(fields));
    StructBytesRoundTrip(fields, Zeros(NextBy16(|BytesOfStruct(fields)|) - |BytesOfStruct(fields)|));
  }

  // ---------- a whole connection ----------

  function SendAll(key: Option<Block>, messages: seq<seq<Field>>): seq<Byte> {
    if |messages| == 0 then []
    else Frame(key, BytesOfStruct(messages[0])) + SendAll(key, messages[1..])
  }

  /** The next n messages, and the bytes that are left; None when one of them
      cannot be received. */
  function ReceiveAll(key: Option<Block>, stream: seq<Byte>, n: nat): Option<(seq<map<Chars, Value>>, seq<Byte>)> {
    if n == 0 then Some(([], stream))
    else
      match Receive(key, stream)
      case Got(fields, used) =>
        if used > |stream| then None
        else
          var others := ReceiveAll(key, stream[used..], n - 1);
          if others.None? then None else Some(([fields] + others.value.0, others.value.1))
      case _ => None
  }

  /** Every sequence of messages arrives as the same sequence, whatever the sizes,
      with or without the shared key. */
  lemma {:induction false} StreamRoundTrip(key: Option<Block>, messages: seq<seq<Field>>, rest: seq<Byte>)
    requires forall i | 0 <= i < |messages| :: Sendable(messages[i])
    ensures ReceiveAll(key, SendAll(key, messages) + rest, |messages|)
         == Some((seq(|messages|, i requires 0 <= i < |messages| => FieldsMeaning(messages[i])), rest))
  {
    hide Sendable, Receive, Frame, BytesOfStruct, FieldsMeaning;
    if |messages| == 0 {
      assert SendAll(key, messages) + rest == rest;
    } else {
      var f := Frame(key, BytesOfStruct(messages[0]));
      var after := SendAll(key, messages[1..]) + rest;
      assert SendAll(key, messages) + rest == f + after;
      FrameRoundTrip(key, messages[0], after);
      assert (f + after)[|f|..] == after;
      StreamRoundTrip(key, messages[1..], rest);
      var first, others := FieldsMeaning(messages[0]), messages[1..];
      assert seq(|messages|, i requires 0 <= i < |messages| => FieldsMeaning(messages[i]))
          == [first] + seq(|others|, i requires 0 <= i < |others| => FieldsMeaning(others[i]));
    }
  }

  // ---------- the message container ----------

  const UINT8: Byte := 2

  /** The characters of message_type and of message. */
  const MESSAGE_TYPE: Chars := [109, 101, 115, 115, 97, 103, 101, 95, 116, 121, 112, 101]
  const MESSAGE: Chars := [109, 101, 115, 115, 97, 103, 101]

  function Ascii(s: string): Chars
    requires forall i | 0 <= i < |s| :: s[i] as nat < 128
  {
    seq(|s|, i requires 0 <= i < |s| => s[i] as bv8)
  }

  lemma KeyNames()
    ensures MESSAGE_TYPE == Ascii("message_type") && MESSAGE == Ascii("message")
    ensures forall m :: KindField(m) == Field(Ascii("message_type"), Packed(2, Packet(2, [m.kind])))
  {
  }

  /** struct drpc_message, to be sent and as received. */
  datatype Message = Message(kind: Byte, body: Option<seq<Field>>)

  datatype Incoming = Incoming(kind: Byte, body: Option<map<Chars, Value>>)

  function KindField(m: Message): Field {
    Field(MESSAGE_TYPE, Packed(UINT8, Packet(UINT8, [m.kind])))
  }

  /** The container of drpc_send_message, in the order of the message type first
      or of the body first. */
  function Container(m: Message, bodyFirst: bool): seq<Field> {
    match m.body
    case None => [KindField(m)]
    case Some(fields) =>
      if bodyFirst then [Field(MESSAGE, Struct(fields)), KindField(m)]
      else [KindField(m), Field(MESSAGE, Struct(fields))]
  }

  /** drpc_recv_message after a successful read; None where its assertion fails. */
  function Opened(container: map<Chars, Value>): Option<Incoming> {
    if MESSAGE_TYPE in container && container[MESSAGE_TYPE].Simple? && container[MESSAGE_TYPE].tag == UINT8
      && |container[MESSAGE_TYPE].packet.payload| >= 1 then
      var body := if MESSAGE in container && container[MESSAGE].Record? then Some(container[MESSAGE].fields) else None;
      Some(Incoming(container[MESSAGE_TYPE].packet.payload[0], body))
    else None
  }

  function ArrivesAs(m: Message): Incoming {
    Incoming(m.kind, if m.body.None? then None else Some(FieldsMeaning(m.body.value)))
  }

  /** The receiver gets the type and the body back, whichever the table yields
      first; its assertion cannot fail. */
  lemma MessageRoundTrip(m: Message, bodyFirst: bool)
    ensures Opened(FieldsMeaning(Container(m, bodyFirst))) == Some(ArrivesAs(m))
  {
    hide FieldsMeaning, SetAll;
    assert |MESSAGE| != |MESSAGE_TYPE|;
    KindMeaning(m);
    if m.body.None? {
      OneField(KindField(m));
    } else {
      var fields := m.body.value;
      BodyMeaning(fields);
      TwoFields(KindField(m), Field(MESSAGE, Struct(fields)));
      TwoFields(Field(MESSAGE, Struct(fields)), KindField(m));
    }
  }

  lemma KindMeaning(m: Message)
    ensures Meaning(KindField(m).element) == Simple(UINT8, Packet(UINT8, [m.kind]))
  {
  }

  lemma OneField(f: Field)
    requires !Meaning(f.element).Nothing?
    ensures FieldsMeaning([f]) == map[f.key := Meaning(f.element)]
  {
    hide Meaning;
    var pairs := Pairs([f]);
    assert pairs == [(f.key, Meaning(f.element))];
    assert pairs[..0] == [];
    assert SetAll(pairs[..0]) == map[];
  }

  lemma TwoFields(f: Field, g: Field)
    requires !Meaning(f.element).Nothing? && !Meaning(g.element).Nothing?
    ensures FieldsMeaning([f, g]) == map[f.key := Meaning(f.element)][g.key := Meaning(g.element)]
  {
    hide Meaning;
    OneField(f);
    assert Pairs([f, g])[..1] == Pairs([f]);
  }

  lemma BodyMeaning(fields: seq<Field>)
    ensures Meaning(Struct(fields)) == Record(FieldsMeaning(fields))
  {
    assert Pairs(fields)
        == seq(|fields|, i requires 0 <= i < |fields| => (fields[i].key, Meaning(fields[i].element)));
  }

  /** Sending messages and receiving them, from the types and bodies to the types
      and bodies. */
  lemma MessagesRoundTrip(key: Option<Block>, messages: seq<Message>, bodyFirst: seq<bool>, rest: seq<Byte>)
    requires |messages| == |bodyFirst|
    requires forall i | 0 <= i < |messages| :: Sendable(Container(messages[i], bodyFirst[i]))
    ensures var sent := seq(|messages|, i requires 0 <= i < |messages| => Container(messages[i], bodyFirst[i]));
      var received := ReceiveAll(key, SendAll(key, sent) + rest, |messages|);
      && received.Some? && received.value.1 == rest && |received.value.0| == |messages|
      && forall i | 0 <= i < |messages| :: Opened(received.value.0[i]) == Some(ArrivesAs(messages[i]))
  {
    hide Sendable, ReceiveAll, SendAll, FieldsMeaning, Container, Opened, ArrivesAs;
    var sent := seq(|messages|, i requires 0 <= i < |messages| => Container(messages[i], bodyFirst[i]));
    StreamRoundTrip(key, sent, rest);
    forall i | 0 <= i < |messages| ensures Opened(FieldsMeaning(sent[i])) == Some(ArrivesAs(messages[i])) {
      MessageRoundTrip(messages[i], bodyFirst[i]);
    }
  }
}
