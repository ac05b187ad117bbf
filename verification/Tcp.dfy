/** drpc_tcp_send_message and drpc_tcp_recv_message on struct objects and buffers.
    The connection is the bytes that are under way; reads and writes are exact. */
module Tcp {
  import opened Bytes
  import opened Wrappers
  import opened HashTable
  import opened Wire
  import opened Codec
  import opened WireBuffers
  import opened Aes
  import opened AesCipher
  import opened AesModes
  import opened DStructs
  import opened DStructBuffers
  import opened Framing

  class Connection {
    var stream: seq<Byte>
    const Key: Option<Block>

    constructor (key: Option<Block>)
      ensures stream == [] && Key == key
    {
      stream, Key := [], key;
    }

    method SendMessage(d: DStruct<Element>)
      requires d.Valid() && Packable(d.Map())
      modifies this
      ensures stream == old(stream) + Frame(Key, BytesOf(d.Table.body[..]))
      ensures IsFrame(Key, BytesOf(d.Table.body[..]), stream[|old(stream)|..])
    {
      hide BytesOf, Sealed, Le64, Represents, Packable, IsFrame;
      ghost var b := BytesOf(d.Table.body[..]);
      var buf, buflen := DStructBuf(d);
      var length := NextBy16(buflen);
      var padded := Pad(buf, length);
      stream := stream + (SIGNATURE + Le64(length));
      Seal(Key, padded);
      stream := stream + padded[..];
      FrameIs(Key, b);
      assert stream == old(stream) + Frame(Key, b);
      hide IsFrame, Frame;
    }

    /** None is the error return 1. */
    method ReceiveMessage() returns (container: Option<DStruct<Value>>)
      requires !Receive(Key, stream).Undefined?
      modifies this
      ensures match Receive(Key, old(stream))
        case Failed(used) => container.None? && used <= |old(stream)| && stream == old(stream)[used..]
        case Got(fields, used) =>
          && container.Some? && fresh(container.value) && container.value.Map() == fields
          && used <= |old(stream)| && stream == old(stream)[used..]
        case Undefined => true
    {
      hide Le64, FromLe64, Unsealed, DecodeStruct;
      if |stream| < HEADER_LENGTH {
        stream := [];
        return None;
      }
      var header := stream[..HEADER_LENGTH];
      assert header[..11] == stream[..11];
      SameLength(stream, header);
      stream := stream[HEADER_LENGTH..];
      if header[..11] != SIGNATURE {
        return None;
      }
      var length := FromLe64(header[11..]);
      if |stream| < length {
        stream := [];
        return None;
      }
      var body := stream[..length];
      assert body == old(stream)[HEADER_LENGTH..HEADER_LENGTH + length];
      stream := stream[length..];
      assert stream == old(stream)[HEADER_LENGTH + length..];
      var buf := ArrayOf(body);
      Unseal(Key, buf);
      var d := StructOfBytes(buf, 0);
      container := Some(d);
    }
  }

  /** A struct that SendMessage writes is one that ReceiveMessage gets, field by
      field, wherever its table keeps them. */
  lemma SentIsReceived(key: Option<Block>, b: seq<Entry<Element>>, m: map<Key, Element>, w: map<Key, nat>,
                       rest: seq<Byte>)
    requires Represents(b, m, w) && Packable(m) && |BytesOf(b)| + 15 < TWO_64
    ensures var f := Frame(key, BytesOf(b));
      Receive(key, f + rest) == Got(map k | k in m :: Meaning(m[k]), |f|)
  {
    hide Represents, Packable, BytesOf, DecodeStruct, Receive, Sealed, Unsealed, Le64, Meaning,
         DecodeFields, DistinctKeys, Present;
    var bytes := BytesOf(b);
    PackedStructMeansItsMap(b, m, w, Zeros(NextBy16(|bytes|) - |bytes|));
    UnsealedSealed(key, Padded(bytes));
    ReceiveFramed(key, Sealed(key, Padded(bytes)), rest);
  }

  lemma SameLength(stream: seq<Byte>, header: seq<Byte>)
    requires |stream| >= HEADER_LENGTH && header == stream[..HEADER_LENGTH]
    ensures FromLe64(header[11..]) == FromLe64(stream[11..])
  {
    assert header[11..][..8] == stream[11..][..8];
  }

  /** Encryption in place when there is a key. */
  method Seal(key: Option<Block>, buf: array<Byte>)
    requires WholeBlocks(buf[..])
    modifies buf
    ensures buf[..] == Sealed(key, old(buf[..]))
  {
    hide CbcEncrypt, RoundKeysOf;
    assert buf[..buf.Length] == buf[..];
    if key.Some? {
      var k := ArrayOf(key.value);
      var iv := ArrayOf(FIXED_IV);
      var ctx := new Context.InitIv(k, iv);
      ctx.CbcEncryptBuffer(buf, buf.Length);
    }
    assert buf[..buf.Length] == buf[..];
  }

  method Unseal(key: Option<Block>, buf: array<Byte>)
    requires key.Some? ==> WholeBlocks(buf[..])
    modifies buf
    ensures buf[..] == Unsealed(key, old(buf[..]))
  {
    hide CbcDecrypt, RoundKeysOf;
    assert buf[..buf.Length] == buf[..];
    if key.Some? {
      var k := ArrayOf(key.value);
      var iv := ArrayOf(FIXED_IV);
      var ctx := new Context.InitIv(k, iv);
      ctx.CbcDecryptBuffer(buf, buf.Length);
    }
    assert buf[..buf.Length] == buf[..];
  }

  /** realloc to the padded length, and memset of the rest. */
  method Pad(buf: array<Byte>, length: nat) returns (padded: array<Byte>)
    requires length == NextBy16(buf.Length)
    ensures fresh(padded) && padded[..] == Padded(buf[..])
  {
    padded := new Byte[length];
    for i := 0 to buf.Length
      invariant padded[..i] == buf[..i]
    {
      padded[i] := buf[i];
    }
    for i := buf.Length to length
      invariant padded[..i] == buf[..] + Zeros(i - buf.Length)
    {
      padded[i] := 0;
      assert Zeros(i - buf.Length) + [0] == Zeros(i + 1 - buf.Length);
    }
    assert padded[..length] == padded[..];
  }
}
