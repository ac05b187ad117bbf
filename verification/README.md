# A verified model of the DynamicRPC core

DynamicRPC packs typed, nested values into bytes, sends them over an encrypted
framed link or a local queue, and runs calls through a pair of threads on the
server. This project models that core in Dafny and proves what its parts promise.

- `Deque.dfy`: the block deque under every queue, as a class over a table of
  blocks that is slid, regrown and recycled. It behaves as a plain sequence in
  every run, whatever the allocator does, and its memory follows its peak size.
- `Hashtable.dfy`: linear probing with tombstones, and a resize that re-enters the
  setter. Every run agrees with a map up to an operation on an absent key in a table
  of which every slot was once used; exactly then probing would never end.
- `Wire.dfy`, `Codec.dfy`: the wire format as functions. Decoding gives back the
  meaning of every finite nested value, whatever order the tables yield.
  `WireVectors.dfy` works out one struct byte by byte.
- `WireBuffers.dfy`, `DStruct.dfy`, `DStructBuffers.dfy`, `Containers.dfy`: the
  buffer loops, and the struct, queue and array objects that are packed and
  unpacked in place, proved against those functions.
- `AesTables.dfy`, `AesSbox.dfy`, `Aes.dfy`, `AesCipher.dfy`, `AesModes.dfy`: AES-128 (FIPS 197),
  and CBC and CTR (NIST SP 800-38A), as functions and as loops on buffers. `AesFips.dfy`
  states the cipher and the key schedule byte by byte as the standard does, and
  `AesVectors.dfy` works out its example.
- `Framing.dfy`, `Tcp.dfy`: the stream of framed, padded, encrypted messages.
- `Executor.dfy`, `Pairing.dfy`, `Mailbox.dfy`: transition systems over all
  interleavings: the reader and executor threads, the client's requests and
  replies under one mutex on either transport, and the mailbox moves.
- `Marshal.dfy`, `MarshalServer.dfy`, `MarshalClient.dfy`, `MarshalCall.dfy`,
  `MarshalProxy.dfy`, `MarshalPlaces.dfy`: the passes over a prototype on the server, the client and the
  proxy, and that they agree, with the way of the argument array over the wire.
- `DeepCopy.dfy`: the three mutually recursive copies of heap values.
- `Packing.dfy`, `Unpacking.dfy`: the same heap values packed to bytes, with every
  nested queue rotated and restored, and built anew from any bytes that can be read.
- `Bytes.dfy`, `Wrappers.dfy`: what the others share.

Inputs from outside are parameters: whether an allocation succeeds, what a called
function returns, what the network brings. Reads from the network are exact. A
`size_t` is a natural number except where the code depends on its width (the index
limits of the deque, the length field, the decimal keys, the hash). In the code
`char` is signed, which the hash follows.

Where the code departs from what its comments or the callers expect, the model
follows the code, and a contract states exactly when the expectation holds:

- `hashtable_remove` never gives a slot back before a resize
  (hashtable.c/hashtable.c:98-106), so a table can run out of null slots while it is
  empty, and probing for an absent key then goes on for ever
  (`HashTable.Hashtable.UseUp`, `HashTable.ProbingEnds`).
- An array index survives its decimal key if and only if it fits a `long`
  (`Wire.DecimalRoundTrip`).
- `buf_d_struct` counts a field each time its key comes, so the count of the struct
  is right if and only if no key comes twice and none was there before
  (`DStructBuffers.BufDStruct`). Into a struct from which fields were removed it may
  not come to an end; it stops at a key that is not there when no slot is null.
- `buf_d_array` asks for as many keys as the temporary struct counts and reads a null
  one if and only if a key comes twice; otherwise it counts keys, so the length is
  right if and only if no two keys read as one index (`Containers.BufDArray`). For
  whole values, at any depth: `Unpacking.UnpackElement`.
- `d_queue_copy` asserts that no entry is null (drpc_queue.c:448), though the mailboxes
  can make such entries; a value can be copied if and only if no queue in it has one
  (`DeepCopy.CopyElement`), while packing turns them into void packets that the reader
  skips (`Unpacking.SendElement`).
- `d_array_set_internal` raises the length even when the slot is occupied
  (drpc_array.c:41), so the length is right if and only if it was empty
  (`Containers.LengthAfterSet`).
- `drpc_proto_to_ffi` writes to the prototype that it reads: tags out of range become
  `d_void` (drpc_server.c:67). From then on a function accepts other calls than
  before, if and only if it had such a tag (`MarshalServer.ClampKeepsStrip`,
  `MarshalProxy.ProxyAcceptsTheSame`).
- A parameter of a type that `d_array_set` does not take leaves its place among the
  client's arguments empty, and the server reads only as many types as there are
  arguments; such a call is answered only if those parameters come last
  (`MarshalCall.WholeCall`).
- A parameter of type `d_void` that the client must send is accepted and then fails
  an assertion (drpc_server.c:373); this is the only way for the unpacking to fail
  (`MarshalServer.FfiFromDrpc`).
- The index of the returned argument goes through an `int8_t` (drpc_server.c:399),
  unharmed if and only if it is at most 127 (`MarshalCall.ReturnIsExact`); and a
  returned sized buffer is never handed to the caller (drpc_client.c:329-335).
- The client converts a floating-point argument to an integer and then takes the bytes
  of that for the number (drpc_client.c:240-243). An argument keeps its value if and
  only if it is a pointer, or fits its type and, if it is a floating-point number,
  survives that (`MarshalClient.KeptExactly`, `MarshalClient.ReadArguments`).
- A null pointer among the arguments fails the assertion in `d_array_set`
  (drpc_array.c:60), and this is the only way for the client's assertions to fail
  (`MarshalCall.WholeCall`).
- A text that comes back is copied over the caller's own (drpc_client.c:322-323),
  who has it whole if and only if it is not longer than his
  (`MarshalClient.OverwriteText`).
- The comment at drpc_server.c:502 says that a call may come without arguments. Every
  such call fails the assertion in `d_array_len` (drpc_array.c:371), also that of a
  function without parameters, which the comparison would accept
  (`MarshalCall.Function.CallFn`, `MarshalCall.CallWithoutArguments`).
- A proxy for a function with a null prototype tells libffi of three types and gives
  it none; with any other prototype the two numbers agree
  (`MarshalProxy.RegisterProxy`).
- Movers of one mailbox can push null placeholders. No schedule of the movers under
  way makes one if and only if each queue holds as much as they can still take out of
  it (`Mailbox.EnoughIsExact`); a new mover keeps that so if and only if it may start
  (`Mailbox.StartKeepsEnough`), which its caller can check.

## Model

| member | source | states |
|---|---|---|
| BlockDeque.NewBlockCount | deque.c:266-278 | growth fails only at the limit; otherwise the table is half as long again, or as long as the limit allows when that does not fit or one block would stay one |
| BlockDeque.Deque.Allocated | deque.c:65-90 | a new deque is the empty sequence, with one block in the middle of an eight-slot table |
| BlockDeque.Deque.PushFront | deque.c:294-357 | puts the element before the others or fails with the contents unchanged; sliding, regrowing and recycling keep blocks distinct and inside the table |
| BlockDeque.Deque.PushBack | deque.c:373-428 | puts the element behind the others or fails with the contents unchanged |
| BlockDeque.Deque.PopFront | deque.c:444-456 | takes the first element of the sequence, or none of an empty one |
| BlockDeque.Deque.PopBack | deque.c:472-484 | takes the last element of the sequence, or none of an empty one |
| BlockDeque.Deque.GetAt | deque.c:581-592 | reads element i of the sequence, or fails past its end |
| BlockDeque.Deque.SetAt | deque.c:518-529 | replaces element i alone, or fails past the end |
| BlockDeque.Deque.CopyToArray | deque.c:168-197 | the array receives exactly the sequence, block by block |
| BlockDeque.Deque.Clear | deque.c:620-646 | empties the deque and gives back all blocks but one, or fails and changes nothing |
| BlockDeque.Deque.Slide | deque.c:301-308 | an overlapping move of the allocated range keeps every block and the contents |
| BlockDeque.Deque.RecycleFrontBlock | deque.c:405-409 | an empty block at the front becomes the next one at the end; the contents stay |
| BlockDeque.Deque.RecycleBackBlock | deque.c:334-338 | an empty block at the end becomes the next one at the front; the contents stay |
| BlockDeque.Deque.Run | deque.c:294-484 | every run of pushes, pops, reads, writes, copies and clears replies as a plain sequence does, whichever allocations fail; memory is only missing where an allocation failed or the table is at its limit |
| BlockDeque.RunCases | deque.c:294-646 | the sequence behind a run, operation by operation, with every reply and error |
| BlockDeque.Deque.MemoryBound | deque.c:266-345 | allocated blocks are at most peak / block_size + 2, table slots at most 3 (peak / block_size + 10) / 2, in every reachable state |
| HashTable.Hashtable.constructor | hashtable.c/hashtable.c:113-133 | a new table stands for the empty map, with four null slots |
| HashTable.HashOneMore | hashtable.c/hashtable.c:25-32 | the hash starts at 5381 and each character adds its signed value to 33 times the hash before, modulo 2^64 |
| HashTable.Hashtable.FindSlot | hashtable.c/hashtable.c:41-48 | probing ends, at the first slot on the way that is null or has the key |
| HashTable.ProbedInOrder | hashtable.c/hashtable.c:41-48 | the slot found is the first null one, or the one of the key, going up one by one from the remainder of the hash, round the end of the table |
| HashTable.ProbingEnds | hashtable.c/hashtable.c:41-48 | there is a slot to end at if and only if a slot was never used or the key is live |
| HashTable.FoundIsEntry | hashtable.c/hashtable.c:41-64 | where probing ends is the entry of the key, or null when there is none |
| HashTable.StoreRepresents | hashtable.c/hashtable.c:69-86 | storing where probing ends keeps the table standing for a map, with no null slot on a live key's path |
| HashTable.RemoveRepresents | hashtable.c/hashtable.c:98-108 | a tombstone keeps every other key reachable and removes one key |
| HashTable.Hashtable.Get | hashtable.c/hashtable.c:53-64 | the value of the map, or none |
| HashTable.Hashtable.SetUnlocked | hashtable.c/hashtable.c:69-86 | the map gets the binding and keeps the others, through any number of nested resizes; size and capacity evolve as AddFresh says and 5 size <= 4 capacity again |
| HashTable.Hashtable.Remove | hashtable.c/hashtable.c:98-108 | the map loses the key; size falls by one only if it was there; no null slot comes back |
| HashTable.Hashtable.Resize | hashtable.c/hashtable.c:139-155 | no entry is lost and no tombstone stays, though the setter it calls may resize again, each time with fewer entries; its assertion on the capacity cannot fail |
| HashTable.RoomLeft | hashtable.c/hashtable.c:69-86 | a table without tombstones and with fewer keys than slots has a null slot |
| HashTable.SetOnlyStep | hashtable.c/hashtable.c:69-86 | how far size, which counts moved entries again, can run ahead of the keys when keys are only set |
| HashTable.FirstFourKeys | hashtable.c/hashtable.c:69-155 | after four keys size is 9 and capacity 16: moving the entries counts them again and grows the table a second time |
| HashTable.Hashtable.Fill | hashtable.c/hashtable.c:69-155 | set-only runs always leave a null slot, and a capacity of 4 or of less than five slots a key |
| HashTable.Hashtable.Run | hashtable.c/hashtable.c:41-108 | every run of set, get and remove answers as a map does, up to an operation whose probing would never end: the key is absent and no slot is null |
| HashTable.RunCases | hashtable.c/hashtable.c:53-108 | the map behind a run, operation by operation, with every reply |
| HashTable.Hashtable.UseUp | hashtable.c/hashtable.c:98-106 | setting and removing four keys leaves an empty table where probing for any key never ends |
| Executor.Safety | drpc_server.c:681-794 | for every interleaving: semaphore, pending post and held ticket cover the queue, every pushed event is posted once and every wait takes one post, the executor sleeps on a filled queue only while a post is coming, and what was handled is a prefix of what was received, in order |
| Executor.InvRun | drpc_server.c:681-794 | the invariant of the handoff holds after every run |
| Executor.NeverStuck | drpc_server.c:686-692 | once the reader joins, some step is always possible |
| Executor.MeasureFalls | drpc_server.c:681-747 | once the reader joins, every step but the join itself lowers a measure |
| Executor.ConnectionEnds | drpc_server.c:775-790 | from the join on, every run is finite and ends with the executor joined |
| Executor.GoesOn | drpc_server.c:686-743 | the executor goes on if and only if it has handled no disconnection and no unknown message, and every ping, call and name request succeeded; mailbox requests never end it |
| Executor.OneEvent | drpc_server.c:693-743 | after one event of each kind, successful or not: whether it stops, and whether the client is gone |
| Executor.LeavesNothing | drpc_server.c:686-747 | the executor leaves if and only if it was told to stop and the queue is empty; then it has handled everything that was pushed |
| Executor.AllHandled | drpc_server.c:681-794 | when no received event was a disconnection or unknown, and no ping, call or name request failed, everything received was handled in order before the join |
| Pairing.Pairing | drpc_client.c:29-57 | for every interleaving of any number of threads, on either transport: a thread has only the reply to its own request, and only a ping gets a pong, only a name request a name, only a call a return; at most one message is under way; nobody woken finds an empty queue |
| Pairing.ReplyComes | drpc_client.c:252-261 | a waiting thread is answered within eight of the steps that carry its request and its reply; until then another one can be taken, if and only if the server has not stopped before the request |
| Pairing.WayShortens | drpc_protocol.c:79-195 | each of these steps shortens the way of the request, and no other step prolongs it |
| Pairing.WokenHasMessage | drpc_protocol.c:79-111 | a successful wait on the local transport finds a message, on both sides |
| Pairing.InvRun | drpc_client.c:365-449 | exclusion, counting, ownership and matching hold after every run |
| Mailbox.Conservation | drpc_server.c:590-593 | for every interleaving of deliveries and drains a message is in as many places as at first |
| Mailbox.TakenInOrder | drpc_server.c:652-656 | a mover takes messages in the order in which they were put into its source |
| Mailbox.DeliveredInOrder | drpc_client.c:417-420 | a queue that is the target of one mover only receives what the mover takes, in the order of the mailbox |
| Mailbox.EnoughIsExact | drpc_client.c:417-420 | no schedule of the movers under way pushes a null placeholder if and only if every queue has at least as many entries as they can still take out of it |
| Mailbox.StartKeepsEnough | drpc_server.c:590-593 | after one more mover there is still enough if and only if nobody else can take from its source, or the source is empty, or it is moved onto itself with an entry to spare |
| Mailbox.NoRaceNoPlaceholder | drpc_client.c:417-420 | if every mover is started where it may be, no placeholder ever arises and none can |
| Mailbox.RaceMakesPlaceholder | drpc_client.c:417-420 | the smallest instance: a second mover of one message must not start, and if it does some schedule pushes a placeholder |
| Mailbox.PlacesStep | queue.c:10-22 | one atomic pop or push neither loses nor doubles a message |
| AesTables.SubstituteInverse | aes.c:83-120 | the two substitution tables undo each other on every byte |
| AesSbox.SubstituteIsAffineInverse | aes.c:83-100 | the substitution table is the one of section 5.1.1 of FIPS 197: inverse in GF(2^8), then an affine map, for every byte |
| Aes.MixedIsProduct | aes.c:304-318 | the column mix with its running sum is the product with 2, 3, 1, 1 of FIPS 197 |
| Aes.UnmixMixed | aes.c:354-370 | the inverse column mix undoes the mix in GF(2^8), for every column |
| Aes.RowsMoveLeft | aes.c:270-296 | row r of the state moves r columns to the left |
| Aes.InvMixColumnsUndoes | aes.c:304-370 | InvMixColumns undoes MixColumns on every block |
| Aes.InvShiftRowsUndoes | aes.c:270-411 | InvShiftRows undoes ShiftRows on every block |
| Aes.InvSubBytesUndoes | aes.c:255-385 | InvSubBytes undoes SubBytes on every block |
| Aes.InvRoundsRetrace | aes.c:417-465 | the inverse loop, in opposite round order, passes through the cipher's states backwards |
| Aes.InvCipherUndoesCipher | aes.c:417-465 | InvCipher undoes Cipher for every block and every array of round keys |
| AesFips.CipherBytes | aes.c:417-440 | section 5.1 of FIPS 197, byte by byte: each byte of a round is one equation over the round before, with the coefficients 2, 3, 1, 1, the shifted columns and the byte of the round key |
| AesFips.LastKeyIsAdded | aes.c:241-251 | what is added to byte 160 + i of the key array is added to byte i of the result |
| AesFips.FirstKeyIsAdded | aes.c:241-251 | the same added to byte i of the block and of the key array changes nothing |
| AesFips.ScheduleStart | aes.c:156-163 | the first sixteen bytes of the round keys are the key |
| AesFips.ScheduleFirstWord | aes.c:165-220 | the first word of each round key: the last word before it, rotated and substituted, with the doubling constant of the round, added to the word four places before |
| AesFips.ScheduleOtherWords | aes.c:165-220 | every other byte is the sum of the bytes four and sixteen places before it |
| AesVectors.RoundKeysOfKey | aes.c:150-221 | the eleven round keys of Appendix A.1 of FIPS 197 |
| AesVectors.CipherExample | aes.c:417-440 | the cipher block of Appendix B of FIPS 197 |
| AesCipher.KeyExpansion | aes.c:150-221 | the loops fill exactly the key schedule of FIPS 197 |
| AesCipher.AddRoundKey | aes.c:241-251 | the state in the buffer gets the round key added, the rest of the buffer stays |
| AesCipher.SubBytes | aes.c:255-265 | the state is substituted in place, the rest stays |
| AesCipher.InvSubBytes | aes.c:375-385 | the state is substituted back in place, the rest stays |
| AesCipher.ShiftRows | aes.c:270-296 | the rows are rotated in place, the rest stays |
| AesCipher.InvShiftRows | aes.c:387-411 | the rows are rotated back in place, the rest stays |
| AesCipher.MixColumns | aes.c:304-318 | the columns are mixed in place, one after another, from their old bytes |
| AesCipher.InvMixColumns | aes.c:354-370 | the columns are unmixed in place from their old bytes |
| AesCipher.Cipher | aes.c:417-440 | the loop with its early exit is the cipher function, in place |
| AesCipher.InvCipher | aes.c:443-465 | the loop with its early exit is the inverse cipher function, in place |
| AesModes.Context.InitIv | aes.c:228-232 | a context holds the key schedule and a copy of the vector |
| AesModes.Context.CbcEncryptBuffer | aes.c:505-518 | the buffer becomes its chained encryption, though the vector is a place in that buffer; the last cipher block is carried to the next call |
| AesModes.Context.CbcDecryptBuffer | aes.c:520-533 | the buffer becomes its chained decryption; the last cipher block is carried |
| AesModes.CbcDecryptUndoesEncrypt | aes.c:505-533 | decryption from the same vector restores any data of whole blocks |
| AesModes.CbcBlock | aes.c:505-518 | section 6.2 of NIST SP 800-38A: every block, added to the cipher block before it or to the vector, is encrypted with the cipher function |
| AesModes.CbcDecryptBlock | aes.c:520-533 | every block is decrypted with the inverse cipher function and added to the cipher block before it or to the vector |
| AesModes.CbcInPieces | aes.c:505-518 | encryption in block-aligned pieces with the carried vector is one whole encryption |
| AesModes.CbcDecryptInPieces | aes.c:520-533 | so is decryption |
| AesModes.Context.Increment | aes.c:556-567 | the carry loop adds one to the big-endian counter |
| AesModes.IncTimesAdds | aes.c:556-567 | n increments add n modulo 2^128 |
| AesModes.NumberOfBytes | aes.c:556-567 | the counter is big-endian: the bytes before have the weight of those after |
| AesModes.Context.CtrXcryptBuffer | aes.c:542-573 | the buffer is added to the key stream, and the vector advances by ceil(length / 16) |
| AesModes.CtrByte | aes.c:542-573 | byte i is added to byte i mod 16 of the encrypted counter i / 16 |
| AesModes.CtrUndoesItself | aes.c:542-573 | the counter mode applied twice from one vector is the identity |
| AesModes.CtrInPieces | aes.c:542-573 | counter mode in block-aligned pieces with the advanced counter is counter mode on the whole |
| Wire.LittleBytes | drpc_types.c:169-170 | byte i of a length has weight 256^i: the low byte comes first |
| Wire.LittleRoundTrip | drpc_types.c:169-184 | a length survives its little-endian bytes |
| Wire.DecodePacket | drpc_types.c:176-190 | reading takes as many bytes as the packet's length says, and no more than there are |
| Wire.PacketBytes | drpc_types.c:166-174 | the tag, eight bytes of length with weights 256^i, and the payload, place by place |
| Wire.PacketsRead | drpc_types.c:176-190 | for any bytes: what a packet is and how many bytes it takes; a void one takes nine whatever they say |
| Wire.ListBytes | drpc_types.c:200-207 | eight bytes of the number of packets, then the packets one after another |
| Wire.PacketRoundTrip | drpc_types.c:166-190 | a packet is read back whole, whatever follows it |
| Wire.PacketsRoundTrip | drpc_types.c:200-221 | a counted list of packets is read back whole, whatever follows it |
| Wire.CStringRoundTrip | drpc_struct.c:315-357 | a key or text without NUL is found again before its terminator |
| Wire.DecimalDigits | drpc_array.c:323-324 | the decimal digits of an index, the last one being that of the ones |
| Wire.AtolCases | drpc_array.c:353 | what atol reads as a size_t: blanks, signs, the end at the first other character, and the clamp to a long |
| Wire.DecimalRoundTrip | drpc_array.c:324-353 | an index printed in decimal is read back by atol if and only if it is below 2^63 |
| Codec.InnerPackets | drpc_array.c:315-342 | an array is packed as the struct of its decimal keys |
| Codec.RoundTrip | drpc_struct.c:276-414 | decoding gives the meaning of every nested struct, queue, array, string, buffer and scalar, and ignores trailing bytes |
| Codec.FieldsRoundTrip | drpc_struct.c:284-414 | the fields of a packed struct are read back key by key |
| Codec.CellsRoundTrip | drpc_array.c:315-368 | the cells of a packed array are read back index by index |
| Codec.ItemsRoundTrip | drpc_queue.c:316-436 | the items of a packed queue are read back in order, null ones left out |
| Codec.StructBytesRoundTrip | drpc_struct.c:276-414 | buf_d_struct after d_struct_buf gives the fields as a map |
| Codec.SetAllIsThePairs | drpc_struct.c:352-412 | with distinct keys the decoded map is exactly the pairs on the wire |
| Codec.OrderIsForgotten | drpc_struct.c:288-335 | two orders of the same fields decode to the same struct |
| WireVectors.ExampleBytes | drpc_struct.c:276-344 | the bytes of a struct with a scalar, a queue with a null entry and a text, and an array, written out |
| WireVectors.ExampleRead | drpc_struct.c:345-414 | what a reader makes of these bytes |
| WireBuffers.DrpcBuf | drpc_types.c:166-174 | writes exactly the packet's encoding behind what is already written and reports its length |
| WireBuffers.DrpcTypesBuflen | drpc_types.c:192-198 | the length reported is that of the encoding |
| WireBuffers.DrpcTypesBuf | drpc_types.c:200-207 | the buffer receives exactly the encoding of the list, the rest stays |
| WireBuffers.BufDrpc | drpc_types.c:176-190 | reads the packet that the decoding function finds at the cursor |
| WireBuffers.BufDrpcTypes | drpc_types.c:209-221 | reads the packets that the decoding function finds |
| DStructs.DStruct.Set | drpc_struct.c:27-166 | the field is set, or removed again when its type is not taken, and the count stays the number of fields |
| DStructs.DStruct.Get | drpc_struct.c:168-219 | the value of a field of that type, or an error |
| DStructs.DStruct.Unlink | drpc_struct.c:220-230 | removes a field that is a pointer; fails on the others |
| DStructs.DStruct.Remove | drpc_struct.c:232-265 | removes a field; fails when there is none |
| DStructs.DStruct.Run | drpc_struct.c:27-265 | in every run the replies are those of a map and current_len is the number of live entries, up to an operation on an absent field in a table without a null slot |
| DStructs.RunCases | drpc_struct.c:27-265 | the map behind a run, operation by operation, with every reply and error |
| DStructs.DStruct.GetFields | drpc_struct.c:416-429 | an array of current_len places has each live key once, and null in the places that are left over |
| DStructs.AllEntries | drpc_struct.c:288-335 | the live slots in order are the fields of the map, each once |
| DStructBuffers.PackFields | drpc_struct.c:284-335 | the array of current_len packets is filled exactly, in slot order |
| DStructBuffers.DStructBuf | drpc_struct.c:276-344 | the buffer is the encoding of the live fields and the length reported is the number of bytes written |
| DStructBuffers.PackedStructMeansItsMap | drpc_struct.c:276-414 | what is read back is the map, whatever slots its keys are in, and no key comes twice |
| DStructBuffers.BufDStruct | drpc_struct.c:345-414 | what the bytes say replaces or joins the fields of the struct; the count is right if and only if no key comes twice and none was there before; without tombstones it reads all, with them up to a key for which probing does not end |
| DStructBuffers.CountIsRight | drpc_struct.c:411-412 | the number of fields read equals the number of keys if and only if the keys are distinct |
| DStructBuffers.SendStruct | drpc_types.c:89-158 | a struct packed and unpacked has the same fields and a right count |
| Containers.DQueue.Pop | drpc_queue.c:129-138 | takes the first element of the wanted type; one of another type moves to the end |
| Containers.DQueueBuf | drpc_queue.c:316-373 | packing rotates the queue its full length, which restores it, and writes its encoding |
| Containers.BufDQueue | drpc_queue.c:374-436 | the decoded items are pushed in order, void packets skipped |
| Containers.DArray.SetInternal | drpc_array.c:32-43 | the cell is set and the others stay, through growth; the length goes up by one |
| Containers.DArray.DelInternal | drpc_array.c:51-57 | the cell is emptied and the others stay |
| Containers.LengthAfterSet | drpc_array.c:41-42 | the length after a set is right if and only if the slot was empty |
| Containers.DArrayBuf | drpc_array.c:315-342 | the bytes are those of an array with the same cells, each once |
| Containers.ArrayMeaning | drpc_array.c:315-368 | what a packed array means does not depend on the order of its cells |
| Containers.BufDArray | drpc_array.c:344-368 | fails if and only if a key comes twice; otherwise every field becomes a cell at the index that its key reads as, and the length is the number of fields, which is that of the cells if and only if no two keys read as one index |
| Containers.SendArray | drpc_types.c:85-152 | an array packed and unpacked has the same cells and the right length |
| Framing.NextBy16 | drpc_protocol.c:20-25 | the least multiple of 16 that is not smaller |
| Framing.FrameIs | drpc_protocol.c:146-172 | the bytes of a message: DRPCv250+E and its NUL, the length of the body, and the padded container, with a key each block chained from the bytes 0 to 15 and encrypted |
| Framing.BodyDecrypted | drpc_protocol.c:185-189 | block by block what a receiver with the key makes of any body |
| Framing.Refused | drpc_protocol.c:174-184 | which streams are refused, and how many bytes a refused and a received message take |
| Framing.KeyNames | drpc_protocol.c:33-35 | the container has the fields message_type and message |
| Framing.UnsealedSealed | drpc_protocol.c:162-187 | with or without a key, opening a sealed body gives the padded container back |
| Framing.FrameRoundTrip | drpc_protocol.c:146-195 | one message is received as sent, and what follows it is not touched |
| Framing.StreamRoundTrip | drpc_protocol.c:146-195 | any sequence of messages is received as the same sequence |
| Framing.MessageRoundTrip | drpc_protocol.c:29-54 | type and body come out of the container, whichever the table yields first, and the receiver's assertion cannot fail |
| Framing.MessagesRoundTrip | drpc_protocol.c:29-195 | any sequence of typed messages arrives as the same types and bodies |
| Tcp.Connection.SendMessage | drpc_protocol.c:146-172 | the stream grows by exactly the frame of the struct object, whose header, length, padding and cipher blocks are those of Framing.FrameIs |
| Tcp.Connection.ReceiveMessage | drpc_protocol.c:174-195 | takes one frame off the stream and returns its struct, or fails on a short stream or a wrong signature |
| Tcp.SentIsReceived | drpc_protocol.c:146-195 | a struct object that is sent is received field by field, wherever its table keeps them |
| Marshal.SlotsMatchTypes | drpc_server.c:60-377 | the types told to libffi and the argument vector agree slot by slot |
| Marshal.FfiTypesLength | drpc_server.c:52-77 | the adjusted length is the number of slots, a sized buffer taking two |
| Marshal.ArgumentsInOrder | drpc_server.c:327-375 | each client argument is consumed once, in order |
| Marshal.FillsAreTheBlanks | drpc_server.c:331-340 | each server-only parameter has its own fill entry, for its own slot |
| Marshal.RepacksAreThePointers | drpc_server.c:345-370 | what is queued to go back are the client's pointer arguments, in order |
| MarshalPlaces.TagNumbers | drpc_types.h:10-42 | the types by their numbers: server-only 16 to 19, pointers 11 to 15, sent 1 to 15 |
| MarshalPlaces.StripAt | drpc_server.c:269-290 | type i of a prototype moves down by the server-only types before it |
| MarshalPlaces.ClampAt | drpc_server.c:67 | a tag from 20 on becomes 0, no other changes |
| MarshalPlaces.FfiTypeAt | drpc_server.c:60-77 | the libffi type of each parameter and its place, a sized buffer having a length behind it |
| MarshalPlaces.PlacedAt | drpc_server.c:320-377 | for each parameter: its slot, what is in it, and its entry in the queue of slots to fill or of arguments to send back |
| MarshalPlaces.ReturnedByte | drpc_server.c:399-452 | the returned index is the one modulo 256 from -128 to 127 |
| MarshalServer.ProtoToFfi | drpc_server.c:60-77 | fills exactly the adjusted length with the prototype's types, and clamps the prototype in place |
| MarshalServer.ClampKeepsTypes | drpc_server.c:67-69 | a clamped prototype has the same libffi types |
| MarshalServer.ClampKeepsStrip | drpc_server.c:67 | a clamped prototype accepts the same calls if and only if no tag was out of range |
| MarshalServer.CreateClientPrototype | drpc_server.c:269-290 | the prototype without server-only types, in order |
| MarshalServer.IsArgumentsEqualPrototype | drpc_server.c:293-317 | zero exactly when the client sends the stripped prototype, null prototypes counting as empty |
| MarshalServer.FfiFromDrpc | drpc_server.c:320-377 | builds the vector and both queues as specified; its assertion fails if and only if a client parameter is void |
| MarshalServer.FillIn | drpc_server.c:413-433 | every server-only slot gets its value, no other slot changes |
| MarshalServer.Repack | drpc_server.c:437-464 | everything queued goes back, and return_is is the last index with the returned pointer, as an int8_t; stops on a returned argument of another type |
| MarshalCall.Function.CallFn | drpc_server.c:379-486 | when a call is refused, fails or is made, with which vector, and what goes back; without an array of arguments every call fails; the prepared types agree with the vector in every call |
| MarshalCall.CallWithoutArguments | drpc_server.c:379-393 | a call without arguments fails even for a function without parameters, which accepts it |
| MarshalClient.ReadArguments | drpc_client.c:209-247 | fails if and only if a pointer is null; otherwise the array has what it keeps of each argument passed, at its place, and a place stays empty where the type is not passed on |
| MarshalClient.KeptExactly | drpc_client.c:222-246 | for each type by its number: an integer keeps its value if and only if it is below 2^8, 2^16, 2^32 or 2^64, a floating-point number has four or eight bytes of what it is converted to, a pointer stays |
| MarshalClient.ScalarLength | drpc_types.c:26-66 | the packet of a scalar has as many bytes as its C type |
| MarshalClient.ArgumentsArrive | drpc_array.c:281-368 | the server has the types of the client's arguments, the values that the array kept, and for pointers objects of equal content, whether the array is handed over or packed and unpacked |
| MarshalClient.SentComeFirst | drpc_server.c:381-387 | if the server reads no empty place, the arguments that are passed on are the first ones |
| MarshalClient.TakeBack | drpc_client.c:268-342 | each returned argument meets the object at its place; fails if and only if one is not of the expected type |
| MarshalClient.OverwriteText | drpc_client.c:316-327 | the bytes of the caller's text afterwards; it reads as the returned text if and only if that is not longer, and otherwise has no terminator |
| MarshalCall.RepackedIsExpected | drpc_server.c:437-464 | if the server accepts, what goes back is what the client expects, type by type |
| MarshalCall.WholeCall | drpc_client.c:198-354 | from variable arguments over the transport to the outcome: the client's assertions fail if and only if a pointer is null; when a call is refused, fails or is answered; integers that fit their type arrive unchanged, the slots are filled with what the client passed, every object meets its update, and the returned pointer is the client's own for that argument |
| MarshalCall.ReturnIsExact | drpc_server.c:399-452 | the index survives int8_t if and only if it is at most 127 |
| MarshalProxy.RegisterProxy | drpc_server.c:1082-1122 | the proxy's prototype is the base and the stripped prototype, clamped; libffi is told of as many types as there are if and only if the prototype is not null |
| MarshalProxy.StripTwice | drpc_server.c:269-290 | stripping is idempotent |
| MarshalProxy.ProxyAcceptsTheSame | drpc_server.c:1082-1122 | stripping the proxy's prototype gives the stripped original; it accepts the same calls if and only if no tag is out of range |
| MarshalProxy.PlainCallsOfProxy | drpc_server.c:1082-1122 | calls with types that a client passes on are accepted by the proxy exactly when the function accepts them |
| MarshalProxy.ForwardCall | drpc_server.c:1050-1068 | when a registered proxy refuses, fails or answers; if it answers, no type was out of range, and unless a pointer is null the forwarded call has what the array keeps of each argument that came in |
| DeepCopy.CopyElement | drpc_struct.c:480-516 | there is a copy if and only if no queue inside has a null entry; it is an equal value of new objects only, none of them in two places, with right counts, and the source is unchanged |
| DeepCopy.CopyStruct | drpc_struct.c:476-524 | every field is copied, and the copy's count is their number |
| DeepCopy.CopyQueue | drpc_queue.c:443-489 | fails if and only if an entry is null, here or in a queue inside; otherwise every item is copied in order, and rotating the source its full length restores it |
| DeepCopy.CopyArray | drpc_array.c:374-419 | every occupied cell is copied to its index, empty ones stay empty |
| Packing.LayoutMeans | drpc_struct.c:276-344 | however the tables of a heap value order their fields, the element that is packed means that value |
| Packing.PackStruct | drpc_struct.c:276-344 | the bytes of a struct object: every field once, in some order of the table; the source is unchanged |
| Packing.PackQueue | drpc_queue.c:316-373 | the bytes of a queue object, with void packets for null entries; it and all queues inside it are rotated their full length and so restored |
| Packing.PackArray | drpc_array.c:315-342 | the bytes of an array object: each occupied cell once |
| Packing.PackElement | drpc_types.c:85-96 | the packet of any heap value is the encoding of one of its layouts; the source is unchanged |
| Packing.PackedTreeIsRead | drpc_struct.c:276-414 | decoding the packed bytes gives the content of the heap value, whatever follows them |
| Unpacking.UnpackStruct | drpc_struct.c:345-414 | any bytes that can be read become a new struct object with new parts apart from one another; a key that comes again replaces its field and is counted again; void packets are skipped |
| Unpacking.UnpackQueue | drpc_queue.c:374-436 | any bytes that can be read become a new queue object with the items in order, void packets skipped |
| Unpacking.UnpackArray | drpc_array.c:344-368 | a new array object, unless a key comes twice in an array; its length is right, inside as well, if and only if no key and no index comes twice |
| Unpacking.UnpackElement | drpc_types.c:137-164 | for any bytes that can be read: it succeeds if and only if no array inside has a key twice; all counts inside are right if and only if no key and no index comes twice; unless an index does, it is the value that decoding gives, made of new objects only |
| Unpacking.RegularPasses | drpc_struct.c:276-414 | what the packing functions write has no key and no index twice, at any depth |
| Unpacking.SendElement | drpc_types.c:85-164 | a heap value packed and unpacked: equal content but for null entries, right counts, new objects, no sharing, and the source is unchanged |

## Left out

- Sockets, partial reads and writes, authentication, thread creation, logging, random names, users and permissions: foreign calls or plumbing.
- libffi: the called function is arbitrary, and its preparation always succeeds.
- `deque_trim` and `deque_add_all` (deque.c:128-155 and 212-261): nothing in the RPC code calls them, and both assume that the block of an end index is allocated.
- Allocation inside a block, sizes in bytes and `deque_destroy`; the growth ratio 1.5 is computed on integers; the wrappers of impl_queue.c.
- HashTable.Hashtable.Run: stops where probing would not end; the lock, the 32-bit width of `size` and `capacity`, the sign of the `int` index and the rounding of the float ratio 0.8 are not modelled.
- Ownership: freeing of replaced or removed elements, `d_struct_free` and its kind, and which arguments are freed after a call whose slots and arguments have different indices (drpc_server.c:454).
- DStructBuffers.DStructBuf: the containers inside the struct are values here; for the object in its table of slots with containers inside see Packing and Unpacking, where a table is a map with an arbitrary order. The same holds for DStructBuffers.PackFields, DStructBuffers.SendStruct, Containers.DQueueBuf, Containers.DArrayBuf and Containers.SendArray.
- Containers.DQueue.Pop: the queue is a sequence here; that the block deque behaves as one is proved in BlockDeque.
- Containers.DArray.SetInternal: new slots are empty, as intended; the clear at drpc_array.c:39 scales its offset twice.
- Containers.BufDArray: which of two fields for one index stays is left to the order of the table. The same holds for Unpacking.UnpackArray and Unpacking.UnpackElement.
- DStructBuffers.BufDStruct: bytes that no encoder writes may be undefined in C; the decoding functions give None for them and the readers require that they do not.
- Floating-point values: opaque bytes; what the client's conversion of an argument to an integer makes of one is a parameter.
- MarshalCall.WholeCall: the packing of an ordinary return value is left out; the value of an integer is its low bytes, without a sign.
- MarshalClient.TakeBack: which object meets which; how the bytes of a text are overwritten is in MarshalClient.OverwriteText, and a struct, an array or a queue takes over the parts of the returned one.
- MarshalProxy.ForwardCall: a proxy with a null prototype, which would read before its own three parameters, and the retry after a failed forward.
- Pairing.Pairing: receive timeouts and calls that race a disconnect.
- Executor.Safety: the counter of the queue is read atomically, and the semaphore wait is not interrupted.
- Mailbox.Conservation: mailboxes that are proxied to another server.
- Headers and test.c.
