# mist, modelled in Dafny

mist keeps a user's files encrypted and spread over the machines of a small
peer-to-peer network. A local catalog maps file paths to encrypted files.

- Small payloads become one AES-CBC chunk file on the local disk.
- Larger payloads are cut into at most eleven pieces, and each piece is
  stored on a network member that the directory picks.
- A polling watchdog turns file-system changes into catalog calls. It holds
  each change back for five polls so that a burst of writes becomes one
  update.

The project models the sequential core of that system.

| file | module | what it models |
|---|---|---|
| common.dfy | `Common` | Python exceptions as `Exc`, slicing, the `<Q` size field, space padding, the AES-CBC oracle, `uuid.bytes_le`, `str(uuid)`, `ntpath.basename` |
| base64.dfy | `Base64` | Python 2's `"base64"` codec: RFC 4648 section 4 alphabet, 76-character lines as in section 6.8 of RFC 2045 |
| storage.dfy | `Storage` | the disk (path → bytes) and the directory's store/retrieve/delete client (key → bytes or text) |
| split.dfy | `Split` | the slicing loops shared by every splitter, the piece-size policies and their bounds |
| mist_chunk.dfy | `MistChunk` | the 56-byte chunk header, write, validated read and delete, for both chunk classes |
| files.dfy | `Files` | the whole-file frame (size, IV, ciphertext) of files.py and of its earlier revision mist_file.py |
| data_files.dfy | `DataFiles` | the network shard and the split / read / delete engine of data_files.py and mist_data_files.py |
| mist_network_member.dfy | `MistNetworkMember` | a member's history and activation, the peer's RPC handlers and the base64 round trips |
| mist_network.dfy | `MistNetwork` | the directory's active/inactive registry and its routing of store, retrieve and delete |
| mist.dfy | `Mist` | mist.py: its chunk, network data file, data file and the `Mist` catalog |
| mist_watchdog.dfy | `MistWatchdog` | the countdown map of the polling emitter, the chunk-folder/index filter and the routing of events to catalog calls |
| prototype.dfy | `Prototype` | main.py: 50-byte pieces encrypted with simplecrypt, read back and joined |

These things are parameters of the model:

- **Cryptography.**
  - AES-CBC is a `Cipher`: a pair of functions, assumed only to preserve
    length and to invert each other on block-aligned input with a 16-byte IV.
  - simplecrypt is a `Sealer`, assumed only to have decryption undo
    encryption.
- **Random and fresh values.** IVs and fresh uuid4 values are inputs. Where
  a new key goes onto the network, a `requires` says it is not already
  there: `key !in net.texts` for a file, `FreshPieceKeys` for a data file's
  pieces. A new data file's uid must not already be catalogued. Nothing
  requires a new chunk path to be unused, and nothing keeps two catalog
  entries from sharing a key or a path (see "Left out").
- **Background threads.** A creation thread is modelled as having run to
  completion. A join that times out is a `timedOut` argument. Shards whose
  store thread is still running are a `stalled` set.
- **Dictionary iteration order.** Where order matters it is a ghost
  `visited` sequence that the model proves to enumerate the map.

The model returns `Raised` for the exceptions of the modelled code: a
`TypeError` on `None`, `ValueError` from AES on unaligned input,
`struct.error`, `IOError`, `KeyError`, `binascii.Error` and
`UnicodeEncodeError`. Exceptions the model does not reproduce are listed
under "Left out". Where the code returns `None`, the model returns `None`.

Behaviour of the code as written:

- mist_network.py has no delete-retry timer and no shutdown broadcast.
- `MistNetworkMember.SendStoreRequest`, `SendRetrieveRequest` and
  `SendDeleteRequest` (mist_network.py:33-48) catch no transport failure. A
  member without an address, or whose address has no server listening,
  raises.
- Some corrupted or deleted states raise where one might expect `None`.
  mist.py's `MistDataFile.Read` adds a `None` piece to a string, and
  deleting a chunk whose file is gone raises in `os.remove`.
- A member server's `disconnect` handler calls `LeaveNetwork(local=True)`,
  but mist.py's `LeaveNetwork` takes no argument. The handler therefore
  raises a `TypeError`, and a disconnect request always fails.
- A member server's `delete` handler passes on what `DeleteDataFile`
  returns, which is nothing. A delete request therefore answers `None` in
  both revisions.

## Model

| member | source | states |
|---|---|---|
| `Common.PackU64` | mist_chunk.py:39 | `struct.pack("<Q", n)` gives 8 bytes, and unpacking them gives `n` back, for every `n` below 2^64 |
| `Common.UnpackU64` | mist_chunk.py:59 | `struct.unpack("<Q", b)` succeeds exactly when `b` has 8 bytes (otherwise `struct.error`); the value is below 2^64 and re-encodes to `b` |
| `Common.LittleEndianRoundTrip` | mist_chunk.py:39 | decoding the `width`-byte little-endian encoding of any `n < 256^width` gives `n` |
| `Common.LittleEndianOfDecoding` | mist_chunk.py:59 | the converse: encoding the decoded value of `b` in `\|b\|` bytes gives `b` |
| `Common.FromLittleEndianBound` | mist_chunk.py:59 | a decoded `k`-byte field is below 256^k |
| `Common.PadWithSpaces` | mist_chunk.py:42-43 | the padded length is the least multiple of 16 that is at least `\|data\|`; `data` is a prefix and every added byte is a space |
| `Common.AesDecrypt` | mist_chunk.py:64-67 | decryption succeeds exactly on a 16-byte IV and block-aligned input (pycrypto's `ValueError` otherwise) and then preserves length |
| `Common.EncryptThenDecrypt` | mist_chunk.py:42-44 | the ciphertext of the padded data has the padded length, and decrypting it gives the padded data |
| `Common.DecryptPaddedTruncates` | mist_chunk.py:67 | decrypting the padded ciphertext and truncating to the original length gives the original data |
| `Common.BytesLe` | mist_chunk.py:37-38 | `uuid.bytes_le` has 16 bytes, and `uuid.UUID(bytes_le=...)` on them gives the same uuid |
| `Common.UuidFromBytesLe` | mist_chunk.py:49 | `uuid.UUID(bytes_le=b)` succeeds exactly when `b` has 16 bytes |
| `Common.BytesLeOfParsed` | mist_chunk.py:54-55 | the uuid parsed from 16 bytes re-encodes to those bytes, so comparing uuids compares header bytes |
| `Common.BytesLeInjective` | mist_chunk.py:50 | different uuids have different `bytes_le`, so a header written for another uuid is rejected |
| `Common.UuidString` | mist_chunk.py:28 | `str(uuid)` has 36 characters |
| `Common.Basename` | files.py:24 | `ntpath.basename`: a suffix of the path with no `/` or `\`, preceded by a separator or by the drive. A drive letter prefix `X:` is never part of the name, and a path that is only a UNC drive `\\host\share` has the empty name |
| `Common.BasenameDropsDrive` | files.py:24 | `ntpath.basename("C:ab")` is `"ab"` |
| `Common.BasenameOfUncDrive` | files.py:24 | `ntpath.basename("//h/s")` is `""` |
| `Base64.Sextet` | mist_network_member.py:67 | decoding a character of the alphabet gives the 6-bit value that encodes to it |
| `Base64.EncodeBlocks` | mist_network_member.py:34 | the encoded groups are a multiple of 4 characters, each a letter of the alphabet or `=` |
| `Base64.SignificantOfEncodeString` | mist_network_member.py:67 | the decoder drops the line breaks the encoder adds after every 57 bytes and is left with the bare groups |
| `Base64.DecodeString` | mist_network_member.py:67 | `s.decode("base64")` on the `unicode` text of a JSON-RPC call raises whenever `s` has a character beyond ASCII |
| `Base64.DecodeEncodeBlocks` | mist_network_member.py:67 | decoding the groups of `b`, padded groups included, gives `b`. When the last group is padded, any significant text after it is ignored |
| `Base64.LeadingPadSkipped` | mist.py:145 | `binascii` skips a `=` at the start of a group, so `"=" + encoding` still decodes to the bytes |
| `Base64.TextAfterPaddingIgnored` | mist.py:145 | the pad sequence ends the input: a second encoding written after a padded one is ignored, not refused |
| `Base64.TruncatedGroupRaises` | mist.py:145 | letters that stop inside a group with no padding raise `binascii.Error` |
| `Base64.RoundTrip` | mist_network_member.py:34 | `data.encode("base64").decode("base64") == data` for all bytes |
| `Storage.NetworkClient.StoreDataOnNetwork` | data_files.py:28-29 | the payload is stored under the fresh key, and that key is returned |
| `Storage.NetworkClient.RetrieveDataOnNetwork` | data_files.py:38-39 | the payload stored under the key, or `None` when there is none |
| `Storage.NetworkClient.DeleteDataOnNetwork` | data_files.py:47-48 | the key is removed; the result is taken to say whether it was there (see "Left out") |
| `Split.SlicesConcat` | data_files.py:88-92 | the slices `data[i:i+step]` for `i = 0, step, ...`, joined in order, give the data |
| `Split.SlicesSizes` | data_files.py:88-89 | every slice but the last has exactly `step` bytes, the last has 1 to `step` bytes, and empty data gives no slices |
| `Split.SlicesTotal` | data_files.py:93 | the slice sizes (the running `tmp_size`) add up to the data's length |
| `Split.PieceSize` | data_files.py:76-79 | the piece-size policy always gives a positive step, so the `xrange` loop advances |
| `Split.PieceSizeBound` | data_files.py:76-88 | with that policy a payload is never cut into more than `MAX_DATA_FILE_SPLIT_NUM + 1` = 11 pieces |
| `Split.TenthStep` | mist.py:178 | mist.py's step `len(data)/10` is positive for every payload it is used on |
| `Split.TenthStepBound` | mist.py:176-183 | a payload over 512000 bytes cut by that step gives 10 or 11 pieces |
| `MistChunk.ReadChunkFile` | mist_chunk.py:46-69 | raises when the chunk was deleted (path `None`) and gives `None` when its file is absent. Data is returned only when: the file holds a 56-byte header; the file uid and the chunk uid match; under mist_chunk.py the size matches (mist.py:50-70 has no size check); and the data is no longer than the recorded size |
| `MistChunk.ParsedHeader` | mist_chunk.py:47-62 | the same header conditions hold whenever parsing a chunk file returns data |
| `MistChunk.PaddedFits` | mist_chunk.py:65 | the padded ciphertext of at most `CHUNK_SIZE` bytes fits in the single `read(CHUNK_SIZE)` |
| `MistChunk.EncodedFields` | mist_chunk.py:36-44 | a written chunk file is file uid (16) ‖ chunk uid (16) ‖ `<Q` size (8) ‖ IV (16) ‖ ciphertext of the space-padded data |
| `MistChunk.ParseEncoded` | mist_chunk.py:47-67 | any file with that layout reads back as the data |
| `MistChunk.WriteThenRead` | mist_chunk.py:31-67 | after writing a chunk, reading it with the same uids and size gives the original bytes (`CHUNK_SIZE` is a multiple of 16) |
| `MistChunk.ChunkSizesAligned` | mist_chunk.py:18 | both chunk sizes, 5120000 and mist.py's 512000, are multiples of 16 |
| `MistChunk.Chunk.constructor` | mist_chunk.py:24-29 | the chunk records the file uid, its fresh uid, the size and the path `<root>/<folder>/<uid>.mist`, and its encoded file is on disk |
| `MistChunk.Chunk.WriteToPath` | mist_chunk.py:31-44 | `size` becomes `len(data)`, and the path now holds the encoded chunk file; nothing else changes |
| `MistChunk.Chunk.Read` | mist_chunk.py:46-69 | the result is what the chunk's fields read from the disk |
| `MistChunk.Chunk.Delete` | mist_chunk.py:71-76 | a chunk whose file is gone raises and changes nothing. Otherwise the file is removed, the uids and the path are cleared, and the result is `True` (mist.py's `Delete` returns nothing) |
| `Files.ParseFrame` | files.py:50-64 | returned data has exactly the recorded size, and the frame's 8-byte header holds that size |
| `Files.ParseFrameEarly` | mist_file.py:45-58 | mist_file.py returns data only when the header holds the recorded size and at least that many ciphertext bytes follow the IV |
| `Files.FrameFields` | files.py:36-40 | the frame is `<Q` size ‖ IV ‖ ciphertext of the space-padded data |
| `Files.FrameRoundTrip` | files.py:29-64 | reading a written frame gives the original bytes, in both revisions |
| `Files.RevisionsAgree` | mist_file.py:47-58 | data from the earlier revision has the recorded size. The two revisions agree, except that the earlier one returns `None` on a short ciphertext where the later one raises |
| `Files.MistFile.constructor` | files.py:21-42 | records the basename and the size, and stores the frame of the file's bytes under a fresh network key |
| `Files.MistFile.Read` | files.py:44-67 | an invalidated file reads as `None`. Otherwise the result is the parsed frame, or `None` when the network read timed out or found nothing |
| `Files.MistFile.Delete` | files.py:69-78 | deleting twice succeeds. A failed inner delete returns `False` and changes nothing. Success clears uid, filename and data file, and removes exactly the frame's key |
| `DataFiles.NetworkShard.constructor` | data_files.py:17-30 | the size is `len(data)`, and the piece is stored under a fresh key with `_data` cleared |
| `DataFiles.NetworkShard.StoreOnNetwork` | data_files.py:26-30 | with a `data_uid` already set, nothing changes. Otherwise the piece is stored under the fresh key and `_data` is cleared |
| `DataFiles.NetworkShard.Read` | data_files.py:32-39 | `None` on a timed-out join; otherwise what the network holds under the shard's key |
| `DataFiles.NetworkShard.Delete` | data_files.py:41-48 | succeeds exactly when the join did not time out and the key is held; only that key is removed |
| `DataFiles.ReadShards` | data_files.py:106-112 | a joined result is as long as the shards' recorded sizes together |
| `DataFiles.ShardReads` | data_files.py:107 | one read per shard, in order, each the data its intact shard returns |
| `DataFiles.ReadShardsIntact` | data_files.py:106-112 | when every shard returns data of its recorded size, the loop returns those reads joined in order |
| `DataFiles.ReadShardsBroken` | data_files.py:106-111 | otherwise the first shard that is not intact decides the result. Its exception propagates; if it returned `None` or data of the wrong length, the result is `None` |
| `DataFiles.ReadShardsNone` | data_files.py:106-112 | when no shard read raises, the loop returns `None` exactly when some shard is not intact, and otherwise the joined reads |
| `DataFiles.ReadDataFileIntact` | data_files.py:99-117 | a live file with every shard intact reads as the joined shard reads. data_files.py returns `None` when the sizes do not add up to `self.size` |
| `DataFiles.ReadDataFileBroken` | data_files.py:99-111 | a live file with a shard that is not intact reads as `None`, or raises when the first such shard's read raised |
| `DataFiles.ReadPieces` | data_files.py:106-112 | shards that hold the pieces read as the pieces' concatenation |
| `DataFiles.PiecesTotal` | data_files.py:93 | the recorded shard sizes add up to the pieces' total size |
| `DataFiles.ReadDataFile` | data_files.py:99-119 | data is returned only for a valid uid, an untimed-out join and an intact shard list. Its length is the sum of the shard sizes and, in data_files.py, equal to `self.size` |
| `DataFiles.RevisionsReadAlike` | mist_data_files.py:94-108 | when the shard sizes add up to the recorded size, the total-size check of data_files.py never changes the result |
| `DataFiles.DeleteOnlyRemoves` | data_files.py:121-135 | deleting shards only removes chunk files and network keys |
| `DataFiles.DeleteAllLeavesNothing` | data_files.py:127-131 | a delete that succeeds leaves no shard's file or key behind |
| `DataFiles.DeleteStopsAtFirstFailure` | data_files.py:127-131 | a delete that fails stopped at some shard `k`: every earlier shard is gone, and shard `k`'s outcome is the result |
| `DataFiles.DataFile.constructor` | data_files.py:70-97 | the step follows the piece-size policy, there are at most 11 shards, and the sizes add up. A large payload's shards hold its slices under fresh keys, and the network gains exactly those keys with those slices while every earlier object is kept. A small payload is one local chunk, and the disk changes only at its path. Reading gives the payload back |
| `DataFiles.DataFile.SplitFileIntoChunks` | data_files.py:84-97 | the same outcome for the split itself, by payload size, including the exact new disk and network contents |
| `DataFiles.DataFile.StoreLocally` | data_files.py:94-97 | exactly one local chunk is written, `_data` becomes `None`, and reading it gives the payload |
| `DataFiles.DataFile.SplitAcrossNetwork` | data_files.py:85-93 | `_data` ends empty; the shards hold the slices in order under the first fresh keys; the network is the old one plus exactly those slices under those keys; reading them gives the payload |
| `DataFiles.DataFile.SplitStep` | data_files.py:88-93 | one iteration stores the next slice, shrinks `_data` by one step and advances `i` |
| `DataFiles.DataFile.StorePiece` | data_files.py:89-92 | `_data` drops one step, and one network shard with the piece's size and key is appended |
| `DataFiles.DataFile.Read` | data_files.py:99-119 | the result is `ReadDataFile` of the file's uid, shard states and size |
| `DataFiles.DataFile.Delete` | data_files.py:121-135 | a timed-out join returns `False` with nothing deleted. Otherwise the shards are deleted in order as `DeleteShards` says. Only full success clears uid, address and chunk list |
| `DataFiles.ReadInOrder` | data_files.py:106-112 | the loop over the shards computes `ReadShards` of their states |
| `DataFiles.DeleteInOrder` | data_files.py:127-131 | the loop over the shards computes `DeleteShards` of their states |
| `MistNetworkMember.DecodeWith` | mist_network_member.py:66-67 | `"ascii"` decoding keeps one byte per character |
| `MistNetworkMember.RetrieveReplyFor` | mist_network_member.py:71-76 | the reply is an `error_message` exactly when the local store has nothing, and data is tagged `"base64"` |
| `MistNetworkMember.ClientRetrieve` | mist_network_member.py:41-45 | an `error_message` reply becomes `None`, and a decoded data reply is some bytes |
| `MistNetworkMember.StoreRoundTrip` | mist_network_member.py:66-67 | the peer decodes a base64-encoded store to exactly the sent bytes |
| `MistNetworkMember.RetrieveRoundTrip` | mist_network_member.py:71-76 | reply then client decode gives back exactly what the peer holds, `None` included |
| `MistNetworkMember.PeerServer.StoreData` | mist_network_member.py:101-102 | the data is stored under a fresh uid, and that uid is returned |
| `MistNetworkMember.PeerServer.RetrieveData` | mist_network_member.py:104-105 | the stored data, or `None` for an unknown uid |
| `MistNetworkMember.PeerServer.DeleteData` | mist_network_member.py:107-108 | the uid is no longer stored, every other data file is kept, and nothing is answered (mist.py:345-349 returns `None`) |
| `MistNetworkMember.PeerServer.HandleStore` | mist_network_member.py:65-68 | a payload that does not decode raises and stores nothing; otherwise the decoded bytes are stored under the returned fresh uid |
| `MistNetworkMember.PeerServer.HandleRetrieve` | mist_network_member.py:70-76 | the reply is `RetrieveReplyFor` of what the peer holds |
| `MistNetworkMember.PeerServer.HandleDisconnect` | mist_network_member.py:82-84 | raises: `LeaveNetwork(local=True)` (mist_network_member.py:110-111) does not match mist.py:325's `LeaveNetwork(self)` |
| `MistNetworkMember.Member.constructor` | mist_network_member.py:14-19 | a new member is active at the address, with one `Activated` history entry |
| `MistNetworkMember.Member.Activate` | mist_network_member.py:21-24 | sets the address and `active`, and appends exactly one history entry |
| `MistNetworkMember.Member.Deactivate` | mist_network_member.py:26-29 | clears the address and `active`, and appends exactly one history entry |
| `MistNetworkMember.Member.SendStoreRequest` | mist_network_member.py:31-35 | appends one entry. It raises exactly when the member has no address or no server listens there. Otherwise that server stores the bytes under the returned uid |
| `MistNetworkMember.Member.SendRetrieveRequest` | mist_network_member.py:37-45 | appends one entry. It raises under the same condition; otherwise the result is what the member's server holds, or `None` |
| `MistNetworkMember.Member.SendDeleteRequest` | mist_network_member.py:47-50 | appends one entry. It raises exactly when the member is unreachable; otherwise the member's server drops the uid and the answer is `None`, as in mist_network.py:45-48 |
| `MistNetworkMember.Member.SendDisconnectRequest` | mist_network_member.py:52-55 | appends one entry and always raises, since the server's handler fails; the member is unchanged otherwise |
| `MistNetworkMember.Member.ToString` | mist_network_member.py:57-61 | starts with the 36-character uid; an inactive member shows only that |
| `MistNetworkMember.ActiveShownByAt` | mist_network_member.py:57-61 | the rendering contains `@` exactly when the member is active |
| `MistNetwork.HandlerReply` | mist_network.py:120-133 | a routing error becomes an `error_message` naming the member; any other failure still propagates |
| `MistNetwork.NotConnectedNamesMember` | mist_network.py:203 | two routing messages are equal exactly when they name the same member |
| `MistNetwork.Directory.constructor` | mist_network.py:143-147 | both registries start empty; the servers of the network are given |
| `MistNetwork.Directory.ServerOf` | mist_network.py:35 | an RPC to a member reaches the server at that member's address, and none when the member is not active or nothing listens there |
| `MistNetwork.Directory.AddMember` | mist_network.py:169-179 | a known inactive uid is reactivated in place: it moves to the active map with one more history entry. Any other call adds a new member under a fresh uid, ignoring the uid supplied. Either way the member's address is the one registered and its RPCs reach the server there. The maps stay disjoint |
| `MistNetwork.Directory.DeleteMember` | mist_network.py:181-186 | an active member moves to the inactive map and is deactivated; any other uid changes nothing |
| `MistNetwork.Directory.GetRandomMember` | mist_network.py:188-189 | raises exactly when no member is active; otherwise returns the active member picked |
| `MistNetwork.Directory.ProcessStoreRequest` | mist_network.py:194-197 | raises with no active member or no server at the picked member's address. Otherwise the server at that address stores the data, and the pair (member, data uid) is returned |
| `MistNetwork.Directory.ProcessRetrieveRequest` | mist_network.py:199-203 | a uid not in the active map, inactive ones included, is a routing error. Otherwise the data the server at the owner's address holds is returned |
| `MistNetwork.Directory.ProcessDeleteRequest` | mist_network.py:205-209 | the same routing rule; the server at the owner's address drops the data uid, and no other server changes |
| `MistNetwork.Directory.RetrieveAfterStore` | mist_network.py:194-203 | the pair a store answers with, handed to the retrieve, finds exactly the stored bytes |
| `Mist.ParseText` | mist.py:141-153 | a missing text (the `response["data"]` lookup) never returns data |
| `Mist.TextRoundTrip` | mist.py:123-153 | the frame, base64-encoded for store and decoded and parsed on read, gives the original bytes |
| `Mist.NetworkDataFile.constructor` | mist.py:117-139 | the frame's base64 text is stored under the fresh key that the directory returns |
| `Mist.NetworkDataFile.Read` | mist.py:141-153 | the result parses what the directory holds under the key |
| `Mist.NetworkDataFile.Delete` | mist.py:155-159 | the key is removed, and an error reply is not raised |
| `Mist.MistFile.constructor` | mist.py:84-95 | records the basename and stores the file's text under a fresh key; reading it gives the file's bytes |
| `Mist.MistFile.Read` | mist.py:97-101 | `None` for an invalidated file; otherwise the network data file's read |
| `Mist.MistFile.Delete` | mist.py:103-109 | an invalidated file is left alone. Otherwise the key is released and uid, filename and data file are cleared |
| `Mist.ReadRaisesAtAPiece` | mist.py:188-193 | the joined read raises exactly when some piece's read raises (joining a `None` piece is a `TypeError`) |
| `Mist.ReadHeld` | mist.py:190-193 | pieces that hold the payloads read as their concatenation |
| `Mist.DeleteRemovesExactly` | mist.py:197-203 | a delete that completes removes exactly the pieces' paths and keys |
| `Mist.NetworkPiecesDelete` | mist.py:155-159 | deleting network pieces never raises |
| `Mist.ReadStored` | mist.py:180-183 | network pieces stored from the slices read as the payload |
| `Mist.ReadWritten` | mist.py:184-186 | a single local chunk reads as the payload |
| `Mist.DataFile.constructor` | mist.py:168-186 | a payload over 512000 bytes goes to the network as its tenth-size slices under fresh keys; a smaller one is one local chunk; either way reading gives the payload |
| `Mist.DataFile.StoreLocally` | mist.py:184-186 | exactly one chunk file is written, and reading it gives the payload |
| `Mist.DataFile.SplitAcrossNetwork` | mist.py:176-183 | one network piece per slice, in order, under the first fresh keys; reading them gives the payload |
| `Mist.DataFile.SplitStep` | mist.py:180-183 | one iteration stores the next slice and advances `i` |
| `Mist.DataFile.Read` | mist.py:188-195 | `None` for an invalidated file; otherwise the joined read of its pieces |
| `Mist.DataFile.Delete` | mist.py:197-203 | the pieces are deleted in order as `DeletePieces` says, and completion clears uid, address and chunk list |
| `Mist.ReadInOrder` | mist.py:190-193 | the loop computes `ReadPieces` of the pieces' states |
| `Mist.DeleteInOrder` | mist.py:198-200 | the loop computes `DeletePieces` of the pieces' states |
| `Mist.ReadAgrees` | mist.py:188-193 | reading a data file's pieces depends only on the files at their chunk paths and the texts under their keys: two disks and networks that agree there give the same result |
| `Mist.DeleteAgrees` | mist.py:197-200 | deleting the pieces, completely or up to the first raise, leaves every file outside their chunk paths and every text outside their keys as it was |
| `Mist.FileReadsBack` | mist.py:91-99 | a live file whose key holds the stored text reads as the file's bytes |
| `Mist.Mist.constructor` | mist.py:214-224 | both catalogs start empty, with no network address |
| `Mist.Mist.DeleteFile` | mist.py:294-298 | an absent path changes nothing; otherwise that entry is deleted (a live file's text leaves the network) and its path is dropped; every other path and every data file stays catalogued |
| `Mist.Mist.Insert` | mist.py:276 | a missing file raises `IOError`; otherwise the path maps to a fresh live file (new uid, basename) that reads back the disk contents, the network gains exactly its text, and every other path and every data file stays catalogued |
| `Mist.Mist.AddFile` | mist.py:268-277 | with `overwrite=False`, an existing path is left unchanged. Otherwise the old entry is deleted before a new live entry (new uid, basename) is inserted under the same key, and it reads back the disk contents |
| `Mist.Mist.ModifyFile` | mist.py:279-285 | an absent path changes nothing; otherwise the entry is deleted and re-created from the disk as a live entry (new uid, basename) that reads back the disk contents |
| `Mist.Mist.ReadFile` | mist.py:287-292 | `None` for an unknown path; otherwise that file's read |
| `Mist.Mist.StoreDataFile` | mist.py:333-337 | adds exactly one fresh key and returns it. Above 512000 bytes the disk is untouched and the network keeps every old text and gains one text per slice; otherwise the network is untouched and the disk changes only at the one chunk path. The new data file reads back as the data |
| `Mist.Mist.RetrieveDataFile` | mist.py:339-343 | `None` for an unknown uid; otherwise that data file's read |
| `Mist.Mist.DeleteDataFile` | mist.py:345-349 | an unknown uid changes nothing; otherwise the disk and network change as `DeleteOutcome` of the data file's pieces says, and the uid is dropped exactly when the delete does not raise; every file and every other data file stays catalogued |
| `MistWatchdog.Inner` | mist_watchdog.py:30 | reading a missing destination of the `defaultdict` gives an empty map |
| `MistWatchdog.KeyOf` | mist_watchdog.py:49-57 | a deletion arms `[None][p]`, a modification `[p][p]` and a creation `[p][None]` |
| `MistWatchdog.Arm` | mist_watchdog.py:50 | sets one counter to `MODIFYING_DELAY_COUNT` = 5 and changes no other counter |
| `MistWatchdog.Announce` | mist_watchdog.py:51-58 | deletions and creations emit an event in the same poll; modifications emit nothing |
| `MistWatchdog.Reset` | mist_watchdog.py:63-64 | same sources, every counter back at 5 |
| `MistWatchdog.Move` | mist_watchdog.py:61-64 | src's counters move to dest, overwriting dest, all reset to 5, and src is removed (a move onto itself leaves the entry empty) |
| `MistWatchdog.Fired` | mist_watchdog.py:73-79 | an expired counter emits `Deleted(src)` then `Created(dest)` when both are set, otherwise the one that is set |
| `MistWatchdog.Entries` | mist_watchdog.py:69-70 | the pairs the nested loops visit are exactly the counters in the map |
| `MistWatchdog.ArmPathsSets` | mist_watchdog.py:49-57 | after arming, every listed path's counter is 5 and every earlier counter is still there |
| `MistWatchdog.ArmedBetween` | mist_watchdog.py:49-64 | arming and moving keep every counter between 1 and 5 |
| `MistWatchdog.TickedBetween` | mist_watchdog.py:67-83 | after a countdown every remaining counter lies between 1 and 4 |
| `MistWatchdog.ModificationsAreSilent` | mist_watchdog.py:53-54 | modified files emit nothing in the poll that sees them |
| `MistWatchdog.CountdownTicks` | mist_watchdog.py:67-83 | decrementing everything and then deleting the pairs that reached 0 is one tick of the countdown map |
| `MistWatchdog.PollingEmitter.constructor` | mist_watchdog.py:28-30 | no counters and no queued events |
| `MistWatchdog.PollingEmitter.QueueEvents` | mist_watchdog.py:32-93 | a stopped emitter changes nothing. Otherwise the counters are armed from the diff and ticked once, in some enumeration order. The queue gains the immediate file events, the expired counters' events, then the directory events. Counters in 1..4 before a poll stay in 1..4 |
| `MistWatchdog.PollingEmitter.ArmFileChanges` | mist_watchdog.py:48-65 | the four file loops arm the counters as `Armed` says and queue the immediate events |
| `MistWatchdog.PollingEmitter.MarkFiles` | mist_watchdog.py:49-58 | one of the deleted/modified/created loops |
| `MistWatchdog.PollingEmitter.MarkMoves` | mist_watchdog.py:60-65 | the move loop applies `Move` per pair and queues one moved event each |
| `MistWatchdog.PollingEmitter.MoveOne` | mist_watchdog.py:61-65 | one move, as `Move` says |
| `MistWatchdog.PollingEmitter.Countdown` | mist_watchdog.py:67-83 | one tick of every counter; the queue gains the expired counters' events in the order visited |
| `MistWatchdog.PollingEmitter.Decrement` | mist_watchdog.py:69-80 | every counter drops by exactly 1; the deletion list is the pairs that reached 0, in visiting order |
| `MistWatchdog.PollingEmitter.DecrementEntry` | mist_watchdog.py:71-80 | one counter drops by 1, and it fires exactly when it was 1 |
| `MistWatchdog.PollingEmitter.RemoveExpired` | mist_watchdog.py:82-83 | exactly the listed pairs are removed; destinations stay, even when emptied |
| `MistWatchdog.PollingEmitter.QueueDirEvents` | mist_watchdog.py:86-93 | the directory events are queued after the file events, with counters unchanged |
| `MistWatchdog.ResetAll` | mist_watchdog.py:63-64 | the loop over dest's sources computes `Reset` |
| `MistWatchdog.DirEvents` | mist_watchdog.py:86-93 | one directory event per reported directory change |
| `MistWatchdog.PathJoin` | mist_watchdog.py:124 | `os.path.join` adds a `/` only when the root does not end in one |
| `MistWatchdog.CommonPrefix` | mist_watchdog.py:126 | `os.path.commonprefix` of two paths is a prefix of both and stops at their first difference |
| `MistWatchdog.CommonPrefixIsPrefix` | mist_watchdog.py:126 | the common prefix equals the folder path exactly when the folder path is a character-wise prefix of the event path |
| `MistWatchdog.IgnoredPaths` | mist_watchdog.py:108-130 | an event is dropped exactly when `<root>/chunks` is a character-wise prefix of its path (so `chunks2/...` too) or its path is `<root>/index` |
| `MistWatchdog.Dispatch` | mist_watchdog.py:122-132 | a dropped event makes no catalog call |
| `MistWatchdog.DispatchCalls` | mist_watchdog.py:134-175 | the routing of events that are not dropped: a move calls `DeleteFile(src)` then `AddFile(dest)`; a creation calls `AddFile(p, False)`; a deletion calls `DeleteFile`; a modification calls `ModifyFile`; directory events call nothing |
| `Prototype.ChunkPath` | main.py:16 | the piece path is `<folder>/<uid>.mist` |
| `Prototype.ReadChunk` | main.py:23-26 | reading an absent piece file raises `IOError` |
| `Prototype.WrittenAt` | main.py:19-21 | with distinct paths, each path holds the encryption of its own piece |
| `Prototype.WrittenKeeps` | main.py:14-21 | writing under paths not yet on disk adds exactly those paths and leaves every existing file unchanged |
| `Prototype.ReadAllRaised` | main.py:47-51 | once a piece read fails, the whole read fails |
| `Prototype.ReadWritten` | main.py:47-51 | paths that hold the pieces' encryptions read as the pieces joined |
| `Prototype.SplitReadsBack` | main.py:39-51 | writing a file's 50-byte slices and reading them back gives the file |
| `Prototype.ReadingStep` | main.py:41-45 | a non-empty `f.read(50)` is the next slice, and the next read starts where it ended |
| `Prototype.ReadingDone` | main.py:42 | the loop ends on an empty read with every slice read |
| `Prototype.Chunk.constructor` | main.py:14-21 | the piece gets the path of its fresh uid, and the disk gains the encryption of the data there |
| `Prototype.Chunk.Read` | main.py:23-26 | the result is `ReadChunk` of the piece's path |
| `Prototype.File.constructor` | main.py:34-37 | the name is the basename; the pieces are the 50-byte slices under the fresh uids' paths; reading gives the file's bytes |
| `Prototype.File.SplitFileIntoChunks` | main.py:39-45 | one piece per slice, in order, under the fresh uids' paths; the disk gains exactly their encryptions |
| `Prototype.File.AppendChunk` | main.py:43-44 | one piece is written and appended to the list |
| `Prototype.File.Read` | main.py:47-51 | the loop computes `ReadAll` of the pieces' paths |
| `Prototype.Catalog.constructor` | main.py:57-58 | the catalog starts empty |
| `Prototype.Catalog.AddFile` | main.py:60-61 | raises `IOError` exactly when the file is missing, and then changes nothing. Otherwise the entry is replaced by a fresh file that reads back as the file. The disk gains exactly the encrypted slices under the pieces' new paths, and every file already on disk, old pieces included, keeps its contents |
| `Prototype.Catalog.ReadFile` | main.py:63-68 | `None` for an unknown path; otherwise the file's read, with its failures |

## Left out

- Files.MistFile.constructor: requires the file to exist on disk. files.py's `open` raises `IOError` for a missing file, and no caller in files.py handles it; a Dafny constructor cannot return `Raised`. mist.py and main.py, whose callers do handle it, model the missing file as `Raised`.

- Cryptography is an oracle. AES-CBC and simplecrypt are foreign calls. The model assumes only length preservation and that decryption inverts encryption. simplecrypt's random salt and its authentication failure are folded into the `Sealer` functions.
- Random IVs, `uuid.uuid4()` and the directory's random choice of member are inputs, with freshness stated as a `requires`.
- Threads and timeouts are not modelled as concurrency. A creation thread runs to completion inside its constructor. A join that times out is the `timedOut` argument, and a store thread still running is the `stalled` set. `__getstate__`/`__setstate__` thread restarts are not modelled.
- Pickling is not modelled: `_RewriteMistIndexFile`, `_RewriteNetworkStateFile` and `_LoadMist*` are persistence I/O.
- `Storage.NetworkClient.DeleteDataOnNetwork`: the `network` module whose client data_files.py calls is not part of this model. That the delete answers true exactly when the key was present is an assumption. data_files.py:127-131 branches on this answer, so `DataFiles.DataFile.Delete` and `DataFiles.DeleteStopsAtFirstFailure` rest on it. The directory client in mist_network.py:57-58 and its `delete` handler (mist_network.py:128-133) answer nothing on success.
- `MistNetworkMember.PeerServer`: the member server's `Mist` is reduced to its data files as payloads by uid. A peer's retrieve and delete therefore never raise. In mist.py, reading a data file can raise (mist.py:188-193). Deleting one can raise `OSError`: `DeleteData` calls mist.py:345-349, which calls `MistDataFile.Delete` (mist.py:197-199), which calls `os.remove` (mist.py:73). Modelling this would make the peer a whole `Mist.Mist` with its disk and network.
- The JSON-RPC transport and the HTTP servers are not modelled: `pyjsonrpc`, `serve_forever`, `Start`/`Stop`. A member talks directly to the `PeerServer` listening at its address; the directory holds those servers by address. The directory's client is the `NetworkClient`/`TextNetwork` key-value store, where a store always succeeds. So the directory's raise when no member is connected (mist_network.py:188-197) never reaches data-file creation in this model. A delete that fails on the member is not raised either. The directory's `delete` handler (mist_network.py:128-133) catches only `MistNetworkError`, so such an error reaches mist.py:157 as a JSON-RPC error. In the model the directory's delete always succeeds.
- `Mist.NetworkDataFile.Delete` and `Mist.NetworkPiecesDelete`: a network piece's delete never raises in the model. mist.py:157-159 prints an `error_message` reply. But a member's `OSError` is not caught by the directory (mist_network.py:128-133), and the JSON-RPC client at mist.py:157 then raises. The transport is not modelled (see above).
- `DeleteFile`, `Insert`, `AddFile` and `ModifyFile` of `Mist.Mist` do not promise that the other catalog entries read back as before. They only keep those entries in the catalog. Nothing in `Mist.Mist.Valid` keeps entries apart. Two paths may share a `MistFile` object or a network key. A file's key may be a data file's piece key. In mist.py, fresh uuid4 keys keep entries apart. Stating that as an invariant of the catalog makes these methods' proofs too costly for the verifier.
- `DeleteDataFile` of `Mist.Mist` does not promise that the files and the other data files read back as before, for the same reason. A data file's chunk path or piece key may be another entry's. `Mist.DeleteAgrees` and `Mist.ReadAgrees` show what follows when they are apart. A delete changes nothing outside the deleted pieces' paths and keys, and a read sees nothing else. So an entry whose paths and keys are apart from the deleted pieces reads back as before.
- `StoreDataFile` of `Mist.Mist` does not promise that the files and the other data files read back as before. Nothing requires the new chunk path to be unused. Above 512000 bytes the disk is untouched and only fresh keys are added, which the contract states.
- `Mist.JoinNetwork`, `Mist.LeaveNetwork`, `ExportFile`, `List`, `CreateIfDoesNotExist` and the `main()` loops are left out. They are network session set-up, printing and command-line I/O.
- The watchdog library is not modelled. `DirectorySnapshotDiff` is the `SnapshotDiff` input. `PatternMatchingEventHandler`'s `*/.DS_Store` ignore pattern is not modelled. The handlers' printing is left out. `Dispatch` returns the catalog calls as a list instead of making them on a `Mist.Mist` object.
- `stopped_event.wait` and `should_keep_running` are collapsed into one `stopped` argument.
- The nested countdown loops are modelled as one loop over the set of (destination, source) pairs. The model does not fix Python's dictionary iteration order; it proves that the ghost `visited` sequence enumerates every pair once.
- Python's `len(data)` is assumed below 2^64 wherever `struct.pack("<Q")` is applied to it.
- The prototype reads the file's contents once, at open. The 50-byte reads are slices of those bytes. The `chunks` folder is assumed to exist.
- refresh.py and refresh_mist.py are cleanup scripts with no state of their own. They are not part of this model.
- Logging and printing are left out.
