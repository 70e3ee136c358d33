# A Dafny model of the torrent engine

The project models the parts of the torrent library whose correctness rests on
arithmetic, byte layout or state: the bencode codec and `.torrent` files (BEP 3,
BEP 12), piece hashing, storage over many files, the uTP transport (BEP 29), the
Kademlia routing table (BEP 5, BEP 32), choking, the connection pool, super seeding
(BEP 16) and magnet URIs (BEP 9). Run `dafny verify dfyconfig.toml` to check it.

## How it is built

Functions give the meaning of each operation. Where the library computes in a loop or
changes an object, a method or a class with the same loop and the same fields is proved
equal to that function, and the theorems are about the functions. Files named
`...Theorems`, `...Runs`, `...Delivery`, `BencodeCanonical` and `StoredPieces` hold the results; the others hold the model.

| files | library code |
|---|---|
| `Bencode`, `BencodeTheorems`, `BencodeCanonical`, `Decimal`, `Utf8`, `StableSort` | bencode decoder and printer |
| `Metainfo`, `MetainfoTheorems`, `Builder`, `BuilderTheorems` | `.torrent` parsing, printing, building |
| `Tiling`, `Bits`, `Pieces`, `Seed`, `Verify`, `Progress` | pieces, bitfields, hashing, checking, per-file progress |
| `Storage`, `StorageTheorems`, `StoredPieces` | one torrent in one file or over many |
| `Congestion`, `SelectiveAck`, `Utp`, `UtpTheorems`, `UtpRuns`, `UtpDelivery` | uTP |
| `Distance`, `Dht`, `DhtTheorems` | routing table |
| `Choke`, `UniDeques`, `PeerPool`, `PeerPoolRuns`, `SuperSeed` | session state machines |
| `Encodings`, `Magnet`, `MagnetTheorems` | magnet URIs |

Conventions. Strings are their UTF-8 bytes. 64-bit, 32-bit and 16-bit values are bounded
integers, and wrapping, saturating and truncating operations are written out. Times are
integers in nanoseconds passed to the operations. SHA-1 is a parameter, so every result
holds for any hash function. Random draws, hash-table orders and the outcome of socket
calls are parameters or free choices, so results hold for all of them. A uTP run is a
finite sequence of events at two endpoints: send, close, timer, read, and the arrival of
any packet the peer ever handed to the network, any number of times and in any order.

## What the code does differently from its documentation

The model follows the code.

- The bencode decoder accepts `i+5e` and unsorted dictionaries, so two inputs can decode
  to one value (`BencodeCanonical.PlusSignLost`); encoding gives the input back exactly
  when it has neither (`BencodeCanonical.EncodeDecodeExact`).
- The uTP SYN carries number 2, not 1 as the comment says, because the counter starts at 2.
- uTP senders wrap their sequence numbers, receivers compare them without wrapping, so a
  stream ends at number 65535 (`UtpTheorems.StallsAfterLastNumber`,
  `UtpDelivery.RunEndsAtLastNumber`).
- Both handshake paths take `ack_nr` from the first packet, so the payload of that packet
  is not delivered: neither the responder's first payload nor the initiator's ever is
  (`UtpDelivery.ResponderFirstPayloadSkipped`, `InitiatorFirstPayloadSkipped`).
- The n-th timeout in a row multiplies the current timeout by 2^min(n, 6), so six of them
  make 2^21; the comment speaks of doubling it (`Congestion.TimeoutsMultiply`).
- A byte range over several files stops at an empty file strictly inside the range and
  still reports success (`StorageTheorems.StopExact`, `EmptyFileDropsData`);
  writing all pieces restores the torrent exactly when no byte depends on what it drops
  (`StorageTheorems.WriteAllPieces`).
- A choke round sends Unchoke also to peers for which no slot was free
  (`Choke.ToldButRefused`, `RefusedExample`).
- The debug assertion on retried peers can fail when a peer is announced again while it
  is being connected (`PeerPoolRuns.RetryAssertionExact`).
- Parsing a magnet URI slices the text at byte 7 and panics when that is inside a
  character (`MagnetTheorems.PanicsExactly`).
- A selective ACK of 256 bytes or more serialises with a truncated length byte
  (`SelectiveAck.ExtensionBytesExact`).

## Model

| member | source | states |
|---|---|---|
| `BencodeTheorems.RoundTrip` | crates/torrent-core/src/bencode/decode.rs:39-187 | Decoding the encoding of any value, followed by any bytes, gives the value with every dictionary recursively sorted and exactly those bytes; a value in which some dictionary repeats a key is rejected instead. Byte strings are only asked to be shorter than 2^64 |
| `BencodeTheorems.DecodeLocal` | crates/torrent-core/src/bencode/decode.rs:39-187 | A successful decode depends only on the bytes it consumed: with anything else behind them it gives the same value and leaves exactly that |
| `BencodeTheorems.DecodeCanonical` | crates/torrent-core/src/bencode/decode.rs:129-187 | Whatever decodes has no repeated key at any level and fits the encoder, although unsorted input is accepted |
| `BencodeTheorems.DecodeEncodeDecode` | crates/torrent-core/src/bencode/encode.rs:27-79 | Encoding a decoded value and decoding again gives the same value and no rest, for every accepted input |
| `BencodeTheorems.EncodeCanon` | crates/torrent-core/src/bencode/encode.rs:64-79 | The printer's output is the canonical form: a value and its recursively sorted form print to the same bytes |
| `BencodeCanonical.EncodeDecodeExact` | crates/torrent-core/src/bencode/decode.rs:39-187 | For every accepted input, encoding the decoded value gives the consumed bytes back if and only if no integer in them, at any level, has a plus sign and the keys of every dictionary rise strictly in the bytes |
| `BencodeCanonical.PlusSignLost` | crates/torrent-core/src/bencode/decode.rs:85-124 | Two inputs with one value: `i+5e` and `i5e` |
| `BencodeCanonical.BodyPrints` | crates/torrent-core/src/bencode/decode.rs:94-123 | What the integer checks accept is printed back exactly as it was, unless it starts with a plus sign |
| `BencodeCanonical.StringExact` | crates/torrent-core/src/bencode/decode.rs:56-80 | Every accepted byte string, length prefix included, is printed back as it was |
| `BencodeCanonical.EntriesOfEncoded` | crates/torrent-core/src/bencode/encode.rs:64-79 | Printed entries are read back in the order in which they were printed |
| `BencodeTheorems.EntriesRoundTrip` | crates/torrent-core/src/bencode/decode.rs:151-187 | The entry loop reads back any printed entry list behind the keys already seen, and stops with a syntax error exactly when a key repeats |
| `BencodeTheorems.ItemsRoundTrip` | crates/torrent-core/src/bencode/decode.rs:129-144 | The item loop reads back any printed item list up to the end mark |
| `BencodeTheorems.IntegerRoundTrip` | crates/torrent-core/src/bencode/decode.rs:85-124 | Every 64-bit integer, minimum included, is read back from its printed form, past the leading-zero and minus-zero checks |
| `BencodeTheorems.StringRoundTrip` | crates/torrent-core/src/bencode/decode.rs:56-80 | Every byte string is read back from its length-prefixed form, whatever bytes it holds |
| `Bencode.DecodeValue` | crates/torrent-core/src/bencode/decode.rs:39-51 | The dispatch on the first byte computes the decode function |
| `Bencode.ParseList` | crates/torrent-core/src/bencode/decode.rs:129-144 | The loop that pushes items until the end mark computes the recursive item parser |
| `Bencode.ParseDict` | crates/torrent-core/src/bencode/decode.rs:151-187 | The loop that pushes entries, rejecting keys that are not strings or already present, computes the recursive entry parser |
| `Bencode.EncodeValue` | crates/torrent-core/src/bencode/encode.rs:27-34 | The dispatching printer computes the encode function |
| `Bencode.EncodeList` | crates/torrent-core/src/bencode/encode.rs:54-62 | The buffer that items are appended to ends as the recursive list encoding |
| `Bencode.EncodeDict` | crates/torrent-core/src/bencode/encode.rs:64-79 | Sorting the entries and appending them to the buffer gives the recursive dictionary encoding |
| `Decimal.ParseDecimalU64` | crates/torrent-core/src/bencode/decode.rs:192-207 | The digit loop succeeds exactly on non-empty digit strings whose value fits in 64 bits and returns that value; the per-digit overflow test is neither early nor late |
| `Decimal.DecimalExact` | crates/torrent-core/src/bencode/decode.rs:192-207 | The same for the recursive form of the loop |
| `Decimal.PrintParse` | crates/torrent-core/src/bencode/encode.rs:36-52 | Printing and parsing a signed 64-bit number is the identity, also through the unsigned parsers when it is not negative |
| `Utf8.LossyExact` | crates/torrent-core/src/magnet/mod.rs:395-412 | Lossy decoding always yields valid UTF-8 and changes a byte string exactly when it is not valid UTF-8 |
| `StableSort.SortStable` | crates/torrent-core/src/bencode/encode.rs:64-79 | A stable sort keeps elements of equal rank in their original order; with sortedness and permutation this pins its result |
| `StableSort.SortSorted` | crates/torrent-core/src/bencode/encode.rs:64-79 | The sort's result is ordered for every total preorder |
| `StableSort.SortPermutes` | crates/torrent-core/src/bencode/encode.rs:64-79 | The sort's result has the same elements as often |
| `MetainfoTheorems.ScanAgrees` | crates/torrent-core/src/metainfo/parse.rs:12-49 | On every decodable dictionary the byte scan fails exactly when there is no `info` key; otherwise it returns one contiguous span of the file that decodes completely to the value the recursive parser has under `info` |
| `MetainfoTheorems.AcceptedInfo` | crates/torrent-core/src/metainfo/parse.rs:74-131 | Whenever a file is accepted, its raw info is such a span and the parsed info fields are those of that very span |
| `MetainfoTheorems.ScanContiguous` | crates/torrent-core/src/metainfo/parse.rs:12-49 | From any position the scan returns a slice of the file, not a rebuilt value |
| `MetainfoTheorems.PrintParse` | crates/torrent-core/src/metainfo/mod.rs:171-244 | For every torrent whose raw info decodes to its info fields, parsing the printed file gives it back with raw info and info hash unchanged; only empty announce tiers, web seeds and HTTP seeds are lost |
| `MetainfoTheorems.PrintParseExact` | crates/torrent-core/src/metainfo/mod.rs:171-244 | The printed file parses to the very same torrent if and only if the raw info matches the fields, no announce tier is empty and both seed lists are empty |
| `MetainfoTheorems.PrintedCanonical` | crates/torrent-core/src/metainfo/mod.rs:171-244 | Although `info` is spliced in last, the printed file is the canonical encoding of its whole root dictionary exactly when the raw info bytes are canonical |
| `MetainfoTheorems.LookupSort` | crates/torrent-core/src/metainfo/mod.rs:171-244 | Sorting the root entries changes no lookup, repeated keys included |
| `MetainfoTheorems.NonEmptyTiersExact` | crates/torrent-core/src/metainfo/parse.rs:219-241 | Dropping empty tiers changes an announce list exactly when it has one |
| `Metainfo.FindRawInfoBytes` | crates/torrent-core/src/metainfo/parse.rs:12-49 | The position loop computes the recursive scan over the remaining bytes |
| `Metainfo.ParseFilesList` | crates/torrent-core/src/metainfo/parse.rs:181-216 | The loop over file dictionaries computes the recursive file parser, error cases included |
| `Metainfo.ParseFileItem` | crates/torrent-core/src/metainfo/parse.rs:186-213 | One file entry: length and path, with the path loop as a fold |
| `Metainfo.ParseAnnounceList` | crates/torrent-core/src/metainfo/parse.rs:219-241 | The nested loops compute the tiers with non-strings skipped and empty tiers dropped |
| `Metainfo.PrintTorrent` | crates/torrent-core/src/metainfo/mod.rs:171-244 | The buffer with the spliced raw info equals the specified file, or nothing when only a hash is known |
| `BuilderTheorems.BuiltRoundTrip` | crates/torrent-core/src/metainfo/builder.rs:109-147 | A finished torrent prints as the canonical two-entry file, and parsing it gives the same torrent exactly when every file length fits a signed 64-bit integer, no path is empty and both seed lists are empty |
| `BuilderTheorems.ParseBuiltInfo` | crates/torrent-core/src/metainfo/builder.rs:168-209 | The info parser accepts the info dictionary that the builder makes exactly when every file length fits a signed 64-bit integer and no path is empty, and then returns the builder's hashes and mode |
| `BuilderTheorems.ChunksFlatten` | crates/torrent-core/src/metainfo/builder.rs:168-209 | Cutting the joined piece hashes into 20-byte chunks gives the hashes back |
| `Builder.MetainfoBuilder.AddData` | crates/torrent-core/src/metainfo/builder.rs:84-95 | However data is split over calls, the builder holds exactly the concatenation: a hash per full piece and the unfinished rest |
| `Builder.MetainfoBuilder.Finish` | crates/torrent-core/src/metainfo/builder.rs:109-147 | The torrent's piece hashes are those of the consecutive pieces of everything fed, their number is the total divided by the piece length rounded up |
| `Builder.HashesPrefix` | crates/torrent-core/src/metainfo/builder.rs:84-95 | Hashes of full pieces do not change when more data arrives |
| `Builder.AllPieces` | crates/torrent-core/src/metainfo/builder.rs:109-147 | Full pieces plus a possible rest make exactly the rounded-up quotient |
| `Tiling.PieceInside` | crates/torrent/src/storage/file_backend.rs:128-144 | Every index below the rounded-up quotient starts inside the torrent and has the length of what is left, at least 1 and at most a piece |
| `Tiling.CeilUnique` | crates/torrent-core/src/metainfo/builder.rs:109-121 | The rounded-up quotient is the only piece count whose pieces cover the data without an empty one; full pieces and a hash for a non-empty rest make that count |
| `Tiling.ByteInPiece` | crates/torrent/src/storage/file_backend.rs:128-130 | A byte lies in piece `i` exactly when its position divided by the piece length is `i` |
| `Pieces.MissingExact` | crates/torrent-core/src/piece/manager.rs:76-83 | The missing pieces are exactly the unset indices, in rising order |
| `Pieces.PieceManager.SetPiece` | crates/torrent-core/src/piece/manager.rs:38-50 | Sets that piece and no other; out-of-range indices are ignored |
| `Pieces.PieceManager.ToBitfield` | crates/torrent-core/src/piece/manager.rs:100-111 | The message has one byte per eight pieces rounded up, bit by bit the bitfield, with clear padding |
| `Bits.BitUpdate` | crates/torrent-core/src/piece/manager.rs:100-111 | Setting or clearing one bit of a byte changes no other |
| `Seed.HashSource` | crates/torrent/src/session/seed/hash.rs:30-53 | When the read loop ends, the builder was fed exactly the source's content in order; it errs only if some read makes no progress |
| `Seed.SourceStorage.ReadPiece` | crates/torrent/src/session/seed/storage.rs:85-96 | Fills the front of the buffer with the piece's bytes and touches nothing behind it |
| `Verify.VerifyExisting` | crates/torrent/src/session/seed/verify.rs:17-44 | For any storage, with a buffer that keeps what a read does not fill: marks exactly the pieces that are read and hash to the torrent's value, keeps earlier marks, counts the matches, and ends at the first failing read with its error |
| `Seed.HashedVerifies` | crates/torrent/src/session/seed/verify.rs:17-44 | For a source that returns the bytes it is asked for, every piece of the torrent made from it passes the check, the short last one included |
| `Verify.NothingMissing` | crates/torrent-core/src/piece/manager.rs:76-83 | No piece is missing exactly when all are set |
| `Verify.CountedOrMissing` | crates/torrent/src/session/seed/verify.rs:17-44 | After a check into an empty bitfield, every piece is either counted or missing |
| `Verify.HoldingMatches` | crates/torrent/src/session/seed/verify.rs:17-44 | Any storage that puts the pieces of some content into the buffer passes the check against the hashes of that content, whatever was in the buffer before |
| `Seed.HashAndVerify` | crates/torrent/src/session/mod.rs:351-360 | Hashing a source, finishing the torrent and checking the source against it: the pieces are the hashes of the source's content, verified and missing add up, and a source that returns the bytes it is asked for ends with no piece missing |
| `StoredPieces.WrittenVerifies` | crates/torrent/src/session/seed/verify.rs:17-44 | After all pieces were written to one or many files, in any order, the file storage passes the check of every piece if no empty file lies strictly inside a piece |
| `Progress.FileOffsets` | crates/torrent-core/src/metainfo/mod.rs:282-307 | The running offset computes the file offsets |
| `Progress.FilesTile` | crates/torrent-core/src/metainfo/mod.rs:282-307 | The files lie end to end from 0 to the total size |
| `Progress.ComputeFileStatus` | crates/torrent-core/src/metainfo/mod.rs:321-373 | Despite both early exits the nested loops give each file exactly the number of its bytes that lie in completed pieces, and that number divided by its length |
| `Progress.AddPiece` | crates/torrent-core/src/metainfo/mod.rs:335-362 | One completed piece adds to every file exactly the overlap, whatever file the search stops at |
| `Progress.StatusConserves` | crates/torrent-core/src/metainfo/mod.rs:321-373 | The sum over files equals the sum of completed pieces clipped to the total size: no byte is counted twice or lost |
| `Progress.CountBound` | crates/torrent-core/src/metainfo/mod.rs:321-373 | No file shows more than its length |
| `Progress.CountGrows` | crates/torrent-core/src/metainfo/mod.rs:321-373 | Completing a piece never lowers a file |
| `Progress.AllComplete` | crates/torrent-core/src/metainfo/mod.rs:321-373 | With all pieces complete every range is full |
| `Progress.FractionExact` | crates/torrent-core/src/metainfo/mod.rs:360-364 | The progress of a file lies between 0 and 1, rises with its bytes and is 1 exactly when all are there |
| `StorageTheorems.WriteRefines` | crates/torrent/src/storage/file_backend.rs:205-247 | A range write, for any range: one file takes all of the data, growing over zeros; over many files, empty ones included, it overlays the flat byte array up to the place where the loop stops; no other file is touched |
| `StorageTheorems.ReadRefines` | crates/torrent/src/storage/file_backend.rs:152-197 | A range read, for any range: one file gives the whole range or an error; many files give the flat slice up to that place, without error, and leave the rest of the buffer alone |
| `StorageTheorems.StopExact` | crates/torrent/src/storage/file_backend.rs:336-356 | The loops reach the end of the request exactly when it ends inside the torrent and no empty file lies strictly inside it |
| `StorageTheorems.WriteSplices` | crates/torrent/src/storage/file_backend.rs:205-247 | On either layout a write inside the torrent succeeds and splices the data up to the stop; it splices all of it exactly when no empty file lies strictly inside the range or the bytes beyond were already there |
| `StorageTheorems.ReadCopies` | crates/torrent/src/storage/file_backend.rs:152-197 | On either layout a read inside the torrent succeeds and gives the flat slice up to the stop; it gives all of it exactly when no empty file lies strictly inside the range or the buffer already held the rest |
| `StorageTheorems.WriteThenRead` | crates/torrent/src/storage/file_backend.rs:152-247 | Reading back what was just written gives the data as far as it was stored, all of it exactly under the same condition |
| `StorageTheorems.EmptyFileDropsData` | crates/torrent/src/storage/file_backend.rs:205-247 | A concrete case of the defect: two bytes over files of sizes 1, 0 and 1 report success but write only the first |
| `StorageTheorems.WriteSomePieces` | crates/torrent/src/storage/file_backend.rs:290-295 | After writing any pieces in any order, with repeats, each byte is the new one if its piece was written and the write of that piece reaches it, and the old one otherwise, empty files included |
| `StorageTheorems.WriteAllPieces` | crates/torrent/src/storage/file_backend.rs:290-295 | Writing all pieces in any order leaves exactly the torrent's bytes if and only if every byte that no write reaches, a matter of file lengths and piece length, was right before |
| `StorageTheorems.AllReached` | crates/torrent/src/storage/file_backend.rs:290-295 | All bytes are reached exactly when no empty file lies strictly inside a piece |
| `Storage.MapByteRange` | crates/torrent/src/storage/file_backend.rs:336-356 | The loop over running offsets computes the recursive list of (file, offset, length) ranges |
| `Storage.FileStorage.WriteRangeAt` | crates/torrent/src/storage/file_backend.rs:205-247 | The write loop computes the specified new disk and success flag |
| `Storage.FileStorage.ReadRangeAt` | crates/torrent/src/storage/file_backend.rs:152-197 | The read loop computes the specified buffer and success flag |
| `Storage.FileStorage.WriteBlock` | crates/torrent/src/storage/file_backend.rs:275-288 | A block write is the range write at piece offset plus block offset |
| `Storage.FileStorage.ReadBlock` | crates/torrent/src/storage/file_backend.rs:251-264 | A block read fills the whole buffer from piece offset plus block offset |
| `Storage.FileStorage.WritePiece` | crates/torrent/src/storage/file_backend.rs:290-295 | A piece write is the range write at the piece's offset |
| `Storage.FileStorage.ReadPiece` | crates/torrent/src/storage/file_backend.rs:266-273 | A piece read covers the piece's own length, the short last one included |
| `Congestion.BaseDelayExact` | crates/torrent-core/src/peer/utp/congestion.rs:217-245 | With times that do not go back, the history is exactly the samples of the last 120 seconds and the baseline delay their minimum, after any number of samples |
| `Congestion.MinValueLeast` | crates/torrent-core/src/peer/utp/congestion.rs:217-245 | The baseline is at most every sample kept and is one of them |
| `Congestion.RttBounded` | crates/torrent-core/src/peer/utp/congestion.rs:261-288 | With all samples at most `m`, both estimates stay at most `m`; if `5m` fits in 32 bits the timeout does not overflow and lies between 500 and max(500, 5m) |
| `Congestion.RttConverges` | crates/torrent-core/src/peer/utp/congestion.rs:261-288 | Under a constant non-zero sample the estimate comes within 7 of it, at least one unit closer per update until then, and stays there |
| `Congestion.FirstRtt` | crates/torrent-core/src/peer/utp/congestion.rs:261-288 | From a fresh controller a constant sample is the estimate at once and for ever |
| `Congestion.RttMoves` | crates/torrent-core/src/peer/utp/congestion.rs:261-288 | One update closes an eighth of the distance, rounded towards zero |
| `Congestion.UtpCongestionControl.UpdateDelay` | crates/torrent-core/src/peer/utp/congestion.rs:217-245 | The pruning loop and the new baseline compute the specified state |
| `Congestion.UtpCongestionControl.UpdateRtt` | crates/torrent-core/src/peer/utp/congestion.rs:261-288 | The truncating signed divisions and the wrapping timeout sum compute the specified state |
| `Congestion.UtpCongestionControl.OnTimeout` | crates/torrent-core/src/peer/utp/congestion.rs:356-364 | One timeout: the counter goes up by one and the timeout is multiplied by 2 to the power of the counter, at most 6, saturating |
| `Congestion.TimeoutsMultiply` | crates/torrent-core/src/peer/utp/congestion.rs:356-364 | `n` timeouts in a row multiply the timeout by 2^(n(n+1)/2) up to the sixth and by 64 more with each further one, saturating once at the end |
| `Congestion.UtpCongestionControl.AddInFlight` | crates/torrent-core/src/peer/utp/congestion.rs:196-198 | Saturating addition, nothing else changes |
| `Congestion.UtpCongestionControl.RemoveInFlight` | crates/torrent-core/src/peer/utp/congestion.rs:201-203 | Saturating subtraction, nothing else changes |
| `SelectiveAck.RefinesSet` | crates/torrent-core/src/peer/utp/selective_ack.rs:113-140 | Under every sequence of set and clear, the acknowledged offsets are exactly those of a plain set, and the length stays at least 4 and a multiple of 4 |
| `SelectiveAck.SetMember` | crates/torrent-core/src/peer/utp/selective_ack.rs:113-119 | Setting an offset, growing the mask if needed, adds it and nothing else |
| `SelectiveAck.ClearMember` | crates/torrent-core/src/peer/utp/selective_ack.rs:122-128 | Clearing an offset removes it and nothing else; outside the mask it does nothing |
| `SelectiveAck.IterExact` | crates/torrent-core/src/peer/utp/selective_ack.rs:214-227 | The iterator lists exactly the acknowledged offsets in strictly rising order |
| `SelectiveAck.SelectiveAck.CountAckedInRange` | crates/torrent-core/src/peer/utp/selective_ack.rs:150-170 | The byte loop with the masked last byte returns the number of acknowledged offsets below the bound |
| `SelectiveAck.SelectiveAck.Set` | crates/torrent-core/src/peer/utp/selective_ack.rs:113-119 | The method sets that bit of the mask, extended when it is too short |
| `SelectiveAck.SelectiveAck.Clear` | crates/torrent-core/src/peer/utp/selective_ack.rs:122-128 | The method clears that bit if the mask has it |
| `SelectiveAck.SerializeParse` | crates/torrent-core/src/peer/utp/selective_ack.rs:238-271 | Parsing inverts serialising every list of non-zero types with at most 255 bytes each, whatever follows |
| `SelectiveAck.ParseSerialize` | crates/torrent-core/src/peer/utp/selective_ack.rs:238-271 | Whatever parses is the serialised form of the result: the parser accepts nothing else |
| `SelectiveAck.ExtensionBytesExact` | crates/torrent-core/src/peer/utp/selective_ack.rs:176-182 | The mask's own serialisation parses back exactly when the mask has fewer than 256 bytes, since the length byte is truncated |
| `SelectiveAck.ParseExtensions` | crates/torrent-core/src/peer/utp/selective_ack.rs:238-271 | The offset loop computes the recursive parser, both truncation errors included |
| `UtpDelivery.RunDelivers` | crates/torrent/src/peer/utp/connection.rs:284-327 | In every run of two endpoints over a network that loses, repeats and reorders, with refused sends and retransmissions, in which no side uses more than 65536 numbers, wrapped ones included: bytes taken plus ready are the peer's payloads numbered from one above the base to `ack_nr`, in order and once each; buffered keys are above `ack_nr + 1` and hold what the peer sent; at most 2 MiB wait |
| `UtpDelivery.RunEndsAtLastNumber` | crates/torrent/src/peer/utp/connection.rs:291-325 | In every such run no payload numbered past 65535, counted on from the base, is ever delivered: what was delivered is a prefix of those up to that number |
| `UtpDelivery.RunEndToEnd` | crates/torrent/src/peer/utp/connection.rs:395-435 | In every such run what a reader got is one contiguous part of what the other side's writer handed over |
| `UtpDelivery.ResponderFirstPayloadSkipped` | crates/torrent/src/peer/utp/connection.rs:218-223 | In every such run the initiator's reader never gets the responder's first payload: the handshake already used its number |
| `UtpDelivery.InitiatorFirstPayloadSkipped` | crates/torrent/src/peer/utp/connection.rs:228-236 | In every such run the responder never gets the payload of the DATA packet that ended its handshake, nor any numbered before it, so never the initiator's first one: delivery begins right behind it |
| `UtpDelivery.RunLedger` | crates/torrent/src/peer/utp/connection.rs:546-583 | In every such run in which the counter cannot saturate, on both sides, bytes in flight are at least the buffered bytes, and equal to them unless a retransmission failed; the shared number of STATE and first DATA leaks nothing |
| `UtpDelivery.RunInvariant` | crates/torrent/src/peer/utp/connection.rs:204-281 | The conversation invariant behind these theorems holds after every sequence of events |
| `UtpDelivery.StepInvariant` | crates/torrent/src/peer/utp/connection.rs:204-281 | Every event at either side keeps the invariant |
| `UtpDelivery.RunWritten` | crates/torrent/src/peer/utp/connection.rs:395-412 | In every run the numbered payloads joined are exactly the bytes accepted from the writer |
| `UtpDelivery.PinnedAck` | crates/torrent/src/peer/utp/connection.rs:204-227 | Until the responder has seen a DATA packet, the initiator can only acknowledge its STATE |
| `UtpDelivery.StartedInvariant` | crates/torrent/src/peer/utp/connection.rs:119-199 | The invariant holds once SYN and STATE are out, whatever the numbers and times |
| `UtpRuns.RetransmitAllOk` | crates/torrent/src/peer/utp/connection.rs:488-518 | The retransmission loop keeps numbering, network and byte counter in order, wherever it stops |
| `UtpRuns.SendChunksOk` | crates/torrent/src/peer/utp/connection.rs:403-412 | The chunk loop does, wherever the socket fails |
| `UtpRuns.PacketSideOk` | crates/torrent/src/peer/utp/connection.rs:204-281 | An incoming packet does |
| `UtpRuns.PacketTx` | crates/torrent/src/peer/utp/connection.rs:204-281 | A packet touches the sending half only by acknowledging, and moves the state only along the handshake and teardown edges |
| `UtpRuns.PacketRx` | crates/torrent/src/peer/utp/connection.rs:204-281 | A packet touches the receiving half only as handshake number or as received data |
| `UtpTheorems.ReceiveInOrder` | crates/torrent/src/peer/utp/connection.rs:284-327 | Whatever packet of the peer arrives, in order, early, late or repeated, reassembly stays in order |
| `UtpTheorems.DrainInOrder` | crates/torrent/src/peer/utp/connection.rs:313-321 | The drain loop keeps the stream in order also when it stops at the 2 MiB cap and drops the packet that does not fit |
| `UtpTheorems.NextAcceptedExactly` | crates/torrent/src/peer/utp/connection.rs:291-311 | The packet after `ack_nr` changes the receiver exactly when its number has not wrapped and the reader has room |
| `UtpTheorems.StallsAfterLastNumber` | crates/torrent/src/peer/utp/connection.rs:291-325 | Since numbers are compared without wrapping, a receiver at 65535 never delivers or buffers anything again, whatever arrives |
| `UtpTheorems.WrappedAck` | crates/torrent/src/peer/utp/connection.rs:339-347 | The wrapping test means "at or below" for numbers from 32767 behind to 32768 ahead of the acknowledged one, and is wrong one step outside on either side |
| `UtpTheorems.AckRemovesExactly` | crates/torrent/src/peer/utp/connection.rs:333-360 | With all outstanding numbers in that window an ACK removes exactly those at or below it |
| `UtpTheorems.HandleAckExact` | crates/torrent/src/peer/utp/connection.rs:333-360 | The ACK loop keeps exactly the buffered packets that the test does not call acknowledged |
| `UtpTheorems.RemoveAllLedger` | crates/torrent/src/peer/utp/connection.rs:349-358 | Acknowledging takes the same number of bytes out of the counter and out of the buffer |
| `UtpTheorems.SendRawLedger` | crates/torrent/src/peer/utp/connection.rs:572-583 | Sending adds the packet's bytes to the counter; a packet buffered under the same number is lost from the buffer but not from the counter |
| `UtpTheorems.ChunksCarryData` | crates/torrent/src/peer/utp/connection.rs:395-412 | One send cuts the data into consecutively numbered non-empty packets that together are the data, or the part up to the packet the socket refused |
| `Utp.UtpConnection.Connect` | crates/torrent/src/peer/utp/connection.rs:119-153 | The initiator after its SYN, which takes number 2, whether or not the socket accepted it |
| `Utp.UtpConnection.Accept` | crates/torrent/src/peer/utp/connection.rs:159-184 | The responder's first state |
| `Utp.UtpConnection.HandlePacketMsg` | crates/torrent/src/peer/utp/connection.rs:204-281 | The state dispatch computes the specified new connection in all six states |
| `Utp.UtpConnection.ProcessDataPacket` | crates/torrent/src/peer/utp/connection.rs:284-327 | ACK handling, the duplicate test, the cap and the drain loop compute the specified new connection |
| `Utp.UtpConnection.ApplyAck` | crates/torrent/src/peer/utp/connection.rs:333-360 | The loop over acknowledged keys computes the specified sending half and leaves everything else |
| `Utp.UtpConnection.RemoveAcked` | crates/torrent/src/peer/utp/connection.rs:349-359 | One acknowledged packet: buffer, round-trip sample, byte counter |
| `Utp.UtpConnection.HandleFinPacket` | crates/torrent/src/peer/utp/connection.rs:384-389 | Records the FIN number and leaves Connected only |
| `Utp.UtpConnection.SendRawPacket` | crates/torrent/src/peer/utp/connection.rs:546-593 | Counts, buffers and sends; activity is noted only when the send succeeds |
| `Utp.UtpConnection.SendPacket` | crates/torrent/src/peer/utp/connection.rs:533-543 | Only packets that use up a number advance `seq_nr` |
| `Utp.UtpConnection.SendNext` | crates/torrent/src/peer/utp/connection.rs:404-406 | Taking a number and sending is the specified numbered send, also when the socket refuses |
| `Utp.UtpConnection.SendData` | crates/torrent/src/peer/utp/connection.rs:395-412 | The chunk loop computes the specified connection, packets and result, the refused packet included |
| `Utp.UtpConnection.SendStateResponse` | crates/torrent/src/peer/utp/connection.rs:187-199 | The STATE answer does not advance `seq_nr` |
| `Utp.UtpConnection.CloseGracefully` | crates/torrent/src/peer/utp/connection.rs:416-424 | FIN takes a number; the state changes only when the send succeeds |
| `Utp.UtpConnection.Recv` | crates/torrent/src/peer/utp/connection.rs:429-435 | Returns everything ready, in order, and empties only that |
| `Utp.UtpConnection.CheckRetransmits` | crates/torrent/src/peer/utp/connection.rs:468-530 | Dead-connection test, retransmission and SYN repetition compute the specified connection and packets |
| `Utp.UtpConnection.RetransmitPackets` | crates/torrent/src/peer/utp/connection.rs:488-518 | The retransmission loop, with its two error exits |
| `Distance.BucketExact` | crates/torrent-core/src/dht/mod.rs:248-257 | For distinct ids the bucket is `i` exactly when the big-endian XOR distance lies in [2^(159-i), 2^(160-i)) |
| `Distance.ByteOrderIsNumeric` | crates/torrent-core/src/dht/mod.rs:236-242 | Byte-array order of distances is the order of the numbers they write |
| `Distance.DistancesDistinct` | crates/torrent-core/src/dht/mod.rs:236-242 | To one target distinct ids have distinct distances; distance is symmetric and 0 only from an id to itself |
| `Distance.XorDistance` | crates/torrent-core/src/dht/mod.rs:236-242 | The byte loop computes the bytewise exclusive or |
| `Distance.FindBucket` | crates/torrent-core/src/dht/mod.rs:248-257 | The search for the first differing byte returns its first differing bit, 0 for equal ids |
| `Distance.BucketIndex` | crates/torrent-core/src/dht/mod.rs:248-257 | Every id has one of the 160 buckets |
| `DhtTheorems.BucketIsFreshest` | crates/torrent-core/src/dht/kbucket.rs:46-60 | After any insertions a bucket holds exactly the at most eight ids inserted last, with their latest addresses, least recently seen first |
| `DhtTheorems.LatestExact` | crates/torrent-core/src/dht/kbucket.rs:46-60 | "Latest" in that statement: each id once, as last inserted, ordered by last insertion |
| `DhtTheorems.TableExact` | crates/torrent-core/src/dht/mod.rs:223-227 | In every reachable table each bucket is what its own insertions make of it, unaffected by all others |
| `DhtTheorems.TableWellFormed` | crates/torrent-core/src/dht/mod.rs:110-116 | In every reachable table buckets hold at most eight nodes, every node is in the bucket of its distance, ids are unique table-wide, and only inserted nodes appear |
| `DhtTheorems.FindClosestExact` | crates/torrent-core/src/dht/mod.rs:229-233 | In every reachable table a lookup returns min(count, n) nodes, strictly closest first, and every node left out is strictly farther than every node returned |
| `DhtTheorems.DualMergeExact` | crates/torrent-core/src/dht/mod.rs:170-178 | Merging the two truncated lookups gives exactly the closest of both families together, ties included |
| `StableSort.MergeOfTruncated` | crates/torrent-core/src/dht/mod.rs:170-178 | The reason, for any total preorder: the first k of a stable sort only depend on the first k of each sorted part |
| `DhtTheorems.CloserIsNumeric` | crates/torrent-core/src/dht/mod.rs:229-233 | The sort key compares numeric distances, equal only for equal ids |
| `Dht.KBucket.Insert` | crates/torrent-core/src/dht/kbucket.rs:46-60 | Refresh moves to the tail with the new address, a full bucket loses its head, and the result says whether the id was new |
| `Dht.InsertIntoBuckets` | crates/torrent-core/src/dht/mod.rs:223-227 | Changes only the bucket of the node's distance |
| `Dht.FindClosestInBuckets` | crates/torrent-core/src/dht/mod.rs:229-233 | Collecting all buckets, sorting stably by distance and truncating |
| `Dht.RoutingTable.WithId` | crates/torrent-core/src/dht/mod.rs:103-108 | A new table has 160 separate empty buckets |
| `Dht.RoutingTable.Insert` | crates/torrent-core/src/dht/mod.rs:114-116 | Table insertion on the object is the specified table update |
| `Dht.RoutingTable.Closest` | crates/torrent-core/src/dht/mod.rs:119-121 | Lookup on the object |
| `Dht.RoutingTable.NumNodes` | crates/torrent-core/src/dht/mod.rs:124-126 | The sum of bucket sizes is the number of nodes |
| `Dht.DualRoutingTable.Insert` | crates/torrent-core/src/dht/mod.rs:161-167 | Changes only the table of the address's family |
| `Dht.DualRoutingTable.Closest` | crates/torrent-core/src/dht/mod.rs:170-178 | Both lookups, joined, sorted and truncated |
| `Choke.RoundSelectsBest` | crates/torrent/src/session/swarm/choke.rs:59-115 | For every table order, random draw and clock, read anew for each peer at both looks: a round selects at most max peers, all eligible at the first look, at least min(max, eligible at the second), and every selected one but the optimistic pick has at least the rank of every peer left out that is still eligible; when seeding, or if no peer's time runs out meanwhile, exactly min(max, eligible) |
| `Choke.SelectIsGood` | crates/torrent/src/session/swarm/choke.rs:74-115 | The same over the ranked list |
| `Choke.RefillAddsPrefix` | crates/torrent/src/session/swarm/choke.rs:87-94 | The refill loop adds the eligible peers of a prefix of the ranking and stops early only at the limit |
| `Choke.ChokeManager.RunRound` | crates/torrent/src/session/swarm/choke.rs:44-181 | The whole round: slots stay within the maximum, holders in the selection keep theirs, exactly as many others get one as were free before, only eligible peers hold slots, Unchoke and Choke go to exactly the named peers, round counters are reset; with no slots nothing happens |
| `Choke.ChokeManager.SelectPeers` | crates/torrent/src/session/swarm/choke.rs:74-115 | The selection code, both retain and refill, computes the specified set |
| `Choke.ChokeManager.GiveSlots` | crates/torrent/src/session/swarm/choke.rs:119-124 | In any iteration order as many new slots are given as were free, and every selected peer without a slot is told so |
| `Choke.ChokeManager.TakeSlots` | crates/torrent/src/session/swarm/choke.rs:126-166 | In any order exactly the holders outside the selection lose their slot and are told |
| `Choke.ToldButRefused` | crates/torrent/src/session/swarm/choke.rs:119-124 | Every selected peer that is sent Unchoke really holds a slot exactly when enough slots were free before the round, because choking comes after unchoking and a full table silently refuses |
| `Choke.RefusedExample` | crates/torrent/src/session/swarm/choke.rs:119-124 | It can be refused: with one slot held by a snubbed peer, the other peer is selected, told and gets nothing, and the slot stays empty |
| `Choke.SecondRoundFills` | crates/torrent/src/session/swarm/choke.rs:119-166 | A second round with the same selection gives every selected peer its slot |
| `Choke.UploadManager.Unchoke` | crates/torrent/src/session/upload_mgr.rs:32-37 | Adds the peer only below the maximum |
| `Choke.UploadManager.Choke` | crates/torrent/src/session/upload_mgr.rs:26-29 | Removes the peer only |
| `PeerPoolRuns.RunBounded` | crates/torrent/src/session/peer_mgr.rs:80-213 | In every run with one outstanding batch, connections plus outstanding attempts never exceed the maximum and the pending queue has no duplicates |
| `PeerPoolRuns.DrainExact` | crates/torrent/src/session/peer_mgr.rs:122-148 | A drain takes the front of the queue as far as connections are free: cooling addresses go to the back in order, the others are handed out, none is lost or doubled, none cooling is handed out |
| `PeerPoolRuns.ResultsSettle` | crates/torrent/src/session/peer_mgr.rs:163-213 | After the results every address of the batch is connected, pending with one more failure and a new cooldown, discarded, or pending unchanged if it has no outcome; no other address is touched |
| `PeerPoolRuns.CountsFailures` | crates/torrent/src/session/peer_mgr.rs:177-200 | Over every run that never connects or removes an address, its attempts equal its failures up to the retry limit, whatever else happens |
| `PeerPoolRuns.DiscardedAfterRetries` | crates/torrent/src/session/peer_mgr.rs:182-200 | The failure after those, the (max_retries + 1)-th, discards it: it is not put back and its record is gone |
| `PeerPoolRuns.RetryAssertionExact` | crates/torrent/src/session/peer_mgr.rs:191-196 | The debug assertion that a retried peer is not pending holds exactly when no address to be retried was announced again while its connection attempt ran |
| `PeerPoolRuns.RetryAssertionFails` | crates/torrent/src/session/peer_mgr.rs:191-196 | It can fail: announced, drained, announced again, failed |
| `PeerPool.PeerManager.AddAddresses` | crates/torrent/src/session/peer_mgr.rs:80-86 | Queues the addresses that are neither connected nor pending |
| `PeerPool.PeerManager.Remove` | crates/torrent/src/session/peer_mgr.rs:98-102 | Forgets connection and backoff, not the queue |
| `PeerPool.PeerManager.DrainPendingBatch` | crates/torrent/src/session/peer_mgr.rs:122-148 | The drain loop computes the specified pool and batch |
| `PeerPool.PeerManager.ApplyConnectResults` | crates/torrent/src/session/peer_mgr.rs:163-213 | Both loops compute the specified pool, and the returned addresses are exactly the connected ones |
| `UniDeques.UniDeque.Push` | crates/torrent/src/session/uni_deque.rs:32-38 | Appends exactly when the value is new, and queue and set keep agreeing |
| `UniDeques.UniDeque.DrainFirst` | crates/torrent/src/session/uni_deque.rs:44-50 | Returns the front in order, and queue and set keep agreeing |
| `SuperSeed.OnlyOwnerServed` | crates/torrent/src/session/swarm/super_seed.rs:135-158 | From assignment until the owner's Have or disconnect, over every run, the owner keeps the piece and no block of it goes to any other peer |
| `SuperSeed.RunConsistent` | crates/torrent/src/session/swarm/super_seed.rs:38-160 | In every reachable state the unrevealed pieces are exactly the assigned ones and no peer has two |
| `SuperSeed.Released` | crates/torrent/src/session/swarm/super_seed.rs:121-155 | The owner's Have or disconnect opens the piece to every peer; before that all others are blocked |
| `SuperSeed.PieceIsFree` | crates/torrent/src/session/swarm/super_seed.rs:62-73 | Only a piece we have, that no peer has and that is not in progress can be assigned |
| `SuperSeed.SuperSeedExtension.SelectPiece` | crates/torrent/src/session/swarm/super_seed.rs:38-93 | Availability count, first fitting piece and first fitting peer compute the specified assignment |
| `SuperSeed.SuperSeedExtension.CountHolders` | crates/torrent/src/session/swarm/super_seed.rs:41-55 | The counter is positive exactly for pieces that some peer has, bitfields of wrong length included |
| `SuperSeed.SuperSeedExtension.HandlePeerEvent` | crates/torrent/src/session/swarm/super_seed.rs:116-161 | New state, blocked request and confirmed piece are as specified for every event |
| `SuperSeed.SuperSeedExtension.MaskBitfield` | crates/torrent/src/session/swarm/super_seed.rs:163-171 | Exactly the bits of unrevealed pieces are cleared, all others kept, in any iteration order |
| `MagnetTheorems.MagnetRoundTrip` | crates/torrent-core/src/magnet/mod.rs:222-297 | Parsing a displayed URI gives back the identical structure if and only if it has a hash and every hash's raw form decodes to its bytes |
| `MagnetTheorems.TorrentMagnetRoundTrip` | crates/torrent-core/src/magnet/mod.rs:196-219 | The URI made from any torrent comes back identical, also when the sum of its file lengths wraps |
| `MagnetTheorems.ParsedHashes` | crates/torrent-core/src/magnet/mod.rs:177-192 | Every parsed URI has a hash, and each of its hashes decodes from its raw form |
| `MagnetTheorems.PanicsExactly` | crates/torrent-core/src/magnet/mod.rs:104-115 | Parsing a string panics exactly when, trimmed, it does not start with the lower-case scheme, is longer than seven bytes and does not fall into two valid strings at byte 7 |
| `Utf8.CutExact` | crates/torrent-core/src/magnet/mod.rs:104-115 | Cutting a valid string leaves two valid strings exactly when the cut is not in front of a continuation byte |
| `MagnetTheorems.PanicExample` | crates/torrent-core/src/magnet/mod.rs:104-115 | It can: six letters and a two-byte character |
| `MagnetTheorems.SplitJoined` | crates/torrent-core/src/magnet/mod.rs:129-130 | Splitting at ampersands finds again the parameters that were joined with them |
| `Encodings.UrlRoundTrip` | crates/torrent-core/src/magnet/mod.rs:395-430 | Percent-decoding inverts percent-encoding on every string |
| `Encodings.EncodedIsPlain` | crates/torrent-core/src/magnet/mod.rs:417-430 | Encoded text is printable ASCII without ampersand or equals sign |
| `Encodings.HexRoundTrip` | crates/torrent-core/src/magnet/mod.rs:326-342 | Hex decoding inverts hex encoding |
| `Encodings.Base32SameNumber` | crates/torrent-core/src/magnet/mod.rs:354-380 | Base32 decoding keeps the number that the characters write: as a base-256 number the bytes equal the base-32 number of the text |
| `Encodings.Base32GroupsGood` | crates/torrent-core/src/magnet/mod.rs:354-389 | Only base32 characters, of either case, are accepted, and eight characters give five bytes |
| `Encodings.FiveBytes` | crates/torrent-core/src/magnet/mod.rs:371-377 | The five shifts take the 40-bit buffer apart into its bytes, most significant first |
| `Encodings.HexDecodeBytes` | crates/torrent-core/src/magnet/mod.rs:331-342 | The pair loop computes the recursive decoder, bad digits and lengths included |
| `Encodings.Base32DecodeBytes` | crates/torrent-core/src/magnet/mod.rs:354-380 | The group loop with its 40-bit buffer computes the recursive decoder |
| `Encodings.DecodeGroups` | crates/torrent-core/src/magnet/mod.rs:361-379 | The loop over groups, for any number of them |
| `Encodings.UrlEncodeText` | crates/torrent-core/src/magnet/mod.rs:417-430 | The byte loop computes the encoder |
| `Encodings.UrlDecodeText` | crates/torrent-core/src/magnet/mod.rs:395-412 | The position loop, with percent signs that are not escapes kept, computes the decoder |
| `Magnet.FromStr` | crates/torrent-core/src/magnet/mod.rs:99-193 | Scheme test and parameter loop compute the specified outcome |
| `Magnet.Format` | crates/torrent-core/src/magnet/mod.rs:222-297 | The separator-minding writes compute the specified text |
| `Magnet.DecodeHash` | crates/torrent-core/src/magnet/mod.rs:307-322 | A hash string that decodes gives 20 bytes and is itself plain text |

## Left out

- RunDelivers: for runs in which no side uses more than 65536 sequence numbers; beyond that a number names two payloads and the code has no way to tell them apart.
- RunEndToEnd: same restriction as `RunDelivers`.
- RunEndsAtLastNumber: same restriction as `RunDelivers`.
- ResponderFirstPayloadSkipped: same restriction as `RunDelivers`.
- InitiatorFirstPayloadSkipped: same restriction as `RunDelivers`.
- RunInvariant: same restriction as `RunDelivers`.
- StepInvariant: same restriction as `RunDelivers`.
- RunLedger: same restriction, and only while everything ever sent fits in the 32-bit counter; a saturated counter forgets bytes.
- OnTimeout: the resets of window and packet size to 150 are not modelled, because no modelled operation reads them.
- ApplyAck: the window adjustment behind the loop is not modelled, because it is floating point.
- RunRound: cancelling outstanding requests of choked peers is not modelled, because the download bookkeeping in `swarm/types.rs` is not part of this model.
- TakeSlots: cancelling outstanding requests is not modelled, for the same reason.
- HashedVerifies: asks for a source that returns all requested bytes, since the check reads each piece with a single call.
- HashSource: an error implies that a read made no progress; a source may also stall at a position the loop never asks for.
- TorrentMagnetRoundTrip: a sum of file lengths beyond 64 bits wraps, as in a release build; a debug build panics there.
- WrittenVerifies: one direction only, because a piece cut short by an empty file is hashed with stale bytes of the buffer, and nothing is known of their hash.
- HashAndVerify: optional fields of the torrent (announce list, comment, creator) and the session's bookkeeping around the check are not modelled.
- BucketExact: the bucket of the own id is 0 in the code and carries no meaning.
- RunBounded: attempts still running after their time-out are treated as without outcome, as the code does; connections made outside the pool are not part of it.
- OnlyOwnerServed: peers removed without a disconnect event keep their assignment, in the code as well.
- The window adjustment `adjust_window`, `on_packet_loss` and `update_packet_size` use floating point; the packet size is a parameter of the send operation and sends are not held back by a window.
- uTP connection ids, socket dispatch, time stamps, the receive window field and the empty selective-ACK hook of the connection are not modelled; the packet headers keep only what the connection reads.
- The uTP model starts with SYN and STATE on the network; a repeated SYN that would create a second responder is not modelled.
- Sums and offsets are unbounded where the code uses `usize` or `u64`, except where a wrap is written out.
- Reads past the end of a file and other file-system failures are a failure flag; creating, resizing and caching files are left out.
- The `progress` fraction of a file status is an exact quotient; rounding to floating point is left out.
- The choice between HaveAll, HaveNone and Bitfield messages during super seeding, and the status fields it reports, are left out.
- Sockets, tasks, locks, TLS, HTTP, trackers, wire messages, KRPC messages, PEX, LTEP and LSD are left out: plumbing or fixed-layout codecs.
- Piece selection, pipelines, block bookkeeping and web seeds are left out.
