# Verification of aria2go's core

A Dafny model of the parts of aria2go where state, arithmetic and protocol meet,
with proofs over every input, every run and every interleaving. Values and pure
steps are datatypes and functions; where the Go code updates fields, slices or
buffers in place the model has classes and loops, and each method is proved
against the value-level step whose properties the lemmas state.

| part | modules | main results |
|---|---|---|
| DHT routing table | NodeIds, RoutingSpec, RoutingInvariants, RoutingEffects, RoutingClosest, RoutingTree | the pointer tree of buckets refines a list of leaves; an invariant of every run; exactly which nodes each operation stores, caches and drops; what a lookup returns |
| MSE handshake | Arithmetic, MseSpec, MseConn, MseHandshake, MseAgreement, MseProgress, MseStages | both sides agree and their ciphers stay aligned for all keys, paddings, initial payloads and chunkings; exactly which keys, headers and payloads are refused; no deadlock, with the stages tied to the methods |
| bencode and KRPC | Bencode, BencodeParse, BencodeRoundTrip, BencodeAccepts, BencodeForms, BencodeKeys, BencodeTruncated, BencodeDecoder, BencodeEncoder, BencodeRaw, DhtDecoder, DhtPanics, DhtScanner, Krpc, KrpcReads | round trips with exact consumption, exactly which texts are read, cut texts, path extraction, exactly where the two decoders agree and which packets make one panic, which packets are which message, compact node lists |
| download queue | Lists, QueueSpec, QueueInvariants, QueueEffects, QueueRemoval, QueueOutcomes, QueueCalls, QueueEngine | safety of every run of queue steps, the effect of each call and pass, the outcome of a download for every history, exactly when a removal is final |
| disk | FileContents, MultiFile, FileSelection, WriteBuffer, WriteCache | several files refine one flat range; selected files never leave a gap in a wanted piece; buffering and caching are invisible |
| pieces | Pieces, Bitfields, PieceCounts, PieceMap, PieceSelect, InorderChoice | exact cached totals, completed bytes of ranges, exactly what the selectors choose |
| progress | Control, ControlSegments, Segments, SegmentEffects | control bitfield over runs of writes, conversion of piece lengths, tilings by segments, what becomes of each segment |
| engine helpers | StoppedRing, Credentials, Throttle, ThrottleWaiting | a ring that refines a bounded queue, longest-prefix credentials, conservation of tokens and exactly which waiters are left asleep in every interleaving |

`Bytes` holds the byte type, byte strings and their order.

## Where the code differs from what one would expect

The model follows the code. Each of these is stated as a lemma or as an exact
condition:

- `ChangePosition` lands one short whenever a download moves towards the end of
  the queue (internal/engine/engine.go:1752-1756), so "next place" moves nothing
  and the last place cannot be reached (`QueueEffects.PositionExact`,
  `QueueEffects.NextPlaceIsNoMove`).
- Removing a running download is not final. A pause or an option change before
  the reaping pass puts it back into the waiting queue, and a shutdown or the end
  of the run gives it another outcome (`QueueRemoval.RemovalFinal`, with
  `QueueEffects.PauseAfterRemoveWins` as the failing input).
- An addition whose options are refused has already spent its GID; the model
  keeps these GIDs as a class of their own.
- The test for a complete bitfield compares whole bytes, so stray padding bits
  make a complete bitfield look incomplete (`PieceCounts.TestAllBitSet`).
- The in-order selector can return an index behind the end of its range when the
  split size exceeds one piece; `PieceSelect.InorderInRange` and
  `PieceSelect.InorderLeavesRange` say exactly for which ranges.
- Bytes written twice are counted twice in the control file's progress, so
  overlapping writes complete a piece that has not been written in full
  (`Control.RunTallies`, with `Control.RewritesComplete` as the failing input).
- A download that is active at the end of a run counts as an error even if it had
  ended with code 0 (internal/engine/engine.go:3334-3401;
  `QueueCalls.OutcomeAtEndOfRun`).
- `nodeCount` goes down when a cached node takes the place of a removed one, and
  up when a new node replaces a bad one, so it is not the number of stored nodes;
  the invariant says by how much it differs.
- The comment on `readDecimal` says that leading zeros are refused
  (internal/bencode/decode.go:416-419); the code reads them. The DHT decoder
  refuses them (`BencodeAccepts.LeadingZerosRead`, `DhtDecoder.LeadingZerosDiffer`).
- The stream decoder reads a number in floating-point notation as zero
  (internal/bencode/decode.go:204-282; `BencodeForms.IntExact`) and lets a key be
  repeated, the last value counting (`BencodeKeys.RepeatedKeys`).
- The DHT decoder has no depth limit and no key order
  (`DhtDecoder.DecodersAgreeExactly`). Its integers wrap at 64 bits
  (`BencodeForms.ScanIntExact`). So do its lengths, and a length that wraps to a
  negative number, or ends behind the largest position, panics
  (internal/dht/krpc.go:493-502; `DhtDecoder.StringPanics`,
  `DhtDecoder.LongLengthPanics`, and `DhtPanics.PacketPanics` for whole packets).
- The MSE receiver writes only the last of the four bytes of its cipher choice;
  the other three are what the reused buffer held
  (internal/mse/mse.go:577-585). Agreement is proved for all of them.
- A comment in the throttle says that a rate of 9 gives one token in ten ticks
  (internal/engine/ratelimit.go:57-59); ten ticks add exactly nine
  (`Throttle.TenTicksAddRate`).
- Lifting the throttle's limit wakes the sleeping waiters, but they test the
  bucket again and not the rate (internal/engine/ratelimit.go:131-168), so one
  that wants more than is there goes on waiting
  (`ThrottleWaiting.LiftReleasesExactly`, `ThrottleWaiting.LiftStrandsSomeone`).
- A waiter that registers, finds enough tokens and loses the race for them goes
  to sleep beside what is left (internal/engine/ratelimit.go:149-160;
  `ThrottleWaiting.MissedExactly`, `ThrottleWaiting.RaceLeavesSleeper`).
- The branch of `ReadAt` for "no later entry" (internal/disk/multi_file.go:226-228)
  is never taken inside the total size.

`dafny verify dfyconfig.toml` checks the whole project.

## Model

| member | source | states |
|---|---|---|
| `NodeIds.RangeIsPrefix` | internal/dht/routing.go:105-123 | an identifier lies between the bounds of a bucket exactly when it shares the bucket's bit prefix |
| `NodeIds.SplitMin` | internal/dht/routing.go:129-140 | flipping one bit of the lower bound gives the lower bounds of the two halves of the range |
| `NodeIds.SplitMax` | internal/dht/routing.go:129-140 | flipping one bit of the upper bound gives the upper bounds of the two halves |
| `RoutingSpec.LeavesPartition` | internal/dht/routing.go:272-298 | after n splits every identifier belongs to exactly one of the n + 1 leaves |
| `RoutingSpec.LeafIsRange` | internal/dht/routing.go:105-152 | belonging to a leaf is lying in the range of its bucket |
| `RoutingInvariants.SplitKeepsWf` | internal/dht/routing.go:129-152 | a split loses and invents no node, puts each into the half whose range holds it and keeps the table well formed |
| `RoutingInvariants.InsertKeepsWf` | internal/dht/routing.go:405-439 | an insertion, through any number of splits, keeps the table well formed; it adds the node and pushes out at most one stored node, which has the same identifier or is bad, or else changes no stored node |
| `RoutingInvariants.DropKeepsWf` | internal/dht/routing.go:191-205 | removal, with promotion of the newest cached node, the one in front, keeps the table well formed; what is removed and what takes its place is RoutingEffects.DropExact |
| `RoutingInvariants.StepKeepsWf` | internal/dht/routing.go:401-616 | every public operation keeps the table well formed |
| `RoutingInvariants.RunWf` | internal/dht/routing.go:390-616 | after any run from the empty table every stored or cached node is in the one leaf whose range holds it, no bucket or cache is over capacity, only the deepest leaf may still split and then has distinct identifiers and no cache, the bucket count is the number of leaves and the node count differs from the stored nodes by exactly promotions minus replacements |
| `RoutingEffects.DropExact` | internal/dht/routing.go:191-205 | with a stored node of the identifier exactly the first such node of its bucket is gone, the node in front of the bucket's cache, if any, is stored instead and no longer cached, every other node stays and keeps its order, and the node count goes down by one; with none stored nothing changes |
| `RoutingEffects.DropGone` | internal/dht/routing.go:445-462 | where a leaf's identifiers are distinct and its cache does not hold the identifier, no stored node has it afterwards |
| `RoutingEffects.ConditionExact` | internal/dht/routing.go:505-538 | setting the condition of a node changes one stored node with that identifier and address, found as the one whose condition is reported, and nothing else; for an unknown node nothing |
| `RoutingEffects.MarkGoodExact` | internal/dht/routing.go:505-512 | an answer sets the condition of a known node to zero and changes nothing else; an unknown node changes nothing |
| `RoutingEffects.MarkBadExact` | internal/dht/routing.go:514-524 | a known node becomes bad and a node with its identifier is removed from what is then stored; an unknown one changes nothing |
| `RoutingEffects.TimeoutExact` | internal/dht/routing.go:526-538 | a timeout adds one to the condition of a known node, and at five a node with its identifier is removed; an unknown one changes nothing |
| `RoutingEffects.InsertExact` | internal/dht/routing.go:405-439 | through any number of splits a node is admitted, at the end of its leaf and instead of the node with its identifier or of a bad head, or refused because its leaf is full and may not split, and then cached in front if it is good; leaves split only when full |
| `RoutingEffects.AddExact` | internal/dht/routing.go:401-439 | the local identifier is never added; any other node is admitted or refused as an insertion says, with condition zero |
| `RoutingEffects.BatchExact` | internal/dht/routing.go:572-583 | the good node is offered first, then a node with the other identifier is removed, if one is named and stored |
| `RoutingEffects.TimeoutsRemove` | internal/dht/routing.go:526-538 | a node that is the only one with its identifier is kept through any number of timeouts until they reach five since its last answer, and is then gone |
| `RoutingClosest.RankingAll` | internal/dht/routing.go:300-365 | the traversal order lists the non-bad stored nodes, each as often as it is stored, so a lookup returns min(8, their number) |
| `RoutingClosest.AllGoodIsStored` | internal/dht/routing.go:207-215 | the nodes a lookup draws from are exactly the stored nodes that are not bad |
| `RoutingClosest.RankingDescends` | internal/dht/routing.go:300-365 | along the traversal order the subtrees around the target only grow |
| `RoutingClosest.ClosestIsNearest` | internal/dht/routing.go:300-365 | no omitted node lies in a strictly smaller subtree around the target than a returned one |
| `RoutingTree.InRange` | internal/dht/routing.go:105-123 | the byte-wise loops decide the lexicographic range test |
| `RoutingTree.Bucket.SplitAllowed` | internal/dht/routing.go:125-127 | a bucket may split exactly when its prefix is short enough and the local identifier is in its range |
| `RoutingTree.Bucket.Contains` | internal/dht/routing.go:154-161 | the search loop finds an identifier exactly when it is stored |
| `RoutingTree.Bucket.AddNode` | internal/dht/routing.go:163-182 | the bucket after an addition: a known identifier is replaced at the end, a full bucket gives up a bad head, otherwise the node is refused |
| `RoutingTree.Bucket.CacheNode` | internal/dht/routing.go:184-189 | the new node goes in front of the cache and the oldest, at the end, falls out when there are too many |
| `RoutingTree.Bucket.DropNode` | internal/dht/routing.go:191-205 | exactly the first node with the identifier is removed and the newest cached node, the one in front, takes a place at the end and leaves the cache; fails exactly when there is no such node |
| `RoutingTree.Bucket.RandomNodeID` | internal/dht/routing.go:221-231 | whatever the random bytes, the identifier lies in the range of the bucket; bytes with a bit of the prefix are the lower bound's, all others are random |
| `RoutingTree.Bucket.GoodNodes` | internal/dht/routing.go:207-215 | the loop collects the non-bad nodes in order |
| `RoutingTree.Bucket.Split` | internal/dht/routing.go:129-152 | both buckets get the ranges and the nodes of their halves |
| `RoutingTree.TreeNode.Dig` | internal/dht/routing.go:272-280 | descends to the child whose range holds the identifier |
| `RoutingTree.TreeNode.Split` | internal/dht/routing.go:282-291 | a leaf becomes an inner node with two leaves for the halves |
| `RoutingTree.RoutingTable.constructor` | internal/dht/routing.go:390-399 | the new tree is one leaf over the whole range |
| `RoutingTree.RoutingTable.FindFrom` | internal/dht/routing.go:293-298 | the descent ends at the leaf of the identifier |
| `RoutingTree.RoutingTable.SplitLeaf` | internal/dht/routing.go:282-291 | splitting in the pointer tree is splitting the last leaf of the value table, and the tree keeps its caterpillar shape |
| `RoutingTree.RoutingTable.InsertLoop` | internal/dht/routing.go:405-439 | the split-and-retry loop computes the recursive insertion and ends; every tree node and bucket of the new tree was in the old one or is new |
| `RoutingTree.RoutingTable.AddNodeInternal` | internal/dht/routing.go:405-439 | the call refines the value-level addition and keeps the invariant; every tree node and bucket of the new tree was in the old one or is new |
| `RoutingTree.RoutingTable.RemoveNode` | internal/dht/routing.go:445-462 | computes the value-level removal, which RoutingEffects.DropExact describes, and keeps the invariant |
| `RoutingTree.RoutingTable.MarkGood` | internal/dht/routing.go:505-512 | refines the value-level condition change |
| `RoutingTree.RoutingTable.MarkBadAndRemove` | internal/dht/routing.go:514-524 | refines marking bad followed by removal |
| `RoutingTree.RoutingTable.OnTimeout` | internal/dht/routing.go:526-538 | refines counting a timeout, removing the node when it turns bad |
| `RoutingTree.RoutingTable.BatchUpdate` | internal/dht/routing.go:572-583 | refines adding a good node and removing another in one step; every tree node and bucket of the new tree was in the old one or is new |
| `RoutingTree.RoutingTable.Apply` | internal/dht/routing.go:401-616 | any of the operations on the pointer tree computes its value-level step and keeps the invariant |
| `RoutingTree.RunTable` | internal/dht/routing.go:390-616 | for every run of operations the pointer tree that goes through it is, at the end, the table the value-level run gives, and satisfies the invariant |
| `RoutingTree.RoutingTable.CollectDownward` | internal/dht/routing.go:304-324 | the recursive walk of a subtree, in either order, collects its non-bad nodes in that order until there are eight |
| `RoutingTree.RoutingTable.CollectUpward` | internal/dht/routing.go:326-343 | the walk to the root collects the siblings' nodes in order until there are eight |
| `RoutingTree.RoutingTable.FindClosest` | internal/dht/routing.go:345-365 | the pointer traversal returns the first eight of the ranking |
| `RoutingTree.RoutingTable.GetClosestNodes` | internal/dht/routing.go:464-480 | a lookup returns the wanted number of closest nodes |
| `Arithmetic.ExchangeCommutes` | internal/mse/mse.go:201-213 | both orders of modular exponentiation give the same value |
| `Arithmetic.MinimalRoundTrip` | internal/mse/mse.go:171-185 | decoding the minimal big-endian bytes of a number gives it back |
| `MseSpec.KeyRoundTrip` | internal/mse/mse.go:171-185 | a public key padded to 96 bytes is read back |
| `MseSpec.SharedSecret` | internal/mse/mse.go:201-213 | both sides compute the same secret bytes |
| `MseSpec.CryptTwice` | internal/mse/mse.go:100-121 | encrypting at a cipher position twice gives the text back |
| `MseSpec.CryptSlice` | internal/mse/mse.go:100-121 | a part of an encryption is the encryption of that part at its own position |
| `MseConn.ReadExact` | internal/mse/mse.go:631-637 | exactly the asked bytes are read, in whatever pieces they come |
| `MseConn.ReadUntil` | internal/mse/mse.go:639-656 | the buffer is extended by the following bytes until it is long enough |
| `MseConn.SearchMarker` | internal/mse/mse.go:357-382 | the search finds the first occurrence of the marker in the stream, for every chunking, or reports that it is not within the limit; what is found starts before the limit and one more read |
| `MseConn.Conn.Read` | internal/mse/mse.go:100-112 | reads give the decrypted stream, first what the handshake left over, whatever the pieces |
| `MseConn.Conn.Write` | internal/mse/mse.go:114-121 | writes append the encryption at the running position |
| `MseConn.Link.Send` | internal/mse/mse.go:100-121 | a write and its delivery append exactly the written bytes to what is still to be read, for aligned ciphers |
| `MseConn.Link.Receive` | internal/mse/mse.go:100-121 | what one side has received is always a prefix of what the other has sent |
| `MseHandshake.ParseInitiatorReceive` | internal/mse/mse.go:384-428 | the initiator's parser accepts exactly the blocks the specification accepts and keeps exactly the rest as data |
| `MseHandshake.InitiateHandshake` | internal/mse/mse.go:284-382 | writes the two flights and succeeds only on streams the specification accepts with the marker within the limit and one read, and always on those with the marker within 512 bytes; what has been written is stated for the failing cases too |
| `MseHandshake.FindHash` | internal/mse/mse.go:486-497 | returns the first candidate with the received verification value, or fails when there is none |
| `MseHandshake.ParseReceiverReceive` | internal/mse/mse.go:474-607 | the receiver's parser accepts exactly the blocks the specification accepts, with their infohash and initial payload, and keeps exactly the rest as data; MseAgreement.PayloadExact says which blocks these are |
| `MseHandshake.ReceiveHandshake` | internal/mse/mse.go:430-472 | writes the two flights, the second with whatever its reused buffer holds in the first three bytes of the cipher choice, and succeeds only on streams the specification accepts with the marker within the limit and one read, and always on those with the marker within 512 bytes, handing out their infohash and initial payload; what has been written is stated for the failing cases too |
| `MseAgreement.BothSecrets` | internal/mse/mse.go:201-213 | each side derives the session's secret from the key bytes it receives |
| `MseAgreement.RefusedKeys` | internal/mse/mse.go:187-199 | a peer's key is accepted if and only if it is below the prime and not all of its powers are among 0, 1 and the prime less one |
| `MseAgreement.RefusedByBoth` | internal/mse/mse.go:187-199 | neither side accepts a stream that starts with a key all of whose powers are among those three, or with one not below the prime |
| `MseAgreement.HeaderExact` | internal/mse/mse.go:384-428 | behind the verification constant, four bytes and a length make a header if and only if the last of the four has the ARC4 bit and the length is at most 512 |
| `MseAgreement.NoHeader` | internal/mse/mse.go:384-403 | without the whole verification constant, or with fewer than 14 bytes, neither side accepts anything |
| `MseAgreement.SelectExact` | internal/mse/mse.go:384-428 | the initiator takes what follows the padding as data if and only if ARC4 is selected, the padding is at most 512 bytes and has arrived in full |
| `MseAgreement.PayloadExact` | internal/mse/mse.go:500-607 | the receiver takes the announced number of bytes behind the padding as initial payload and the rest as data if and only if ARC4 is offered, the number is at most 68 and that many bytes have arrived |
| `MseAgreement.InitiatorBlobParses` | internal/mse/mse.go:500-607 | from what an initiator sends, with any offer, padding, initial payload up to 68 bytes and data behind it, the receiver gets exactly this payload and this data if the offer has the ARC4 bit, and refuses otherwise |
| `MseAgreement.InitiatorAgrees` | internal/mse/mse.go:284-428 | for all keys, paddings up to 512 bytes, payloads and stale bytes in the receiver's cipher choice, an honest receiver's stream is accepted by the initiator |
| `MseAgreement.ReceiverAgrees` | internal/mse/mse.go:430-607 | for all keys, paddings up to 512 bytes, offers that include ARC4, initial payloads up to 68 bytes and data, an honest initiator's stream is accepted by the receiver, with the initiator's infohash and its initial payload |
| `MseAgreement.ReceiverRejects` | internal/mse/mse.go:474-497 | when the infohash is not among the candidates the receiver accepts nothing |
| `MseAgreement.RunHandshake` | internal/mse/mse.go:284-607 | run against each other over arbitrarily chunked wires, whatever the stale bytes, both sides succeed within the give-up limits, agree on the infohash, and afterwards each reads exactly the bytes the other wrote |
| `MseAgreement.RunReceiver` | internal/mse/mse.go:430-607 | the receiver's method, on the stream of any honest initiator with any offer that has ARC4 and any initial payload up to 68 bytes, in any pieces, returns its infohash and exactly its initial payload, and its connection reads exactly the data behind it |
| `MseProgress.RunInv` | internal/mse/mse.go:284-607 | every interleaving of sends, deliveries and stages keeps the invariant that a stage is entered only with all the bytes it needs, and is no longer than the bytes and stages there are |
| `MseProgress.NoDeadlock` | internal/mse/mse.go:284-607 | after every interleaving some side can go on until both are done |
| `MseStages.InitiatorAt` | internal/mse/mse.go:284-382 | the initiator's own method, given any number of bytes of the receiver's handshake in any pieces, has written exactly what the stage machine says for that number and is done exactly when the machine is |
| `MseStages.ReceiverAt` | internal/mse/mse.go:430-472 | the receiver's own method, given any number of bytes of the initiator's handshake in any pieces, has written exactly what the stage machine says for that number and is done exactly when the machine is |
| `MseStages.ShortForInitiator` | internal/mse/mse.go:357-428 | as long as one byte of the receiver's handshake is missing the initiator accepts nothing |
| `MseStages.ShortForReceiver` | internal/mse/mse.go:474-607 | as long as one byte of the initiator's handshake is missing the receiver accepts nothing |
| `MseStages.SessionProgress` | internal/mse/mse.go:284-607 | in every interleaving of a session neither side is ahead of where its method is with the bytes it has, and some side can go on until both are done |
| `Bencode.SortSorts` | internal/bencode/types.go:111-128 | sorting the entries gives strictly ascending keys and the same entries |
| `Bencode.NormalGood` | internal/bencode/encode.go:28-63 | the value with its keys sorted is canonical, well formed and as deep as before |
| `BencodeRoundTrip.StringRoundTrip` | internal/bencode/decode.go:142-169 | a printed byte string is read back and exactly its bytes are consumed |
| `BencodeRoundTrip.IntRoundTrip` | internal/bencode/decode.go:171-282 | every 64-bit integer is read back and exactly its bytes are consumed |
| `BencodeRoundTrip.ValueRoundTrip` | internal/bencode/decode.go:119-456 | a canonical value is read back at a depth exactly when its nesting still fits, and refused as too deep otherwise |
| `BencodeRoundTrip.DecodeEncode` | internal/bencode/encode.go:28-63 | decoding an encoding followed by anything gives the value with sorted keys and leaves exactly what followed, if and only if at most 50 containers are nested |
| `BencodeRoundTrip.EncodeStable` | internal/bencode/encode.go:28-63 | encoding what was decoded gives the same bytes |
| `BencodeAccepts.ValueAccepted` | internal/bencode/decode.go:119-456 | whatever the decoder accepts, on any input, is well formed, has ascending keys at every level and is not nested deeper than allowed |
| `BencodeAccepts.ReadOrRefused` | internal/bencode/decode.go:119-456 | a printed value, keys in any order, is read back with exactly its text consumed or refused, never read as another value |
| `BencodeAccepts.PrintedExactly` | internal/bencode/decode.go:315-414 | a printed value is read back if and only if its keys ascend at every level and at most 50 containers are nested, and refused otherwise |
| `BencodeAccepts.LeadingZerosRead` | internal/bencode/decode.go:416-456 | any number of zeros before a string length is read over |
| `BencodeForms.StringExact` | internal/bencode/decode.go:142-169 | a string and a rest are read if and only if the text is digits for the string's length, any zeros before it, a colon, the string and the rest |
| `BencodeForms.IntExact` | internal/bencode/decode.go:171-313 | an integer is read if and only if the text before the end mark is a sign or none and digits without a superfluous zero, at most 24 characters, for that 64-bit number, or, for zero, a number that goes on in floating-point notation |
| `BencodeKeys.RepeatedKeys` | internal/bencode/decode.go:352-414 | a dictionary's text is refused for its order if and only if some key is smaller than the one before it; otherwise its keys come out strictly ascending, each once and with the value written last |
| `BencodeTruncated.ValueTruncated` | internal/bencode/decode.go:119-456 | every proper part of a canonical value's text, from its beginning, is reported as ending too early |
| `BencodeTruncated.CutShort` | internal/bencode/decode.go:119-456 | what the encoder wrote, cut anywhere, is reported as ending too early, never read as another value |
| `BencodeDecoder.DictVal.Set` | internal/bencode/types.go:132-137 | key list and map change as the insertion-ordered entries do |
| `BencodeDecoder.DictVal.Get` | internal/bencode/types.go:141-144 | looks up the entry of a key |
| `BencodeDecoder.DictVal.Reset` | internal/bencode/types.go:148-153 | leaves an empty dictionary |
| `BencodeDecoder.Reader.Refill` | internal/bencode/decode.go:59-75 | the buffer is replaced by the next piece of the source, of any length; nothing is lost |
| `BencodeDecoder.Reader.ReadFull` | internal/bencode/decode.go:77-104 | exactly the asked bytes, across any number of pieces |
| `BencodeDecoder.Reader.ReadDecimal` | internal/bencode/decode.go:420-456 | computes the decimal prefix or its overflow error |
| `BencodeDecoder.Reader.DecodeString` | internal/bencode/decode.go:142-169 | agrees with the specification on value, rest and error |
| `BencodeDecoder.Reader.DecodeInt` | internal/bencode/decode.go:171-313 | agrees with the specification on value, rest and error |
| `BencodeDecoder.Reader.DecodeValue` | internal/bencode/decode.go:119-140 | for every chunking of the source agrees with the specification on value, rest and error |
| `BencodeDecoder.Reader.DecodeList` | internal/bencode/decode.go:315-350 | agrees with the specification on value, rest and error |
| `BencodeDecoder.Reader.DecodeDict` | internal/bencode/decode.go:352-414 | agrees with the specification on value, rest and error, key order included |
| `BencodeEncoder.AppendValue` | internal/bencode/encode.go:28-63 | the bytes appended are the encoding of the value with its keys sorted |
| `BencodeEncoder.AppendEntries` | internal/bencode/encode.go:28-63 | the bytes appended are the sorted entries |
| `BencodeRaw.SkipPrinted` | internal/bencode/encode.go:162-210 | skipping an encoded value gives exactly the length of its encoding |
| `BencodeRaw.RunSkipValue` | internal/bencode/encode.go:162-179 | the recursive skipper over positions computes the skipped length |
| `BencodeRaw.RunSkipContainer` | internal/bencode/encode.go:201-210 | the container loop computes the skipped length |
| `BencodeRaw.RunWalkList` | internal/bencode/encode.go:118-138 | the loop over list items finds the range of the wanted item |
| `BencodeRaw.RunWalkDict` | internal/bencode/encode.go:140-160 | the loop over entries finds the range of the value of the wanted key |
| `BencodeRaw.RunExtractRaw` | internal/bencode/encode.go:77-90 | the loop over a path computes the range it selects |
| `BencodeRaw.ExtractEncoded` | internal/bencode/encode.go:77-160 | on an encoding a path selects exactly the encoded bytes of the value at that path, and nothing exactly when there is no such value |
| `DhtDecoder.ScanPrinted` | internal/dht/krpc.go:452-610 | every well-formed value, however deep and whatever its key order, is read back and exactly its text is consumed |
| `DhtDecoder.ScanPrintedInt` | internal/dht/krpc.go:507-562 | a printed integer of any size is read modulo 2^64, so as written exactly when it fits 64 bits |
| `BencodeForms.ScanIntExact` | internal/dht/krpc.go:507-562 | an integer is read if and only if the text is digits without a superfluous zero, after a minus or not, and the end mark; it is the number written modulo 2^64 |
| `BencodeForms.ScanStringExact` | internal/dht/krpc.go:470-505 | a string and a rest are read if and only if the text is digits without a superfluous zero for its length modulo 2^64, a colon, the string and the rest |
| `BencodeKeys.RepeatedKeysScanned` | internal/dht/krpc.go:584-610 | the keys of a dictionary come in any order; each comes out once, where it first stood, with the value written last |
| `DhtDecoder.StringPanics` | internal/dht/krpc.go:470-505 | reading a string panics if and only if its header is accepted and the length, wrapped at 64 bits, is negative or runs past the largest position; it succeeds if and only if the length is not negative and ends inside the data |
| `DhtDecoder.LongLengthPanics` | internal/dht/krpc.go:482-502 | every length of at least 2^63 and below 2^64 panics, whatever follows the colon |
| `DhtPanics.ValuePanics` | internal/dht/krpc.go:452-610 | on any data, at any depth, reading a value panics if and only if it comes to read a string, as a value or as a key, whose header is accepted and whose wrapped length is negative or runs past the largest position |
| `DhtPanics.PacketPanics` | internal/dht/krpc.go:443-610 | decoding a packet panics if and only if there is a position at which it reads a string and at which such a header stands |
| `DhtDecoder.DecodersAgree` | internal/dht/krpc.go:443-610 | on what the encoder writes both decoders return the same value and rest exactly as long as at most 50 containers are nested |
| `DhtDecoder.DecodersAgreeExactly` | internal/dht/krpc.go:443-610 | on a printed value, keys in any order, this decoder returns the value; the stream decoder returns the same if and only if keys ascend at every level and at most 50 containers are nested, and refuses it otherwise |
| `DhtDecoder.LeadingZerosDiffer` | internal/dht/krpc.go:488-490 | a string with any positive number of zeros before its length is refused by this decoder and read by the other |
| `DhtScanner.Scanner.ParseString` | internal/dht/krpc.go:470-505 | the position-moving parser computes the specification: value, error or panic, with lengths that wrap at 64 bits |
| `DhtScanner.Scanner.ParseInt` | internal/dht/krpc.go:507-562 | the position-moving parser computes the specification, with values that wrap at 64 bits |
| `DhtScanner.Scanner.ParseValue` | internal/dht/krpc.go:452-468 | computes the specification: value, error or panic |
| `DhtScanner.Scanner.ParseList` | internal/dht/krpc.go:564-582 | computes the specification: value, error or panic |
| `DhtScanner.Scanner.ParseDict` | internal/dht/krpc.go:584-610 | computes the specification: value, error or panic |
| `DhtScanner.Decode` | internal/dht/krpc.go:443-450 | returns the first value of the data, refuses it or panics, exactly as the specification does; it panics if and only if it comes to read a string with an overlong header |
| `Krpc.MarshalPrints` | internal/dht/krpc.go:234-280 | the pieces written are the bencoding of one dictionary with sorted keys |
| `Krpc.MessageRoundTrip` | internal/dht/krpc.go:234-420 | what is sent is read back, whatever follows it, exactly when a query or response carries a 20-byte id; otherwise it is rejected; it never panics. KrpcReads.PacketRead says the same of any dictionary |
| `KrpcReads.MessageRead` | internal/dht/krpc.go:299-420 | a dictionary is read as a message if and only if its entries hold the transaction and type as strings, the version as a string or no string, and for a query its method and arguments, for a response its results, each with a 20-byte id, and for an error a code and a text |
| `KrpcReads.PacketRead` | internal/dht/krpc.go:299-420 | a packet with a value, keys in any order, and anything behind it is decoded to a message if and only if the value is a dictionary whose entries stand for that message; it never panics |
| `KrpcReads.PacketRejected` | internal/dht/krpc.go:299-420 | it is rejected if and only if its entries stand for no message |
| `KrpcReads.MarshalsExactly` | internal/dht/krpc.go:234-280 | exactly queries, responses and errors with their pair are written |
| `KrpcReads.MarshalExact` | internal/dht/krpc.go:234-420 | what is written is one dictionary with exactly the entries of the message's type, keys ascending at every level, and it is decoded exactly to the messages these entries stand for |
| `Krpc.CompactRoundTrip` | internal/dht/krpc.go:89-124 | decoding a compact list gives the nodes that have an address, in order |
| `Krpc.CompactExact` | internal/dht/krpc.go:89-124 | a list is read back exactly when every node has a non-zero address |
| `Krpc.CompactLayout` | internal/dht/krpc.go:89-99 | the i-th node takes 26 bytes: its identifier, its address, its port with the high byte first |
| `Krpc.CompactBack` | internal/dht/krpc.go:89-124 | encoding a decoded list gives the data back if and only if no entry of the data has four zero bytes for its address, which is also exactly when no entry was dropped |
| `Krpc.CompactNodes` | internal/dht/krpc.go:89-99 | the buffer filled entry by entry holds the compact list |
| `Krpc.DecodeCompactNodes` | internal/dht/krpc.go:102-124 | decodes exactly the data whose length is a multiple of 26 |
| `QueueInvariants.AddKeeps` | internal/engine/engine.go:1151-1223 | adding at any position, with or without a requested GID, keeps the queue invariant |
| `QueueInvariants.PauseKeeps` | internal/engine/engine.go:1325-1378 | pausing keeps the queue invariant |
| `QueueInvariants.RemoveKeeps` | internal/engine/engine.go:1411-1457 | removing keeps the queue invariant |
| `QueueInvariants.PositionKeeps` | internal/engine/engine.go:1704-1765 | moving keeps the queue invariant |
| `QueueInvariants.PromoteKeeps` | internal/engine/engine.go:3202-3291 | promotion keeps the queue invariant and never pushes the active queue above the limit |
| `QueueInvariants.EndOfRunKeeps` | internal/engine/engine.go:3334-3401 | the end of a run keeps the invariant and leaves both queues and the group table empty |
| `QueueInvariants.StepKeeps` | internal/engine/engine.go:1151-3421 | every step keeps the queue invariant |
| `QueueInvariants.RunSafe` | internal/engine/engine.go:1151-3421 | in every run the queues are duplicate-free and disjoint and hold exactly the live groups with matching states, and every GID ever issued is in exactly one of live, stopped, removed while waiting, or spent on a failed addition |
| `QueueEffects.PromoteTakesFirst` | internal/engine/engine.go:3202-3291 | promotion takes the first unpaused waiting downloads in order, as many as there are free slots, and keeps the rest in order; what becomes of each of them is stated field by field |
| `QueueEffects.PromoteFills` | internal/engine/engine.go:3202-3291 | after a pass there is no free slot beside an unpaused waiting download |
| `QueueEffects.RunWithinLimit` | internal/engine/engine.go:3202-3291 | over every run that does not change the limit the active queue never exceeds it |
| `QueueEffects.ReapEffect` | internal/engine/engine.go:3097-3195 | a reaping pass takes exactly the ended downloads off the active queue: paused and restarting ones go to the front of the waiting queue, last ended first, the others get one result each, in order, whose status and code follow from the halt, its reason and the download's code; QueueOutcomes.OutcomeExact says it by what happened |
| `QueueEffects.PausedStays` | internal/engine/engine.go:1325-1403 | through every run a paused waiting download stays paused and waiting until it is resumed or removed or the run ends |
| `QueueEffects.ResumeUndoesPause` | internal/engine/engine.go:1325-1403 | resuming undoes pausing a waiting download |
| `QueueRemoval.RemovalExact` | internal/engine/engine.go:1411-1457 | a running download is removed, any steps follow, then the reaping pass: it is stopped as removed if and only if no end of run came and, since its last removal, no pause or option change of it and no shutdown that takes effect; it is back in the waiting queue if and only if such a pause or option change came and no end of run |
| `QueueRemoval.RemovalFinal` | internal/engine/engine.go:1411-1457 | with no second removal, it is stopped as removed if and only if none of the steps in between is a pause or an option change of it, a shutdown that takes effect or the end of the run |
| `QueueRemoval.ReapDecides` | internal/engine/engine.go:3097-3195 | at the reaping pass a removed download is stopped as removed if and only if it is not paused and its halt reason is still the user's request, and requeued if and only if it is paused |
| `QueueOutcomes.OutcomeExact` | internal/engine/engine.go:3097-3195 | a running download, any steps, then the reaping pass: with nothing that ends it it runs on; paused or with changed options and not removed since it waits, unpaused exactly for the change; removed and no shutdown since it is logged as removed with code 31; told to halt by a shutdown it is an error with its own code or 255; else it ended by itself and is complete exactly for code 0, an error with its code otherwise |
| `QueueCalls.AddExact` | internal/engine/engine.go:1151-1223 | an addition that can be made gets the requested GID, or without a request the drawn one, and stands at its place, limited to the queue, in front of what was there, waiting, with nothing else changed; refused options spend the GID; an addition without input, during a shutdown or with a requested GID that is zero or was issued before changes nothing |
| `QueueCalls.WaitingExact` | internal/engine/engine.go:1325-1457 | for a waiting download pausing and resuming set and clear its mark and change nothing else, removing takes it out of the queue and leaves no result, a change of options does nothing to the queue |
| `QueueCalls.UnstartedExact` | internal/engine/engine.go:1325-1457 | an active download without a worker: pausing puts it in front of the waiting queue, removing logs it as removed with code 31, resuming does nothing, a change of options marks it for a restart |
| `QueueCalls.UnknownExact` | internal/engine/engine.go:1325-1765 | calls about a GID that is not live change nothing |
| `QueueCalls.ShutdownExact` | internal/engine/engine.go:1087-1132 | the first shutdown, and every forced one, tells every active download to halt, cancels a running engine and leaves waiting downloads, queues and results as they are; a second one does nothing |
| `QueueCalls.RunTidy` | internal/engine/engine.go:1151-3421 | after every run workers run only for active downloads of a running engine, no waiting download is told to halt or still counts as removed, and only paused active downloads are marked for a restart |
| `QueueCalls.PromoteStarts` | internal/engine/engine.go:3202-3291 | what a promotion takes starts afresh, or ended at once in a cancelled engine, or without a worker before the engine runs; nothing about any other download changes |
| `QueueCalls.EndOfRunExact` | internal/engine/engine.go:3334-3401 | at the end of a run active downloads are errors with their own code or 255, paused waiting ones errors and the other waiting ones removed, both with code 31 |
| `QueueCalls.OutcomeAtEndOfRun` | internal/engine/engine.go:3334-3401 | a running download, any steps, then the end of the run: an error, with the code of its own end if it had one, else 255 |
| `QueueEffects.PauseAfterRemoveWins` | internal/engine/engine.go:1325-1378 | the failing input: with a pause between removal and reaping the download waits and has no result |
| `QueueEffects.EndOfRunStopsAll` | internal/engine/engine.go:3334-3401 | every download live at the end of a run gets a result |
| `QueueEffects.ResultsFinal` | internal/engine/engine.go:3425-3450 | over every run results are never taken back and a GID with a result is never live again |
| `QueueEffects.PositionExact` | internal/engine/engine.go:1704-1765 | the other downloads keep their order, and the download lands at the requested place, nearest to it within the queue, if and only if that is not behind its old place; otherwise one short of it |
| `QueueEffects.NextPlaceIsNoMove` | internal/engine/engine.go:1752-1757 | asking for the next place moves nothing |
| `QueueEngine.Engine.NextGid` | internal/engine/engine.go:755-771 | the loop issues the first drawn number that is not zero and was never issued |
| `QueueEngine.Engine.GidFor` | internal/engine/engine.go:1296-1317 | issues the requested GID, or nothing if it is zero or was issued before; without a request the first usable drawn one |
| `QueueEngine.Engine.Add` | internal/engine/engine.go:1151-1223 | computes the addition step; the new GID is fresh and removing it gives the old queue |
| `QueueEngine.Engine.Pause` | internal/engine/engine.go:1325-1378 | computes the pause step and succeeds exactly for live unpaused downloads |
| `QueueEngine.Engine.Resume` | internal/engine/engine.go:1383-1403 | computes the resume step and succeeds exactly for paused waiting downloads |
| `QueueEngine.Engine.Remove` | internal/engine/engine.go:1411-1457 | computes the removal step and succeeds exactly for live downloads |
| `QueueEngine.Engine.ChangeOption` | internal/engine/engine.go:1648-1681 | computes the restart an option change asks of an active download |
| `QueueEngine.Engine.ChangePosition` | internal/engine/engine.go:1704-1765 | computes the move and returns the place the download then has |
| `QueueEngine.Engine.RemoveStopped` | internal/engine/engine.go:3097-3195 | the two loops over copies of the queue compute the reaping pass, whose results QueueOutcomes.OutcomeExact gives for every run |
| `QueueEngine.Engine.FillFromWaiting` | internal/engine/engine.go:3202-3291 | the loop with its list of pending downloads computes the promotion pass |
| `QueueEngine.Engine.EndRun` | internal/engine/engine.go:3334-3401 | the loops over both queues compute the end of a run |
| `Lists.MoveFrom` | internal/engine/engine.go:3404-3421 | removes the first occurrence of a handle |
| `MultiFile.FileAtOffset` | internal/disk/multi_file.go:488-506 | the binary search finds the one file that holds an offset, or none exactly when no file does, also with empty entries and gaps |
| `MultiFile.NextFileOffset` | internal/disk/multi_file.go:508-515 | the least start of an entry behind an offset |
| `MultiFile.WriteIn` | internal/disk/multi_file.go:136-188 | writing inside one file changes exactly that range of the flat bytes |
| `MultiFile.Adaptor.WriteAt` | internal/disk/multi_file.go:136-188 | a write succeeds exactly when its range is inside the total and every byte is in a file; in every case the flat bytes change by exactly the prefix that was written, which ends at the first byte in no file |
| `MultiFile.Adaptor.ReadAt` | internal/disk/multi_file.go:193-268 | a read returns the flat bytes of the range up to the end, zero in gaps, before the start and where files are short, and reports the end exactly when it is reached |
| `MultiFile.NewMultiFile` | internal/disk/multi_file.go:32-62 | the neighbour test accepts exactly non-empty, sorted, non-overlapping entries |
| `MultiFile.WriteThenRead` | internal/disk/multi_file.go:136-268 | a successful write is what a later read returns |
| `FileSelection.SelectedPieces` | internal/engine/bt_download.go:1884-1901 | a piece is wanted exactly when some selected file has a byte in it |
| `FileSelection.OverlapsWantedPiece` | internal/engine/bt_download.go:1903-1915 | decides whether a file shares a piece with something wanted |
| `FileSelection.DiskEntries` | internal/engine/bt_download.go:1592-1642 | entries keep their offsets, have full length exactly when requested or touching a wanted piece, and are sorted and non-overlapping |
| `FileSelection.WantedPieceKept` | internal/engine/bt_download.go:1592-1642 | every byte of every wanted piece, of every piece when nothing was selected, is in a file kept at full length |
| `FileSelection.WritePiece` | internal/disk/multi_file.go:136-188 | writing a whole wanted piece always succeeds, whatever was selected |
| `PieceCounts.CountSetBits` | internal/disk/piece_map.go:77-88 | the table lookups with the masked last byte count the set bits |
| `PieceCounts.TestAllBitSet` | internal/disk/piece_map.go:254-264 | the byte-wise test holds if and only if every piece is set and every padding bit is clear |
| `PieceCounts.SizeByCount` | internal/disk/piece_map.go:931-962 | the length computed from the number of pieces and the last one is the sum of the piece sizes |
| `PieceCounts.CountDoneSplits` | internal/disk/piece_map.go:824-854 | completed bytes add up over adjacent ranges |
| `PieceCounts.CountWhole` | internal/disk/piece_map.go:824-854 | over the whole file the completed bytes are the sum of the sizes of the completed pieces |
| `PieceMap.Map.UpdateCache` | internal/disk/piece_map.go:894-962 | every cached total equals its sum over the single pieces |
| `PieceMap.Map.SetHave` | internal/disk/piece_map.go:198-212 | one piece changes and the cached totals stay exact |
| `PieceMap.Map.SetUse` | internal/disk/piece_map.go:223-237 | one use bit changes and the cached totals stay exact |
| `PieceMap.Map.SetHaveRange` | internal/disk/piece_map.go:270-286 | exactly the pieces of a range change and the cached totals stay exact |
| `PieceMap.Map.SetBitfield` | internal/disk/piece_map.go:345-356 | a bitfield of the right length replaces the pieces and clears all use bits; another is ignored; totals stay exact |
| `PieceMap.Map.MarkFilter` | internal/disk/piece_map.go:368-394 | exactly the pieces that a byte range meets enter or leave the filter, and the cached totals stay exact |
| `PieceMap.Map.AddNotFilter` | internal/disk/piece_map.go:396-414 | exactly the pieces that a byte range does not meet enter the filter |
| `PieceMap.Map.ClearFilter` | internal/disk/piece_map.go:416-422 | no filter remains and the totals stay exact |
| `PieceMap.Map.EnableFilter` | internal/disk/piece_map.go:424-430 | the filter keeps its pieces and the totals change to filtered ones |
| `PieceMap.Map.DisableFilter` | internal/disk/piece_map.go:432-437 | the totals change back to unfiltered ones |
| `PieceMap.Map.IsAllBitSet` | internal/disk/piece_map.go:248-252 | true if and only if every piece is set and every padding bit is clear |
| `PieceMap.Map.OffsetCompletedLength` | internal/disk/piece_map.go:824-854 | the number of bytes of the range, cut off at the end of the file, that lie in completed pieces |
| `PieceSelect.Combined` | internal/disk/piece_map.go:551-564 | a bit is clear exactly for pieces that are missing, unused, not ignored and inside an enabled filter |
| `PieceSelect.SparseSelect` | internal/disk/piece_map.go:577-625 | the free stretch with the longest adjusted span, of equal ones an anchored one (starting the file or following a fetched piece), of those the first, decides: its adjusted start is chosen if it is anchored or long enough to split, else nothing; nothing is chosen if and only if no stretch of maximal span is anchored or long enough |
| `PieceSelect.OneLeader` | internal/disk/piece_map.go:577-625 | at most one stretch is preferred to all others, so the choice is determined |
| `PieceSelect.GeomSelect` | internal/disk/piece_map.go:639-664 | the first of the growing windows whose free piece comes before any piece in use gives its first free piece; if no window does, the choice is the sparse one; with a split size of at most one piece something is chosen whenever something is free |
| `PieceSelect.InorderSelect` | internal/disk/piece_map.go:685-716 | the nested index loops compute the in-order choice |
| `InorderChoice.InorderExact` | internal/disk/piece_map.go:685-716 | for every split size: the first piece of the range if it is free; else the first stretch behind it that follows a fetched piece or is long enough to split decides, by its first piece or by the one with which the split size is reached; nothing is chosen if and only if the range is empty or its first piece is busy and no such stretch starts in it |
| `PieceSelect.InorderLeast` | internal/disk/piece_map.go:685-716 | with a split size of at most one piece it is the least free piece of the range, or none exactly when none is free |
| `PieceSelect.InorderInRange` | internal/disk/piece_map.go:685-716 | the choice is inside the range, whatever the bits, if the split size is at most one piece, the range reaches the last piece or has at most one piece, or all pieces behind its start are shorter than the split size |
| `PieceSelect.InorderLeavesRange` | internal/disk/piece_map.go:704-712 | in every other case there are bits for which the choice is behind the end of the range |
| `PieceSelect.SparseIndex` | internal/disk/piece_map.go:569-575 | every index returned is selectable, the choice and when there is none are exactly those of the sparse selector over the selectable pieces, and with a split size of at most one piece one is returned whenever one is selectable |
| `PieceSelect.GeomIndex` | internal/disk/piece_map.go:631-637 | every index returned is selectable, the choice is exactly that of the windows, or of the sparse selector, over the selectable pieces, and with a split size of at most one piece one is returned whenever one is selectable |
| `PieceSelect.InorderIndex` | internal/disk/piece_map.go:674-683 | every index returned is selectable, the choice is exactly that of the in-order selector over the selectable pieces, and with a split size of at most one piece it is the least selectable one of the range |
| `Control.SumIsCoverage` | internal/engine/engine.go:2647-2660 | disjoint writes add up to a whole range exactly when they cover it, and never to more |
| `Control.RunTallies` | internal/engine/engine.go:2621-2667 | over every run of writes, overlapping or not, a piece is complete if and only if it was so at the start or the shares of the writes add up to at least its size; its counter is its size when complete and the sum otherwise |
| `Control.WrittenIsComplete` | internal/engine/engine.go:2621-2667 | over every run a piece all of whose bytes have been written is complete |
| `Control.CompleteIffWritten` | internal/engine/engine.go:2621-2667 | over any run of disjoint writes from a seeded bitfield a piece's bit is set exactly when it was set at the start or all of its bytes have been written, and no counter exceeds the piece size |
| `Control.RewritesComplete` | internal/engine/engine.go:2621-2667 | the failing input for overlapping writes: any one byte of a piece, written as often as the piece has bytes, completes it although no other byte was written |
| `Control.ReportedOnce` | internal/engine/engine.go:2621-2667 | over any run each newly completed piece is reported exactly once and nothing else is |
| `Control.Info.constructor` | internal/engine/engine.go:2512-2521 | counters are seeded with the sizes of complete pieces |
| `Control.Info.MarkPiece` | internal/engine/engine.go:2644-2665 | one piece takes its share of a write and is completed when full |
| `Control.Info.MarkWritten` | internal/engine/engine.go:2621-2667 | the loop over the touched pieces gives every piece its share of the clipped write and returns the newly completed ones |
| `Control.PieceDone` | internal/engine/engine.go:2807-2831 | the walk from old piece to old piece decides whether every byte was complete |
| `Control.ConvertBitfield` | internal/engine/engine.go:2807-2831 | a new piece is marked exactly when every byte of it was in a completed old piece; padding stays clear |
| `Control.ConvertNeverGrows` | internal/engine/engine.go:2807-2831 | no byte becomes complete by converting |
| `Control.ConvertSame` | internal/engine/engine.go:2807-2831 | converting to the same piece length changes no piece |
| `ControlSegments.MissingSegments` | internal/engine/engine.go:2833-2851 | the segments are free, ascending, not touching and tile exactly the bytes of incomplete pieces |
| `ControlSegments.NewControlSegmentMan` | internal/engine/engine.go:2833-2851 | a byte is in a segment exactly when its piece is not complete |
| `Segments.Divide` | internal/engine/segment.go:47-66 | equal chunks, the last one longer, nothing written, continue the tiling to the end of the file |
| `Segments.SegmentMan.constructor` | internal/engine/segment.go:40-73 | as many segments as wanted, at least one and no more than bytes, equal but for a longer last one, all free, tile the file |
| `Segments.SegmentMan.Resume` | internal/engine/engine.go:4926-4959 | segments built from a resume offset tile the file, the first standing for what is there and recorded as written, the others equal chunks of the rest |
| `Segments.StepTiles` | internal/engine/segment.go:78-181 | every operation keeps the tiling and the total size |
| `Segments.RunTiles` | internal/engine/segment.go:78-181 | every run keeps the tiling and the total size |
| `Segments.NextIsExhaustive` | internal/engine/segment.go:78-96 | there is no next segment exactly when every segment is claimed or done |
| `Segments.NoDoubleClaim` | internal/engine/segment.go:78-128 | through every run a segment in progress is handed to nobody until it is given back or finished |
| `Segments.NoneAfterDone` | internal/engine/segment.go:117-128 | a finished segment is never handed out again |
| `Segments.SegmentMan.Next` | internal/engine/segment.go:78-96 | the circular scan computes the next step and returns none exactly when all are claimed or done |
| `Segments.SegmentMan.Unclaim` | internal/engine/segment.go:101-113 | a segment that is not finished is free again and the others are as they were |
| `Segments.SegmentMan.MarkDone` | internal/engine/segment.go:117-128 | the segment is finished, unclaimed and has the given number of bytes written; the others are as they were |
| `Segments.SegmentMan.FindLargest` | internal/engine/segment.go:147-163 | the scan finds the first splittable segment with most remaining bytes |
| `Segments.SegmentMan.Split` | internal/engine/segment.go:138-181 | splits the in-progress segment with most remaining bytes in half, exactly when one is long enough, and keeps the tiling |
| `Segments.SegmentMan.Done` | internal/engine/segment.go:184-194 | true exactly when every segment is done |
| `Segments.SegmentMan.Written` | internal/engine/segment.go:197-206 | the loop returns the sum of what the segments record as written |
| `SegmentEffects.NextExact` | internal/engine/segment.go:78-96 | the first free segment, counting on circularly from the position, is claimed, the position moves behind it and nothing else changes |
| `SegmentEffects.EventuallyHanded` | internal/engine/segment.go:78-96 | a free segment is handed out within as many requests as there are free segments |
| `SegmentEffects.UnclaimExact` | internal/engine/segment.go:101-113 | a segment that is not finished is free again and nothing else changes; otherwise nothing changes at all |
| `SegmentEffects.UnclaimedIsHanded` | internal/engine/segment.go:78-113 | a segment given back is handed out again within as many requests as there are segments |
| `SegmentEffects.MarkDoneExact` | internal/engine/segment.go:117-128 | exactly that segment is finished, unclaimed, with the given number of bytes written and its range unchanged; a wrong index changes nothing |
| `SegmentEffects.FinishedForGood` | internal/engine/segment.go:117-128 | through every run a finished segment stays finished and is handed to nobody, and what was written stays until it is recorded anew |
| `SegmentEffects.SplitExact` | internal/engine/segment.go:138-181 | if some segment in progress is long enough, the first with most left is cut in half, the upper half being a new free segment at the end with nothing written, and nothing else changes; otherwise nothing changes |
| `SegmentEffects.WrittenStep` | internal/engine/segment.go:78-206 | of all operations only finishing a segment changes the recorded bytes, and by the difference it makes |
| `SegmentEffects.WrittenInFull` | internal/engine/segment.go:197-206 | when every segment was written in full the recorded bytes are the size of the file |
| `FileContents.PutConcat` | internal/disk/write_buffer.go:36-56 | two writes, one where the other ends, are one write |
| `WriteBuffer.Buffer.Coalesce` | internal/disk/write_buffer.go:36-56 | the part that fits is appended and a full buffer reaches the file |
| `WriteBuffer.Buffer.WriteAt` | internal/disk/write_buffer.go:28-73 | the file with the buffered bytes laid over it is always what writing directly would give; what fits behind the buffered bytes only joins them, otherwise they reach the file first and what is left is buffered, or written directly if the buffer cannot hold it |
| `WriteBuffer.Buffer.Flush` | internal/disk/write_buffer.go:77-89 | afterwards the file itself is that |
| `WriteBuffer.Buffer.Discard` | internal/disk/write_buffer.go:92-95 | only buffered bytes are lost |
| `WriteCache.DropKeeps` | internal/disk/write_cache.go:83-95 | taking a file out keeps the list duplicate-free and the total exact |
| `WriteCache.TouchKeeps` | internal/disk/write_cache.go:112-115 | setting an entry and moving its file to the end keeps the list duplicate-free and the total exact |
| `WriteCache.Cache.FlushEntry` | internal/disk/write_cache.go:83-95 | no file looks different afterwards and the entry is gone |
| `WriteCache.Cache.Evict` | internal/disk/write_cache.go:126-131 | the files least recently used are written out, in that order and no more than it takes to come within the limit; all evicted were used before all that stay, which are untouched; no file looks different |
| `WriteCache.Cache.Add` | internal/disk/write_cache.go:40-71 | every file with its cached region laid over it is what writing directly would give, the file is the one used last, what had to go are the files least recently used and no more than it took, the other entries are as they were, and the total is within the limit |
| `WriteCache.Cache.Flush` | internal/disk/write_cache.go:77-81 | the file itself is then what it looked like, its entry is gone, and no other file or entry changes |
| `WriteCache.Cache.Close` | internal/disk/write_cache.go:100-110 | nothing is cached and every file is what it looked like |
| `StoppedRing.PushAllKeepsNewest` | internal/engine/stopped_ring.go:37-56 | whatever is pushed, the newest results remain, as many as fit, in order |
| `StoppedRing.EvictAllExact` | internal/engine/stopped_ring.go:35-57 | of evicted results the count, the number of failures and the code of the last failure are kept, the code from before if none of them failed |
| `StoppedRing.PushAllEvicts` | internal/engine/stopped_ring.go:35-57 | over any run of pushes exactly the oldest results, those that no longer fit, count as evicted |
| `StoppedRing.PushRoom` | internal/engine/stopped_ring.go:37-56 | storing in the next slot appends to the queue and keeps the index exact |
| `StoppedRing.PopFirst` | internal/engine/stopped_ring.go:37-56 | dropping the head slot drops the oldest result and keeps the index exact |
| `StoppedRing.Ring.constructor` | internal/engine/stopped_ring.go:21-29 | an empty ring with the given or default capacity |
| `StoppedRing.Ring.Push` | internal/engine/stopped_ring.go:31-56 | the ring is the bounded queue after a push; the evicted result is counted; everything pushed is stored, evicted, removed or purged |
| `StoppedRing.Ring.Get` | internal/engine/stopped_ring.go:58-77 | returns the asked part of the queue |
| `StoppedRing.Ring.GetByGid` | internal/engine/stopped_ring.go:79-88 | finds the stored result of a GID, or none exactly when there is none |
| `StoppedRing.Ring.RemoveByGid` | internal/engine/stopped_ring.go:122-145 | the other results stay in order; succeeds exactly when the GID was stored |
| `StoppedRing.Ring.Purge` | internal/engine/stopped_ring.go:153-164 | empties the ring and accounts for what it held |
| `StoppedRing.Ring.Resize` | internal/engine/stopped_ring.go:170-208 | keeps the newest results that fit in order and counts the evicted ones |
| `Credentials.PlaceKeeps` | internal/engine/auth_config.go:237-249 | the list stays strictly sorted; the entry replaces the one with its key and no other is touched |
| `Credentials.OneEntryPerKey` | internal/engine/auth_config.go:67-79 | there is one entry per host, port and path |
| `Credentials.RunStoresLatest` | internal/engine/auth_config.go:237-249 | in every run of updates the list is strictly sorted and holds exactly the latest update of each key |
| `Credentials.Factory.LowerBound` | internal/engine/auth_config.go:238-240 | the binary search separates the smaller entries from the others |
| `Credentials.Factory.Update` | internal/engine/auth_config.go:237-249 | inserts or replaces the entry of its key and keeps the list sorted |
| `Credentials.Factory.Find` | internal/engine/auth_config.go:252-271 | returns the entry with the longest stored path that is a prefix of the requested one, or none exactly when there is none |
| `Throttle.StepKeeps` | internal/engine/ratelimit.go:51-157 | every atomic step of refiller and waiters keeps the token balance, a bucket that is not negative and the registration of sleeping waiters |
| `Throttle.Conservation` | internal/engine/ratelimit.go:51-157 | in every interleaving ten times the tokens in the bucket, granted or on their way, plus the tenths carried or given up, is the sum of the rates over all ticks, and the bucket is never negative |
| `Throttle.GrantedBound` | internal/engine/ratelimit.go:51-157 | at one positive rate ten times the granted tokens never exceed rate times ticks |
| `Throttle.TenTicksAddRate` | internal/engine/ratelimit.go:51-77 | any ten ticks at one rate add exactly that rate, whatever happens in between |
| `Throttle.SignalWakes` | internal/engine/ratelimit.go:79-93 | every waiter asleep when the refiller signals can run again |
| `Throttle.LiftingWakes` | internal/engine/ratelimit.go:96-121 | lifting the limit signals every sleeping waiter, which may then look again |
| `ThrottleWaiting.LiftReleasesExactly` | internal/engine/ratelimit.go:96-170 | after the limit is lifted, and without a positive rate later, some run lets a waiter through if and only if it wants no more than the tokens in the bucket and those the refiller has already computed |
| `ThrottleWaiting.LiftedStillWaits` | internal/engine/ratelimit.go:96-170 | a waiter that wants more than that is still waiting after every such run in which it is not cancelled |
| `ThrottleWaiting.LiftStrandsSomeone` | internal/engine/ratelimit.go:96-170 | at every positive rate a state with such a waiter is reached |
| `ThrottleWaiting.MissedExactly` | internal/engine/ratelimit.go:51-170 | in every interleaving a waiter sleeps beside enough tokens with no signal sent or on its way if and only if it lost its last race to a waiter that left enough, and since then no tokens came, the limit was not lifted, it was not cancelled and others took no more than left it enough |
| `ThrottleWaiting.RaceLeavesSleeper` | internal/engine/ratelimit.go:51-170 | at every rate of at least 20 such a sleeping waiter is reached |

## Left out

- HTTP, FTP, SFTP, trackers, peer wire messages, uTP, RPC, hooks, console and session files: input and output around the modelled logic.
- Metalink, torrent parsing, cookies, netrc matching and configuration merging: they would only add easy members.
- Locks and wall-clock time: a locked method is one atomic step; last-contact times, bucket refresh times and speeds are not modelled.
- SHA-1, RC4 and random numbers: functions and values given as parameters; all statements hold for every choice of them.
- A marker that occurs by chance inside random padding: excluded by a hypothesis of the handshake theorems; the parsers themselves are modelled for every stream.
- Two candidate infohashes with the same verification value: excluded by a hypothesis of the receiver's theorems.
- Routing nodes as shared pointers: a node is a value in its one slot, so marking a node changes that slot.
- The two mirrored downward walks of the routing tree: one method with a flag for the order.
- 64-bit overflow of positions, offsets and lengths: integers are unbounded, except where a decoder's own arithmetic wraps or checks.
- Values of a length that no Go slice can have: statements about the DHT decoder take data of at most 2^63 - 1 bytes.
- BencodeDecoder.Reader.ReadFull: a length too large for memory panics in the allocation (internal/bencode/decode.go:78); the model reports the end of the data.
- BencodeDecoder.Reader.DecodeString: the same for the length of a string.
- BencodeRaw.RunSkipValue: string lengths do not wrap at 64 bits in the model of the raw path extractor.
- BencodeRaw.RunSkipContainer: the same for strings inside containers.
- BencodeRaw.RunWalkDict: a key that runs past the data is no result, where the code slices out of range and panics.
- Slices out of range in the raw path extractor and failing type assertions in the message marshaller: modelled as "no result", like an error.
- MseProgress.RunInv: stages and lengths only; MseStages ties them to what the handshake methods read and write.
- RoutingTree.RoutingTable.BatchUpdate: the last-contact time of the good node is not modelled.
- QueueEngine.Engine.ChangeOption: option values, their errors and the merge into stored results are not modelled; the step is the restart of an active download.
- QueueInvariants.StepKeeps: promotion and the launch of workers are one step, although the code releases the queue lock between them; deferred input, option contents, hooks and events are not modelled.
- Shutdown and workers that end by themselves: steps of the queue's state machine only, without methods in the engine class.
- MultiFile.Adaptor.WriteAt: writes into single files succeed, opening, closing and allocation are not modelled, and offsets and lengths of entries are not negative.
- QueueEngine.Engine.GidFor: a requested GID that cannot be parsed is treated like zero, which is refused in the same way.
- StoppedRing.Ring.Get: offset and number are not negative.
- Setting or clearing all pieces or all use bits of a piece map: the range and bitfield operations show the same.
- WriteBuffer.Buffer.WriteAt: writes into the file succeed and offsets are not negative.
- WriteCache.Cache.Evict: writes succeed; with failing writes the loop in the code makes no progress.
- StoppedRing.Ring.Push: GIDs in the ring are distinct, which the queue's invariant guarantees; option merging and status snapshots are not modelled.
- Credentials.Factory.Update: entries are values; the activated flag is carried but never changed.
- PieceSelect.GeomSelect: the floating-point windows are any strictly growing integer bounds that reach the last piece.
- PieceSelect.GeomIndex: the same windows.
- PieceMap.Map.MarkFilter: offsets and lengths are not negative.
- PieceMap.Map.AddNotFilter: offsets and lengths are not negative.
- PieceMap.Map.OffsetCompletedLength: the piece length, offset and length are not negative.
- Control.Info.MarkWritten: total and piece length are positive and the bitfield has the matching length; otherwise the code does nothing.
- Segments.SegmentMan.constructor: the total size is known and positive.
- Segments.SegmentMan.Resume: the total size is known and positive.
- FileSelection.DiskEntries: names, renaming and the list of unselected names are not modelled.
- Throttle.StepKeeps: the refiller reads rate and carry in one step; changing the rate swaps it, resets the carry and signals the waiters in one step, where the code does these one after another without a common lock; stopping the throttle is not modelled.
- Real order of wake-ups, fairness and timing: no liveness beyond what is stated.
